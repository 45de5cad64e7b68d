/** Fixed layouts of unsigned little-endian integers, as the packed structs of the C code put them in memory. */
module Bytes {
  type byte = x: int | 0 <= x < 256

  type bytes = seq<byte>

  function Range(width: nat): (r: nat)
    ensures r > 0
  {
    if width == 0 then 1 else 256 * Range(width - 1)
  }

  const U16: nat := 0x1_0000
  const U32: nat := 0x1_0000_0000
  const U64: nat := 0x1_0000_0000_0000_0000

  lemma RangeValues()
    ensures Range(2) == U16 && Range(4) == U32 && Range(8) == U64
  {
    assert Range(1) == 256;
    assert Range(3) == 0x100_0000;
    assert Range(5) == 0x100_0000_0000;
    assert Range(6) == 0x1_0000_0000_0000;
    assert Range(7) == 0x100_0000_0000_0000;
  }

  function ToLE(v: nat, width: nat): (b: bytes)
    ensures |b| == width
  {
    if width == 0 then [] else [v % 256] + ToLE(v / 256, width - 1)
  }

  function FromLE(b: bytes): (v: nat)
    ensures v < Range(|b|)
  {
    if b == [] then 0 else b[0] + 256 * FromLE(b[1..])
  }

  lemma {:induction false} FromToLE(v: nat, width: nat)
    requires v < Range(width)
    ensures FromLE(ToLE(v, width)) == v
  {
    if width > 0 {
      FromToLE(v / 256, width - 1);
      assert ToLE(v, width)[1..] == ToLE(v / 256, width - 1);
    }
  }

  lemma {:induction false} ToFromLE(b: bytes)
    ensures ToLE(FromLE(b), |b|) == b
  {
    if b != [] {
      ToFromLE(b[1..]);
      assert FromLE(b) % 256 == b[0] && FromLE(b) / 256 == FromLE(b[1..]);
    }
  }

  /** The byte length of a struct whose fields have the given widths. */
  function Size(layout: seq<nat>): nat {
    if layout == [] then 0 else layout[0] + Size(layout[1..])
  }

  predicate Fits(layout: seq<nat>, fields: seq<nat>) {
    |fields| == |layout| && forall i :: 0 <= i < |layout| ==> fields[i] < Range(layout[i])
  }

  function Pack(layout: seq<nat>, fields: seq<nat>): (b: bytes)
    requires |fields| == |layout|
    ensures |b| == Size(layout)
  {
    if layout == [] then [] else ToLE(fields[0], layout[0]) + Pack(layout[1..], fields[1..])
  }

  function Unpack(layout: seq<nat>, b: bytes): (fields: seq<nat>)
    requires |b| == Size(layout)
    ensures |fields| == |layout|
  {
    if layout == [] then []
    else [FromLE(b[..layout[0]])] + Unpack(layout[1..], b[layout[0]..])
  }

  /** Reading a struct back gives the fields that were written. */
  lemma {:induction false} UnpackPack(layout: seq<nat>, fields: seq<nat>)
    requires Fits(layout, fields)
    ensures Unpack(layout, Pack(layout, fields)) == fields
  {
    if layout != [] {
      var b := Pack(layout, fields);
      assert b[..layout[0]] == ToLE(fields[0], layout[0]);
      assert b[layout[0]..] == Pack(layout[1..], fields[1..]);
      FromToLE(fields[0], layout[0]);
      UnpackPack(layout[1..], fields[1..]);
    }
  }

  /** Every byte string of the right length is the image of the fields read from it. */
  lemma {:induction false} PackUnpack(layout: seq<nat>, b: bytes)
    requires |b| == Size(layout)
    ensures Fits(layout, Unpack(layout, b))
    ensures Pack(layout, Unpack(layout, b)) == b
  {
    if layout != [] {
      PackUnpack(layout[1..], b[layout[0]..]);
      ToFromLE(b[..layout[0]]);
      var fields := Unpack(layout, b);
      assert fields[1..] == Unpack(layout[1..], b[layout[0]..]);
      assert b == b[..layout[0]] + b[layout[0]..];
      forall i | 0 <= i < |layout|
        ensures fields[i] < Range(layout[i])
      {
        if i > 0 { assert fields[i] == fields[1..][i - 1] && layout[i] == layout[1..][i - 1]; }
      }
    }
  }

  /** The stretch of `b` that starts at `at` and is `n` long. */
  function Slice(b: bytes, at: nat, n: nat): (s: bytes)
    requires at + n <= |b|
    ensures |s| == n
  {
    b[at..at + n]
  }

  /** `b` with the bytes from `at` on overwritten. */
  function Patch(b: bytes, at: nat, data: bytes): (r: bytes)
    requires at + |data| <= |b|
    ensures |r| == |b|
    ensures forall i :: 0 <= i < |b| ==> r[i] == if at <= i < at + |data| then data[i - at] else b[i]
  {
    b[..at] + data + b[at + |data|..]
  }

  /** A single field can be read at its offset. */
  lemma {:induction false} FieldAt(layout: seq<nat>, fields: seq<nat>, k: nat, at: nat)
    requires Fits(layout, fields) && k < |layout| && at == Size(layout[..k])
    ensures at + layout[k] <= Size(layout)
    ensures FromLE(Slice(Pack(layout, fields), at, layout[k])) == fields[k]
  {
    var b := Pack(layout, fields);
    var rest := Pack(layout[1..], fields[1..]);
    assert b == ToLE(fields[0], layout[0]) + rest;
    if k == 0 {
      FromToLE(fields[0], layout[0]);
      assert Slice(b, 0, layout[0]) == ToLE(fields[0], layout[0]);
    } else {
      assert layout[..k][0] == layout[0] && layout[..k][1..] == layout[1..][..k - 1];
      FieldAt(layout[1..], fields[1..], k - 1, at - layout[0]);
      assert Slice(b, at, layout[k]) == Slice(rest, at - layout[0], layout[k]);
    }
  }

  /** Where field `k` starts. */
  function Offset(layout: seq<nat>, k: nat): nat
    requires k <= |layout|
  {
    if k == 0 then 0 else Offset(layout, k - 1) + layout[k - 1]
  }

  lemma {:induction false} OffsetOfRest(layout: seq<nat>, k: nat)
    requires 0 < k <= |layout|
    ensures Offset(layout, k) == layout[0] + Offset(layout[1..], k - 1)
  {
    if k > 1 { OffsetOfRest(layout, k - 1); }
  }

  lemma RestSlice(b: bytes, first: nat, at: nat, n: nat)
    requires first <= |b| && at + n <= |b| - first
    ensures b[first + at..first + at + n] == b[first..][at..at + n]
  {
  }

  /** A struct is read field by field. */
  lemma {:induction false} FieldRead(layout: seq<nat>, b: bytes, k: nat)
    requires |b| == Size(layout) && k < |layout|
    ensures Offset(layout, k) + layout[k] <= |b|
    ensures Unpack(layout, b)[k] == FromLE(b[Offset(layout, k)..Offset(layout, k) + layout[k]])
  {
    hide Offset, FromLE;
    if k == 0 {
      assert Offset(layout, 0) == 0 by { FirstOffset(layout); }
    } else {
      var rest, at := b[layout[0]..], Offset(layout[1..], k - 1);
      OffsetOfRest(layout, k);
      FieldRead(layout[1..], rest, k - 1);
      assert Unpack(layout, b) == [FromLE(b[..layout[0]])] + Unpack(layout[1..], rest);
      RestSlice(b, layout[0], at, layout[k]);
    }
  }

  /** Changing one field changes its bytes and no others. */
  lemma {:induction false} PackChanged(layout: seq<nat>, fields: seq<nat>, k: nat, v: nat)
    requires |fields| == |layout| && k < |layout|
    ensures Offset(layout, k) + layout[k] <= Size(layout)
    ensures var b := Pack(layout, fields);
            Pack(layout, fields[k := v]) == b[..Offset(layout, k)] + ToLE(v, layout[k]) + b[Offset(layout, k) + layout[k]..]
  {
    hide Offset, ToLE;
    var b, first, rest := Pack(layout, fields), ToLE(fields[0], layout[0]), Pack(layout[1..], fields[1..]);
    assert b == first + rest;
    if k == 0 {
      FirstOffset(layout);
      assert fields[k := v][1..] == fields[1..];
      assert b[..0] == [] && b[layout[0]..] == rest;
    } else {
      var at := Offset(layout[1..], k - 1);
      OffsetOfRest(layout, k);
      PackChanged(layout[1..], fields[1..], k - 1, v);
      assert fields[k := v][1..] == fields[1..][k - 1 := v];
      assert b[..layout[0] + at] == first + rest[..at] && b[layout[0] + at + layout[k]..] == rest[at + layout[k]..];
      Associate(first, rest[..at], ToLE(v, layout[k]));
      Associate(first, rest[..at] + ToLE(v, layout[k]), rest[at + layout[k]..]);
    }
  }

  /** `b` with zeros in four places. */
  function Zeroed(b: bytes, at: nat): bytes
    requires at + 4 <= |b|
  {
    b[..at] + [0, 0, 0, 0] + b[at + 4..]
  }

  lemma ZeroWord()
    ensures ToLE(0, 4) == [0, 0, 0, 0]
  {
    assert ToLE(0, 1) == [0] && ToLE(0, 2) == [0, 0] && ToLE(0, 3) == [0, 0, 0];
  }

  lemma FirstOffset(layout: seq<nat>)
    ensures Offset(layout, 0) == 0
  {
  }

  lemma SliceOfSlice(b: bytes, at: nat, n: nat, i: nat, k: nat)
    requires at + n <= |b| && i + k <= n
    ensures b[at..at + n][i..i + k] == b[at + i..at + i + k]
  {
    var x, y := b[at..at + n][i..i + k], b[at + i..at + i + k];
    assert forall j :: 0 <= j < k ==> x[j] == b[at..at + n][i + j] == y[j];
  }

  lemma Associate<T>(a: seq<T>, b: seq<T>, c: seq<T>)
    ensures (a + b) + c == a + (b + c)
  {
  }
}
