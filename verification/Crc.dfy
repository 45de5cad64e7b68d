/** Cyclic redundancy checks, table-driven as in the C code, against division bit by bit. */
module Crc {
  import opened Bytes

  type word = bv32

  /** The reflected generator of CRC-32 (section 8 of RFC 1952), and the one of CRC-32C. */
  const CRC32: word := 0xEDB88320
  const CRC32C: word := 0x82F63B78

  function Xor(a: word, b: word): word { a ^ b }

  function Half(r: word): word { r >> 1 }

  predicate Odd(r: word) { r & 1 == 1 }

  function Not(r: word): word { !r }

  // ---- the definition: shift a message through the register bit by bit ----

  /** The register after one more bit has been divided out. */
  function Shift(poly: word, r: word): word {
    if Odd(r) then Xor(poly, Half(r)) else Half(r)
  }

  function ShiftBy(poly: word, r: word, bits: nat): word
    decreases bits
  {
    if bits == 0 then r else ShiftBy(poly, Shift(poly, r), bits - 1)
  }

  /** The register after a message: each byte is added to the low end, and then eight bits are divided out. */
  function Register(poly: word, r: word, data: bytes): word
    decreases |data|
  {
    if data == [] then r else Register(poly, ShiftBy(poly, Xor(r, data[0] as word), 8), data[1..])
  }

  /** The check value after `data`, of a message whose check value so far is `crc`. */
  function Update(poly: word, crc: word, data: bytes): word {
    Not(Register(poly, Not(crc), data))
  }

  function Check(poly: word, data: bytes): word {
    Update(poly, 0, data)
  }

  /** Checking a message in pieces is checking it as a whole. */
  lemma UpdateComposes(poly: word, crc: word, a: bytes, b: bytes)
    ensures Update(poly, Update(poly, crc, a), b) == Update(poly, crc, a + b)
  {
    hide Not, Register;
    RegisterComposes(poly, Not(crc), a, b);
    NotNot(Register(poly, Not(crc), a));
  }

  lemma EmptyUpdate(poly: word)
    ensures Update(poly, 0, []) == 0
  {
    NotNot(0);
  }

  const DIGITS: bytes := [0x31, 0x32, 0x33, 0x34, 0x35, 0x36, 0x37, 0x38, 0x39]

  /** One byte of a message. */
  lemma RegisterByte(poly: word, r: word, b: byte, w: word, rest: bytes, after: word)
    requires b as word == w && ShiftBy(poly, Xor(r, w), 8) == after
    ensures Register(poly, r, [b] + rest) == Register(poly, after, rest)
  {
    hide Xor, ShiftBy;
    assert ([b] + rest)[1..] == rest;
  }

  lemma EightShifts(poly: word, r: word)
    ensures ShiftBy(poly, r, 8) == Shift(poly, Shift(poly, Shift(poly, Shift(poly, Shift(poly, Shift(poly, Shift(poly, Shift(poly, r))))))))
  {
    hide Shift;
    assert ShiftBy(poly, r, 8) == ShiftBy(poly, Shift(poly, Shift(poly, Shift(poly, Shift(poly, r)))), 4);
  }

  lemma EmptyRegister(poly: word, r: word)
    ensures Register(poly, r, []) == r
  {
  }

  /** Digit `k`, bit by bit. */
  lemma Digit(poly: word, r: word, k: nat, w: word, after: word)
    requires k < 9 && w == DigitWord(k)
    requires Shift(poly, Shift(poly, Shift(poly, Shift(poly, Shift(poly, Shift(poly, Shift(poly, Shift(poly, Xor(r, w))))))))) == after
    ensures Register(poly, r, DIGITS[k..]) == Register(poly, after, DIGITS[k + 1..])
  {
    hide Shift, Xor, Register;
    EightShifts(poly, Xor(r, w));
    assert DIGITS[k..] == [DIGITS[k]] + DIGITS[k + 1..];
    RegisterByte(poly, r, DIGITS[k], w, DIGITS[k + 1..], after);
  }

  function DigitWord(k: nat): word
    requires k < 9
  {
    DIGITS[k] as word
  }

  lemma DigitWords()
    ensures DigitWord(0) == 0x31 && DigitWord(1) == 0x32 && DigitWord(2) == 0x33 && DigitWord(3) == 0x34 && DigitWord(4) == 0x35
    ensures DigitWord(5) == 0x36 && DigitWord(6) == 0x37 && DigitWord(7) == 0x38 && DigitWord(8) == 0x39
  {
    hide DigitWord;
    LowDigits();
    MiddleDigits();
    HighDigits();
  }

  lemma LowDigits()
    ensures DigitWord(0) == 0x31 && DigitWord(1) == 0x32 && DigitWord(2) == 0x33
  {
  }

  lemma MiddleDigits()
    ensures DigitWord(3) == 0x34 && DigitWord(4) == 0x35 && DigitWord(5) == 0x36
  {
  }

  lemma HighDigits()
    ensures DigitWord(6) == 0x37 && DigitWord(7) == 0x38 && DigitWord(8) == 0x39
  {
  }

  lemma Digits32()
    ensures Register(CRC32, 0xFFFFFFFF, DIGITS) == 0x340BC6D9
  {
    hide ShiftBy, Register, DigitWord;
    DigitWords();
    EmptyRegister(CRC32, 0x340BC6D9);
    Digit(CRC32, 0x651F2550, 8, 0x39, 0x340BC6D9);
    Digit(CRC32, 0xAFFC9660, 7, 0x38, 0x651F2550);
    Digit(CRC32, 0xF68D2C9E, 6, 0x37, 0xAFFC9660);
    Digit(CRC32, 0x340AC5E3, 5, 0x36, 0xF68D2C9E);
    Digit(CRC32, 0x641C1F5C, 4, 0x35, 0x340AC5E3);
    Digit(CRC32, 0x77B79C2D, 3, 0x34, 0x641C1F5C);
    Digit(CRC32, 0xB0ACBB32, 2, 0x33, 0x77B79C2D);
    Digit(CRC32, 0x7C231048, 1, 0x32, 0xB0ACBB32);
    Digit(CRC32, 0xFFFFFFFF, 0, 0x31, 0x7C231048);
    assert DIGITS[0..] == DIGITS && DIGITS[9..] == [];
  }

  lemma Digits32C()
    ensures Register(CRC32C, 0xFFFFFFFF, DIGITS) == 0x1CF96D7C
  {
    hide ShiftBy, Register, DigitWord;
    DigitWords();
    EmptyRegister(CRC32C, 0x1CF96D7C);
    Digit(CRC32C, 0x9F787F65, 8, 0x39, 0x1CF96D7C);
    Digit(CRC32C, 0xEDBD6815, 7, 0x38, 0x9F787F65);
    Digit(CRC32C, 0xBECA8E79, 6, 0x37, 0xEDBD6815);
    Digit(CRC32C, 0xE72EDCCA, 5, 0x36, 0xBECA8E79);
    Digit(CRC32C, 0x09C50B11, 4, 0x35, 0xE72EDCCA);
    Digit(CRC32C, 0xEF84D04D, 3, 0x34, 0x09C50B11);
    Digit(CRC32C, 0x8CAA3B9F, 2, 0x33, 0xEF84D04D);
    Digit(CRC32C, 0x6F0A661C, 1, 0x32, 0x8CAA3B9F);
    Digit(CRC32C, 0xFFFFFFFF, 0, 0x31, 0x6F0A661C);
    assert DIGITS[0..] == DIGITS && DIGITS[9..] == [];
  }

  /** The known check values of "123456789". */
  lemma CheckValues()
    ensures Check(CRC32, DIGITS) == 0xCBF43926 && Check(CRC32C, DIGITS) == 0xE3069283
  {
    hide Register;
    Digits32();
    Digits32C();
  }

  lemma NotNot(x: word)
    ensures Not(Not(x)) == x
  {
  }

  lemma {:induction false} RegisterComposes(poly: word, r: word, a: bytes, b: bytes)
    ensures Register(poly, Register(poly, r, a), b) == Register(poly, r, a + b)
    decreases |a|
  {
    hide Xor, ShiftBy;
    if a == [] {
      assert a + b == b;
    } else {
      assert (a + b)[1..] == a[1..] + b;
      RegisterComposes(poly, ShiftBy(poly, Xor(r, a[0] as word), 8), a[1..], b);
    }
  }

  // ---- why a table of 256 entries is enough ----

  lemma XorHalf(a: word, b: word)
    ensures Half(Xor(a, b)) == Xor(Half(a), Half(b))
  {
  }

  lemma XorOdd(a: word, b: word)
    ensures Odd(Xor(a, b)) == (Odd(a) != Odd(b))
  {
  }

  lemma XorCancels(p: word, a: word, b: word)
    ensures Xor(Xor(p, a), Xor(p, b)) == Xor(a, b)
  {
    assert (p ^ a) ^ (p ^ b) == a ^ b;
  }

  lemma XorMoves(p: word, a: word, b: word)
    ensures Xor(Xor(p, a), b) == Xor(p, Xor(a, b))
  {
    assert (p ^ a) ^ b == p ^ (a ^ b);
  }

  lemma XorSwaps(p: word, a: word, b: word)
    ensures Xor(a, Xor(p, b)) == Xor(p, Xor(a, b))
  {
    assert a ^ (p ^ b) == p ^ (a ^ b);
  }

  lemma ShiftIsLinear(poly: word, a: word, b: word)
    ensures Shift(poly, Xor(a, b)) == Xor(Shift(poly, a), Shift(poly, b))
  {
    hide Xor, Half, Odd;
    XorHalf(a, b);
    XorOdd(a, b);
    XorCancels(poly, Half(a), Half(b));
    XorMoves(poly, Half(a), Half(b));
    XorSwaps(poly, Half(a), Half(b));
  }

  lemma {:induction false} ShiftByIsLinear(poly: word, a: word, b: word, bits: nat)
    ensures ShiftBy(poly, Xor(a, b), bits) == Xor(ShiftBy(poly, a, bits), ShiftBy(poly, b, bits))
    decreases bits
  {
    hide Xor, Shift;
    if bits > 0 {
      ShiftIsLinear(poly, a, b);
      ShiftByIsLinear(poly, Shift(poly, a), Shift(poly, b), bits - 1);
    }
  }

  function Low(r: word): word { r & 0xFF }

  function DropByte(r: word): word { r >> 8 }

  function High(r: word): word { r & 0xFFFF_FF00 }

  /** The upper three bytes, shifted down until `bits` zero bits are left below them. */
  function Down(r: word, bits: nat): word
    requires bits <= 8
    decreases 8 - bits
  {
    if bits == 8 then High(r) else Half(Down(r, bits + 1))
  }

  lemma EvenTower(r: word)
    ensures !Odd(High(r))
    ensures !Odd(Half(High(r)))
    ensures !Odd(Half(Half(High(r))))
    ensures !Odd(Half(Half(Half(High(r)))))
    ensures !Odd(Half(Half(Half(Half(High(r))))))
    ensures !Odd(Half(Half(Half(Half(Half(High(r)))))))
    ensures !Odd(Half(Half(Half(Half(Half(Half(High(r))))))))
    ensures !Odd(Half(Half(Half(Half(Half(Half(Half(High(r)))))))))
  {
  }

  function By2(r: word): word { r >> 2 }

  function By4(r: word): word { r >> 4 }

  lemma Twice(r: word)
    ensures Half(Half(r)) == By2(r)
  {
    assert (r >> 1) >> 1 == r >> 2;
  }

  lemma FourTimes(r: word)
    ensures By2(By2(r)) == By4(r)
  {
    assert (r >> 2) >> 2 == r >> 4;
  }

  lemma EightTimes(r: word)
    ensures By4(By4(r)) == DropByte(r)
  {
    assert (r >> 4) >> 4 == r >> 8;
  }

  lemma HighDrops(r: word)
    ensures DropByte(High(r)) == DropByte(r)
  {
    assert (r & 0xFFFF_FF00) >> 8 == r >> 8;
  }

  lemma TowerEnds(r: word)
    ensures Half(Half(Half(Half(Half(Half(Half(Half(High(r))))))))) == DropByte(r)
  {
    hide *;
    var h := High(r);
    Twice(h);
    Twice(By2(h));
    Twice(By2(By2(h)));
    Twice(By2(By2(By2(h))));
    FourTimes(h);
    FourTimes(By4(h));
    EightTimes(h);
    HighDrops(r);
  }

  /** None of the eight bits below the upper three bytes is set. */
  lemma HighIsEven(r: word)
    ensures forall bits :: 0 < bits <= 8 ==> !Odd(Down(r, bits))
    ensures Down(r, 0) == DropByte(r)
  {
    hide Half, Odd, High, DropByte;
    EvenTower(r);
    TowerEnds(r);
    assert Down(r, 6) == Half(Half(High(r)));
    assert Down(r, 4) == Half(Half(Down(r, 6)));
    assert Down(r, 2) == Half(Half(Down(r, 4)));
    assert Down(r, 0) == Half(Half(Down(r, 2)));
  }

  lemma LowAndHigh(r: word)
    ensures r == Xor(Low(r), High(r))
  {
    assert r == (r & 0xFF) ^ (r & 0xFFFF_FF00);
  }

  lemma {:induction false} HighPart(poly: word, r: word, bits: nat)
    requires bits <= 8
    ensures ShiftBy(poly, Down(r, bits), bits) == Down(r, 0)
  {
    hide Odd, Half, High, Xor, DropByte;
    if bits > 0 {
      HighIsEven(r);
      HighPart(poly, r, bits - 1);
    }
  }

  /** Only the low byte has to be divided out. */
  lemma LowByteDecides(poly: word, r: word)
    ensures ShiftBy(poly, r, 8) == Xor(ShiftBy(poly, Low(r), 8), DropByte(r))
  {
    hide Low, High, Xor, ShiftBy, Half, Odd, DropByte;
    LowAndHigh(r);
    HighIsEven(r);
    ShiftByIsLinear(poly, Low(r), High(r), 8);
    HighPart(poly, r, 8);
  }

  // ---- the implementation ----

  predicate IsTable(poly: word, table: seq<word>) {
    |table| == 256 && forall i :: 0 <= i < 256 ==> table[i] == ShiftBy(poly, i as word, 8)
  }

  method MakeTable(poly: word) returns (filled: seq<word>)
    ensures IsTable(poly, filled)
  {
    hide Xor, Half, Odd;
    var table := new word[256](_ => 0);
    for i := 0 to 256
      invariant forall k :: 0 <= k < i ==> table[k] == ShiftBy(poly, k as word, 8)
    {
      var c := i as word;
      for j := 0 to 8
        invariant ShiftBy(poly, c, 8 - j) == ShiftBy(poly, i as word, 8)
      {
        c := if Odd(c) then Xor(poly, Half(c)) else Half(c);
      }
      table[i] := c;
    }
    filled := table[..];
  }

  /** The running check value, one table look-up a byte. */
  method TableUpdate(poly: word, table: seq<word>, crc: word, data: bytes) returns (r: word)
    requires IsTable(poly, table)
    ensures r == Update(poly, crc, data)
  {
    hide Xor, ShiftBy, Not, Low, DropByte;
    r := Not(crc);
    for i := 0 to |data|
      invariant Register(poly, r, data[i..]) == Register(poly, Not(crc), data)
    {
      var x := Xor(r, data[i] as word);
      LowByteDecides(poly, x);
      LowIndex(x);
      assert data[i..][1..] == data[i + 1..];
      HighByteOf(r, data[i]);
      r := Xor(table[Low(x) as int], DropByte(r));
    }
    r := Not(r);
  }

  lemma LowIndex(x: word)
    ensures Low(x) as int < 256 && (Low(x) as int) as word == Low(x)
  {
  }

  /** Adding a byte leaves the upper three alone. */
  lemma HighByteOf(r: word, b: byte)
    ensures DropByte(Xor(r, b as word)) == DropByte(r)
  {
    SmallWord(b);
    assert (b as word) >> 8 == 0;
  }

  lemma SmallWord(b: byte)
    ensures (b as word) < 256
  {
  }

  // ---- check values as the numbers that are stored ----

  function Number(crc: word): (v: nat)
    ensures v < U32
  {
    crc as nat
  }

  function Crc32(data: bytes): (v: nat)
    ensures v < U32
  {
    Number(Check(CRC32, data))
  }

  /** The CRC-32 of two pieces, computed one after the other as the C code does. */
  function Crc32Of2(a: bytes, b: bytes): (v: nat)
    ensures v < U32
  {
    Number(Update(CRC32, Check(CRC32, a), b))
  }

  lemma Crc32InPieces(a: bytes, b: bytes)
    ensures Crc32Of2(a, b) == Crc32(a + b)
  {
    hide Update, Number;
    UpdateComposes(CRC32, 0, a, b);
  }

  function Crc32c(data: bytes): (v: nat)
    ensures v < U32
  {
    Number(Check(CRC32C, data))
  }

  /** The CRC-32C of three pieces, computed one after the other as the C code does. */
  function Crc32cOf3(a: bytes, b: bytes, c: bytes): (v: nat)
    ensures v < U32
  {
    Number(Update(CRC32C, Update(CRC32C, Check(CRC32C, a), b), c))
  }

  lemma Crc32cInPieces(a: bytes, b: bytes, c: bytes)
    ensures Crc32cOf3(a, b, c) == Crc32c(a + b + c)
  {
    hide Update, Number;
    UpdateComposes(CRC32C, 0, a, b);
    UpdateComposes(CRC32C, 0, a + b, c);
  }
}
