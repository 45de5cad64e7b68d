/** A bitmap with two levels of summary words above it. */
module Bitmap {
  import opened Optional

  const WORD: nat := 64

  /** A machine word, as the set of the positions of its ones. */
  type Word = w: set<nat> | forall b :: b in w ==> b < WORD

  function Words(bits: nat): nat {
    (bits + WORD - 1) / WORD
  }

  predicate Has(words: seq<Word>, bit: nat) {
    bit / WORD < |words| && bit % WORD in words[bit / WORD]
  }

  /** Every bit of `parent` tells whether the word below it is nonzero. */
  ghost predicate Summary(parent: seq<Word>, child: seq<Word>) {
    forall i: nat :: Has(parent, i) <==> i < |child| && child[i] != {}
  }

  ghost predicate Within(words: seq<Word>, capacity: nat) {
    forall b: nat :: Has(words, b) ==> b < capacity
  }

  ghost predicate Consistent(l0: seq<Word>, l1: seq<Word>, l2: seq<Word>, capacity: nat) {
    && |l0| == Words(capacity) && |l1| == Words(|l0|) && |l2| == Words(|l1|)
    && Within(l0, capacity) && Summary(l1, l0) && Summary(l2, l1)
  }

  function BitsOf(words: seq<Word>, capacity: nat): set<nat> {
    set b: nat | b < capacity && Has(words, b)
  }

  /** `r` is the least element of `s` that is not below `from`. */
  ghost predicate LeastFrom(s: set<nat>, from: nat, r: Option<nat>) {
    match r
    case None => forall b :: b in s ==> b < from
    case Some(bit) => bit in s && from <= bit && forall b :: b in s && from <= b ==> bit <= b
  }

  /** `r` is the lowest one of a word that starts at bit `base`, unless it lies beyond the capacity. */
  ghost predicate Scans(word: Word, base: nat, capacity: nat, r: Option<nat>) {
    match r
    case None => forall k :: k in word ==> capacity <= base + k
    case Some(bit) => base <= bit < capacity && bit - base in word && forall k :: k in word ==> bit <= base + k
  }

  /** The number of zeros below the lowest one. */
  function TrailingZeros(w: Word): (b: nat)
    requires w != {}
    ensures b in w && forall c :: c in w ==> b <= c
  {
    LowestFrom(w, 0)
  }

  function LowestFrom(w: Word, k: nat): (b: nat)
    requires w != {} && forall c :: c in w ==> k <= c
    ensures b in w && forall c :: c in w ==> b <= c
    decreases WORD - k
  {
    if k in w then k
    else
      assert exists c :: c in w && k < c;
      LowestFrom(w, k + 1)
  }

  class Bitmap {
    const capacity: nat
    const l0: array<Word>
    const l1: array<Word>
    const l2: array<Word>

    ghost predicate Valid()
      reads l0, l1, l2
    {
      capacity > 0 && l0 != l1 && l1 != l2 && l0 != l2 && Consistent(l0[..], l1[..], l2[..], capacity)
    }

    ghost function Bits(): set<nat>
      reads l0
    {
      BitsOf(l0[..], capacity)
    }

    constructor (bits: nat)
      requires bits > 0
      ensures Valid() && Bits() == {} && capacity == bits && fresh(l0) && fresh(l1) && fresh(l2)
    {
      capacity := bits;
      l0 := new Word[Words(bits)](_ => {});
      l1 := new Word[Words(Words(bits))](_ => {});
      l2 := new Word[Words(Words(Words(bits)))](_ => {});
    }

    /** Brings both summaries up to date with word `word` of the lowest level. */
    method UpdateParents(word: nat)
      requires word < l0.Length && l1.Length == Words(l0.Length) && l2.Length == Words(l1.Length)
      requires l0 != l1 && l1 != l2 && l0 != l2
      modifies l1, l2
      ensures l1[..] == old(Flagged(l1[..], word, l0[word] != {}))
      ensures l2[..] == Flagged(old(l2[..]), word / WORD, l1[word / WORD] != {})
    {
      var i := word / WORD;
      if l0[word] != {} {
        l1[i] := l1[i] + {word % WORD};
      } else {
        l1[i] := l1[i] - {word % WORD};
      }
      if l1[i] != {} {
        l2[i / WORD] := l2[i / WORD] + {i % WORD};
      } else {
        l2[i / WORD] := l2[i / WORD] - {i % WORD};
      }
    }

    method Set(bit: nat) returns (changed: bool)
      requires Valid()
      modifies l0, l1, l2
      ensures Valid() && changed == (bit < capacity && bit !in old(Bits()))
      ensures Bits() == if bit < capacity then old(Bits()) + {bit} else old(Bits())
    {
      if bit >= capacity || bit % WORD in l0[bit / WORD] {
        return false;
      }
      l0[bit / WORD] := l0[bit / WORD] + {bit % WORD};
      UpdateParents(bit / WORD);
      BitChanged(old(l0[..]), old(l1[..]), old(l2[..]), capacity, bit, true, l0[..], l1[..], l2[..]);
      changed := true;
    }

    method Clear(bit: nat) returns (changed: bool)
      requires Valid()
      modifies l0, l1, l2
      ensures Valid() && changed == (bit in old(Bits()))
      ensures Bits() == old(Bits()) - {bit}
    {
      if bit >= capacity || bit % WORD !in l0[bit / WORD] {
        return false;
      }
      l0[bit / WORD] := l0[bit / WORD] - {bit % WORD};
      UpdateParents(bit / WORD);
      BitChanged(old(l0[..]), old(l1[..]), old(l2[..]), capacity, bit, false, l0[..], l1[..], l2[..]);
      changed := true;
    }

    method Test(bit: nat) returns (r: bool)
      requires Valid()
      ensures r == (bit in Bits())
    {
      if bit >= capacity {
        return false;
      }
      r := bit % WORD in l0[bit / WORD];
    }

    static method ScanWord(word: Word, base: nat, capacity: nat) returns (r: Option<nat>)
      ensures Scans(word, base, capacity, r)
    {
      if word == {} {
        return None;
      }
      var bit := base + TrailingZeros(word);
      if bit >= capacity {
        return None;
      }
      r := Some(bit);
    }

    method FindFirst() returns (r: Option<nat>)
      requires Valid()
      ensures LeastFrom(Bits(), 0, r)
    {
      var i := 0;
      while i < l0.Length
        invariant i <= l0.Length && forall b :: b in Bits() ==> i * WORD <= b
      {
        var j := i / WORD;
        if j % WORD in l2[j / WORD] && i % WORD in l1[j] {
          r := ScanWord(l0[i], i * WORD, capacity);
          Scanned(l0[..], i, capacity, l0[i], 0, r);
          if r.Some? {
            return;
          }
        } else {
          NothingBelow(l0[..], l1[..], l2[..], capacity, i);
        }
        i := i + 1;
      }
      r := None;
    }

    method FindNext(after: nat) returns (r: Option<nat>)
      requires Valid()
      ensures LeastFrom(Bits(), after + 1, r)
    {
      if after >= capacity - 1 {
        return None;
      }
      var start := after + 1;
      var i := start / WORD;
      var word: Word := set b | b in l0[i] && start % WORD <= b;
      r := ScanWord(word, i * WORD, capacity);
      Scanned(l0[..], i, capacity, word, start % WORD, r);
      if r.Some? {
        return;
      }
      i := i + 1;
      while i < l0.Length
        invariant i <= l0.Length && start <= i * WORD
        invariant forall b :: b in Bits() && start <= b ==> i * WORD <= b
      {
        r := ScanWord(l0[i], i * WORD, capacity);
        Scanned(l0[..], i, capacity, l0[i], 0, r);
        if r.Some? {
          return;
        }
        i := i + 1;
      }
      r := None;
    }
  }

  // ---- words and their summaries ----

  /** Bit `bit` of a row of words set or cleared. */
  function Flagged(words: seq<Word>, bit: nat, on: bool): (r: seq<Word>)
    requires bit / WORD < |words|
    ensures |r| == |words|
    ensures forall b: nat :: Has(r, b) == if b == bit then on else Has(words, b)
  {
    var w := words[bit / WORD];
    words[bit / WORD := if on then w + {bit % WORD} else w - {bit % WORD}]
  }

  lemma BitChanged(l0: seq<Word>, l1: seq<Word>, l2: seq<Word>, capacity: nat, bit: nat, on: bool,
                   m0: seq<Word>, m1: seq<Word>, m2: seq<Word>)
    requires Consistent(l0, l1, l2, capacity) && bit < capacity
    requires m0 == Flagged(l0, bit, on) && m1 == Flagged(l1, bit / WORD, m0[bit / WORD] != {})
    requires m2 == Flagged(l2, bit / WORD / WORD, m1[bit / WORD / WORD] != {})
    ensures Consistent(m0, m1, m2, capacity)
    ensures BitsOf(m0, capacity) == if on then BitsOf(l0, capacity) + {bit} else BitsOf(l0, capacity) - {bit}
  {
    hide Has;
    assert Summary(m1, m0) by { SummaryKept(l1, l0, m0, bit / WORD); }
    assert Summary(m2, m1) by { SummaryKept(l2, l1, m1, bit / WORD / WORD); }
  }

  /** A summary stays one when a word and the bit above it change together. */
  lemma SummaryKept(parent: seq<Word>, child: seq<Word>, child': seq<Word>, i: nat)
    requires Summary(parent, child) && |child'| == |child| && i < |child| && i / WORD < |parent|
    requires forall j :: 0 <= j < |child| && j != i ==> child'[j] == child[j]
    ensures Summary(Flagged(parent, i, child'[i] != {}), child')
  {
    hide Has;
  }

  /** Where a summary bit is clear there is nothing below. */
  lemma NothingBelow(l0: seq<Word>, l1: seq<Word>, l2: seq<Word>, capacity: nat, i: nat)
    requires Consistent(l0, l1, l2, capacity) && i < |l0| && (!Has(l1, i) || !Has(l2, i / WORD))
    ensures l0[i] == {}
  {
    assert l1[i / WORD] == {} ==> !Has(l1, i);
  }

  /** What scanning one word from position `low` on says about all bits. */
  lemma Scanned(l0: seq<Word>, i: nat, capacity: nat, word: Word, low: nat, r: Option<nat>)
    requires i < |l0| && low < WORD && word == set b | b in l0[i] && low <= b
    requires Scans(word, i * WORD, capacity, r)
    ensures r.None? ==> forall b :: b in BitsOf(l0, capacity) && i * WORD + low <= b ==> (i + 1) * WORD <= b
    ensures r.Some? ==> LeastFrom(BitsOf(l0, capacity), i * WORD + low, r)
  {
    forall b | b in BitsOf(l0, capacity) && i * WORD + low <= b
      ensures b < (i + 1) * WORD ==> b - i * WORD in word
    {
      if b < (i + 1) * WORD {
        assert b / WORD == i;
      }
    }
    if r.Some? {
      assert r.value / WORD == i && r.value % WORD == r.value - i * WORD;
      assert Has(l0, r.value);
    }
  }

  /** The words of all three levels are determined by the bits: what is set and cleared again leaves no trace. */
  lemma Canonical(l0: seq<Word>, l1: seq<Word>, l2: seq<Word>, m0: seq<Word>, m1: seq<Word>, m2: seq<Word>, capacity: nat)
    requires Consistent(l0, l1, l2, capacity) && Consistent(m0, m1, m2, capacity)
    requires BitsOf(l0, capacity) == BitsOf(m0, capacity)
    ensures l0 == m0 && l1 == m1 && l2 == m2
  {
    forall b: nat
      ensures Has(l0, b) == Has(m0, b)
    {
      assert b in BitsOf(l0, capacity) <==> b in BitsOf(m0, capacity);
    }
    SameWords(l0, m0);
    SameWords(l1, m1);
    SameWords(l2, m2);
  }

  lemma SameWords(a: seq<Word>, b: seq<Word>)
    requires |a| == |b| && forall i: nat :: Has(a, i) == Has(b, i)
    ensures a == b
  {
    forall i | 0 <= i < |a|
      ensures a[i] == b[i]
    {
      forall k: nat | k < WORD
        ensures k in a[i] <==> k in b[i]
      {
        assert (i * WORD + k) / WORD == i && (i * WORD + k) % WORD == k;
        assert Has(a, i * WORD + k) == Has(b, i * WORD + k);
      }
    }
  }
}
