/** Class `Bitfield`: a set of 32-bit indices in a vector of words, with an
    iterator that skips words without further bits. Indices are split by division
    where the source shifts by five and masks with 0x1f. */
module Bitfield {
  import opened BitWords

  /** One more than the largest index and count. */
  const LIMIT: nat := 0x1_0000_0000

  /** More words than this have an end that no index can hold. */
  const MAX_WORDS: nat := 0x7ff_ffff

  // ---- words ----

  /** A bit position as a word. */
  function Shift(k: nat): (r: bv32)
    requires k < 32
    ensures r < 32 && r as int == k
  {
    assert k % LIMIT == k;
    k as bv32
  }

  predicate Bit(w: bv32, k: nat)
    requires k < 32
  {
    Has(w, Shift(k))
  }

  lemma ShiftDiffers(k: nat, j: nat)
    requires k < 32 && j < 32
    ensures Shift(k) == Shift(j) <==> k == j
  {
  }

  lemma ShiftNext(k: nat)
    requires k < 32
    ensures if k == 31 then Shift(k) == 31 else Shift(k) != 31 && Shift(k + 1) == Shift(k) + 1
  {
  }

  lemma BitUpdated(w: bv32, k: nat, j: nat)
    requires k < 32 && j < 32
    ensures Bit(With(w, Shift(k)), j) <==> j == k || Bit(w, j)
    ensures Bit(Less(w, Shift(k)), j) <==> j != k && Bit(w, j)
  {
    hide Has, With, Less, Shift;
    WithHas(w, Shift(k), Shift(j));
    LessHas(w, Shift(k), Shift(j));
    ShiftDiffers(k, j);
  }

  /** The mask test of the iterator asks whether any bit is left in the word. */
  lemma {:induction false} BitsLeft(w: bv32, k: nat)
    requires k < 32
    ensures NoneFrom(w, Shift(k)) <==> forall j | k <= j < 32 :: !Bit(w, j)
    decreases 32 - k
  {
    hide NoneFrom, Has, Shift;
    NoneFromSplits(w, Shift(k));
    ShiftNext(k);
    assert Bit(w, k) == Has(w, Shift(k));
    if k < 31 { BitsLeft(w, k + 1); }
  }

  // ---- vectors of words ----

  predicate BitAt(bits: seq<bv32>, i: nat) { i / 32 < |bits| && Bit(bits[i / 32], i % 32) }

  ghost function MembersOf(bits: seq<bv32>): set<nat> { set i | 0 <= i < 32 * |bits| && BitAt(bits, i) }

  lemma MembersBits(bits: seq<bv32>, i: nat)
    ensures i in MembersOf(bits) <==> BitAt(bits, i)
    ensures BitAt(bits, i) ==> i < 32 * |bits|
  {
  }

  function Resized(bits: seq<bv32>, size: nat): (r: seq<bv32>)
    ensures |r| == if size <= |bits| then |bits| else size
  {
    if size <= |bits| then bits else bits + seq(size - |bits|, _ => 0)
  }

  lemma ResizedBits(bits: seq<bv32>, size: nat, j: nat)
    ensures BitAt(Resized(bits, size), j) <==> BitAt(bits, j)
  {
  }

  lemma WordUpdated(bits: seq<bv32>, i: nat, j: nat)
    requires i / 32 < |bits|
    ensures
      var w, k := bits[i / 32], i % 32;
      && (BitAt(bits[i / 32 := With(w, Shift(k))], j) <==> j == i || BitAt(bits, j))
      && (BitAt(bits[i / 32 := Less(w, Shift(k))], j) <==> j != i && BitAt(bits, j))
  {
    hide Bit, With, Less, Shift;
    if j / 32 == i / 32 { BitUpdated(bits[i / 32], i % 32, j % 32); }
  }

  lemma {:induction false} SizeBelow(s: set<nat>, n: nat)
    requires forall i | i in s :: i < n
    ensures |s| <= n
    decreases n
  {
    if n == 0 {
      assert s == {};
    } else {
      SizeBelow(s - {n - 1}, n - 1);
    }
  }

  class Bitfield {
    var bits: seq<bv32>
    var numSetBits: nat

    ghost function Members(): set<nat> reads this`bits { MembersOf(bits) }

    /** The count is exact up to the width of its type. */
    ghost predicate Valid()
      reads this
    {
      |bits| <= MAX_WORDS + 1 && numSetBits == |Members()| % LIMIT
    }

    constructor ()
      ensures Valid() && Members() == {}
    {
      bits, numSetBits := [], 0;
    }

    /** `GetNumSetBits` is the number of elements, unless every index there is is set. */
    lemma CountIsExact()
      requires Valid()
      ensures |bits| <= MAX_WORDS ==> numSetBits == |Members()|
      ensures numSetBits == |Members()| || |Members()| == LIMIT
    {
      SizeBelow(Members(), 32 * |bits|);
    }

    predicate IsSet(i: nat)
      reads this`bits
      ensures IsSet(i) <==> i in Members()
    {
      MembersBits(bits, i);
      i / 32 < |bits| && Has(bits[i / 32], Shift(i % 32))
    }

    method Set(i: nat)
      requires Valid() && i < LIMIT
      modifies this
      ensures Valid() && Members() == old(Members()) + {i}
      ensures |bits| == if i / 32 < old(|bits|) then old(|bits|) else i / 32 + 1
    {
      hide BitAt, With, Less, Has, Shift, MembersOf, Resized;
      if !IsSet(i) {
        var newSize := i / 32 + 1;
        if newSize > |bits| { bits := Resized(bits, newSize); }
        ghost var before := bits;
        bits := bits[i / 32 := With(bits[i / 32], Shift(i % 32))];
        numSetBits := (numSetBits + 1) % LIMIT;
        forall j: nat ensures j in Members() <==> j in old(Members()) + {i} {
          MembersBits(bits, j);
          MembersBits(old(bits), j);
          ResizedBits(old(bits), newSize, j);
          WordUpdated(before, i, j);
        }
        assert Members() == old(Members()) + {i};
      }
    }

    method Clear(i: nat)
      requires Valid() && i < LIMIT
      modifies this
      ensures Valid() && Members() == old(Members()) - {i} && |bits| == old(|bits|)
    {
      hide BitAt, With, Less, Has, Shift, MembersOf, Resized;
      if IsSet(i) {
        bits := bits[i / 32 := Less(bits[i / 32], Shift(i % 32))];
        numSetBits := (numSetBits + LIMIT - 1) % LIMIT;
        forall j: nat ensures j in Members() <==> j in old(Members()) - {i} {
          MembersBits(bits, j);
          MembersBits(old(bits), j);
          WordUpdated(old(bits), i, j);
        }
        assert Members() == old(Members()) - {i};
      }
    }
  }

  // ---- iteration ----

  /** The smallest index from one on that a vector has, or else the end of the vector. */
  ghost predicate IsNext(bits: seq<bv32>, from: nat, i: nat) {
    && from <= i && (forall j | from <= j < i :: !BitAt(bits, j))
    && (if i < 32 * |bits| then BitAt(bits, i) else i == from || i == 32 * |bits|)
  }

  lemma NextIsUnique(bits: seq<bv32>, from: nat, i: nat, j: nat)
    requires IsNext(bits, from, i) && IsNext(bits, from, j) && from <= 32 * |bits|
    ensures i == j
  {
    hide BitAt;
  }

  /** Behind the index there is something to find, or else an end that the index can reach. */
  ghost predicate Reachable(bits: seq<bv32>, idx: nat) {
    |bits| <= MAX_WORDS || exists j: nat :: idx < j && BitAt(bits, j)
  }

  class Iterator {
    const bitfield: Bitfield
    var idx: nat

    /** A begin iterator moves to the first set bit. */
    constructor (bitfield: Bitfield, idx: nat)
      requires |bitfield.bits| <= MAX_WORDS + 1 && idx <= 32 * MAX_WORDS
      requires idx == 0 && 0 !in bitfield.Members() ==> Reachable(bitfield.bits, 0)
      ensures this.bitfield == bitfield
      ensures if idx == 0 && 0 !in bitfield.Members() then IsNext(bitfield.bits, 1, this.idx) else this.idx == idx
    {
      this.bitfield, this.idx := bitfield, idx;
      new;
      if idx == 0 && !bitfield.IsSet(0) { NextSetBit(); }
    }

    /** `operator++`. */
    method NextSetBit()
      requires |bitfield.bits| <= MAX_WORDS + 1 && idx <= 32 * MAX_WORDS && Reachable(bitfield.bits, idx)
      modifies this
      ensures IsNext(bitfield.bits, old(idx) + 1, idx)
    {
      hide BitAt, NoneFrom, Has, Shift;
      var bits := bitfield.bits;
      idx := idx + 1;
      while idx / 32 < |bits|
        invariant old(idx) < idx && (idx == old(idx) + 1 || idx <= 32 * |bits|)
        invariant forall j | old(idx) < j < idx :: !BitAt(bits, j)
        decreases 32 * |bits| + 1 - idx
      {
        var w, k := bits[idx / 32], idx % 32;
        WordTest(bits, idx);
        if NoneFrom(w, Shift(k)) {
          idx := idx - k + 31;
        } else if Has(w, Shift(k)) {
          return;
        }
        idx := idx + 1;
      }
    }
  }

  /** What the two tests on a word say about the vector. */
  lemma WordTest(bits: seq<bv32>, i: nat)
    requires i / 32 < |bits|
    ensures NoneFrom(bits[i / 32], Shift(i % 32)) ==> forall j | i <= j < i - i % 32 + 32 :: !BitAt(bits, j)
    ensures Has(bits[i / 32], Shift(i % 32)) <==> BitAt(bits, i)
  {
    hide NoneFrom, Has, Shift;
    BitsLeft(bits[i / 32], i % 32);
    if NoneFrom(bits[i / 32], Shift(i % 32)) {
      forall j | i <= j < i - i % 32 + 32 ensures !BitAt(bits, j) {
        assert j / 32 == i / 32 && j % 32 >= i % 32;
      }
    }
  }

  /** The index of `End`: the shift may lose its highest bit. */
  function EndIndex(words: nat): (i: nat)
    requires words <= MAX_WORDS + 1
    ensures i == 32 * words <==> words <= MAX_WORDS
  {
    32 * words % LIMIT
  }

  /** A loop over all set bits, from `Begin` to `End`: each index once, in increasing
      order, exactly if no index from 2^32 - 32 on was ever set; otherwise nothing is
      visited, or, without any set bit, the search for the first would not end. */
  method Visit(b: Bitfield) returns (visited: seq<nat>)
    requires |b.bits| <= MAX_WORDS + 1 && (|b.bits| <= MAX_WORDS || b.Members() != {})
    ensures |b.bits| <= MAX_WORDS ==> forall i, j | 0 <= i < j < |visited| :: visited[i] < visited[j]
    ensures |b.bits| <= MAX_WORDS ==> forall i: nat :: i in visited <==> i in b.Members()
    ensures |b.bits| > MAX_WORDS ==> visited == []
  {
    hide BitAt, MembersOf, IsNext;
    forall i: nat
      ensures (i in b.Members() <==> BitAt(b.bits, i)) && (BitAt(b.bits, i) ==> i < 32 * |b.bits|)
    {
      MembersBits(b.bits, i);
    }
    if b.Members() != {} { var i :| i in b.Members(); assert BitAt(b.bits, i); }
    visited := [];
    var it := new Iterator(b, 0);
    var end := new Iterator(b, EndIndex(|b.bits|));
    Ends(b, it.idx, end.idx);
    while it.idx != end.idx
      invariant it.bitfield == b && fresh(it) && it.idx <= end.idx
      invariant it.idx != end.idx ==> end.idx == 32 * |b.bits| && |b.bits| <= MAX_WORDS && BitAt(b.bits, it.idx)
      invariant if |b.bits| > MAX_WORDS then visited == [] else end.idx == 32 * |b.bits| || b.Members() == {}
      invariant forall i, j | 0 <= i < j < |visited| :: visited[i] < visited[j]
      invariant forall i | 0 <= i < |visited| :: visited[i] < it.idx
      invariant |b.bits| <= MAX_WORDS ==> forall i: nat :: i in visited <==> i < it.idx && BitAt(b.bits, i)
      decreases end.idx - it.idx
    {
      visited := visited + [it.idx];
      it.NextSetBit();
      Advance(b.bits, visited[|visited| - 1], it.idx);
    }
  }

  /** Where the two iterators start. */
  lemma Ends(b: Bitfield, first: nat, last: nat)
    requires |b.bits| <= MAX_WORDS + 1 && (|b.bits| <= MAX_WORDS || b.Members() != {})
    requires if 0 !in b.Members() then IsNext(b.bits, 1, first) else first == 0
    requires
      if EndIndex(|b.bits|) == 0 && 0 !in b.Members() then IsNext(b.bits, 1, last)
      else last == EndIndex(|b.bits|)
    ensures |b.bits| > MAX_WORDS ==> first == last
    ensures |b.bits| <= MAX_WORDS ==> first <= last && forall i: nat | i < first :: !BitAt(b.bits, i)
    ensures first != last ==> last == 32 * |b.bits| && BitAt(b.bits, first)
    ensures first == last ==> |b.bits| > MAX_WORDS || b.Members() == {}
  {
    hide BitAt;
    forall i: nat ensures i in b.Members() <==> BitAt(b.bits, i) { MembersBits(b.bits, i); }
    MembersBits(b.bits, 0);
    if EndIndex(|b.bits|) == 0 && 0 !in b.Members() && |b.bits| > 0 { NextIsUnique(b.bits, 1, first, last); }
  }

  lemma Advance(bits: seq<bv32>, i: nat, next: nat)
    requires i < 32 * |bits| && IsNext(bits, i + 1, next)
    ensures i < next <= 32 * |bits| && (next != 32 * |bits| ==> BitAt(bits, next))
    ensures forall j | i < j < next :: !BitAt(bits, j)
  {
    hide BitAt;
  }
}
