/** The bit operations that `Bitfield` uses on its 32-bit words, and what they
    mean for the single bits. Bit positions are words themselves here. */
module BitWords {

  function And(a: bv32, b: bv32): bv32 { a & b }

  function Or(a: bv32, b: bv32): bv32 { a | b }

  function Not(a: bv32): bv32 { !a }

  function One(k: bv32): bv32
    requires k < 32
  {
    1 << k
  }

  /** The mask of all bits from one on. */
  function From(k: bv32): bv32
    requires k < 32
  {
    Not(One(k) - 1)
  }

  predicate Has(w: bv32, k: bv32)
    requires k < 32
  {
    And(w, One(k)) != 0
  }

  function With(w: bv32, k: bv32): bv32
    requires k < 32
  {
    Or(w, One(k))
  }

  function Less(w: bv32, k: bv32): bv32
    requires k < 32
  {
    And(w, Not(One(k)))
  }

  /** No bit is left from one on. */
  predicate NoneFrom(w: bv32, k: bv32)
    requires k < 32
  {
    And(w, From(k)) == 0
  }

  // ---- masks ----

  lemma OneIsSome(k: bv32)
    requires k < 32
    ensures One(k) != 0
  {
  }

  lemma OrMasked(w: bv32, k: bv32, j: bv32)
    requires k < 32 && j < 32
    ensures (w | (1 << k)) & (1 << j) == if j == k then 1 << j else w & (1 << j)
  {
  }

  lemma WithMasked(w: bv32, k: bv32, j: bv32)
    requires k < 32 && j < 32
    ensures And(With(w, k), One(j)) == if j == k then One(j) else And(w, One(j))
  {
    OrMasked(w, k, j);
  }

  lemma OthersKept(k: bv32, j: bv32)
    requires k < 32 && j < 32 && j != k
    ensures And(Not(One(k)), One(j)) == One(j)
  {
  }

  lemma AndNotSelf(w: bv32, a: bv32)
    ensures And(And(w, Not(a)), a) == 0
  {
  }

  lemma AndAssociates(w: bv32, a: bv32, b: bv32)
    ensures And(And(w, a), b) == And(w, And(a, b))
  {
  }

  lemma FromSplits(w: bv32, k: bv32)
    requires k < 31
    ensures And(w, From(k)) == Or(And(w, One(k)), And(w, From(k + 1)))
  {
  }

  lemma FromLast()
    ensures From(31) == One(31)
  {
  }

  lemma OrZero(a: bv32, b: bv32)
    ensures Or(a, b) == 0 ==> a == 0 && b == 0
    ensures a == 0 && b == 0 ==> Or(a, b) == 0
  {
  }

  // ---- single bits ----

  lemma WithHas(w: bv32, k: bv32, j: bv32)
    requires k < 32 && j < 32
    ensures Has(With(w, k), j) <==> j == k || Has(w, j)
  {
    hide One, With, And;
    WithMasked(w, k, j);
    OneIsSome(j);
  }

  lemma LessHas(w: bv32, k: bv32, j: bv32)
    requires k < 32 && j < 32
    ensures Has(Less(w, k), j) <==> j != k && Has(w, j)
  {
    hide One, And, Not;
    AndNotSelf(w, One(k));
    AndAssociates(w, Not(One(k)), One(j));
    if j != k { OthersKept(k, j); }
  }

  /** The mask test, one bit at a time. */
  lemma NoneFromSplits(w: bv32, k: bv32)
    requires k < 32
    ensures NoneFrom(w, k) <==> !Has(w, k) && (k == 31 || NoneFrom(w, k + 1))
  {
    hide One, From, And, Or;
    if k == 31 {
      FromLast();
    } else {
      FromSplits(w, k);
      OrZero(And(w, One(k)), And(w, From(k + 1)));
    }
  }
}
