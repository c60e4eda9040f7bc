/** `Value::operator<`, `operator==` and `compare`, and the order of object keys.

    Containers are compared by size first, then lexicographically entry by
    entry; the entries of an object are (key, value) pairs in key order. */
module JsonOrder {
  import opened JsonValue

  /** `memcmp` of the first `n` bytes. */
  function MemCmp(s: string, t: string, n: nat): int
    requires n <= |s| && n <= |t|
  {
    if n == 0 then 0
    else if s[0] != t[0] then s[0] as int - t[0] as int
    else MemCmp(s[1..], t[1..], n - 1)
  }

  /** `CZString::operator<`; the string case of `Value::operator<` is the same code. */
  predicate KeyLess(s: string, t: string) {
    var minLen := if |s| < |t| then |s| else |t|;
    var comp := MemCmp(s, t, minLen);
    if comp < 0 then true
    else if comp > 0 then false
    else |s| < |t|
  }

  /** A `std::map` keyed by CZString iterates over strictly increasing keys. */
  predicate SortedKeys(m: seq<Member>) {
    forall i, j | 0 <= i < j < |m| :: KeyLess(m[i].name, m[j].name)
  }

  /** Every object in the tree can be the contents of a map, and no container
      holds more entries than a positive `int` can count. */
  predicate WellFormed(v: Value) {
    match v
    case Arr(e) => |e| <= MAX_INT && forall i | 0 <= i < |e| :: WellFormed(e[i])
    case Obj(m) => |m| <= MAX_INT && SortedKeys(m) && forall i | 0 <= i < |m| :: WellFormed(m[i].value)
    case _ => true
  }

  /** The number of the value's type in `enum ValueType`. */
  function TypeOf(v: Value): int {
    match v
    case Null => 0
    case Int(_) => 1
    case UInt(_) => 2
    case Real(_) => 3
    case Str(_) => 4
    case Bool(_) => 5
    case Arr(_) => 6
    case Obj(_) => 7
  }

  /** `int(a - b)` where `a` and `b` are 64-bit `size_t`: the difference wraps
      and is then cut down to a signed 32-bit number. */
  function SizeDelta(a: nat, b: nat): int {
    var low := (a - b) % 0x1_0000_0000;
    if low <= MAX_INT then low else low - 0x1_0000_0000
  }

  /** `Value::operator<`. The order of doubles is taken to be an arbitrary
      comparison of their tokens; the theorems below exclude doubles. */
  predicate Less(a: Value, b: Value)
    decreases Size(a) + Size(b), 0
  {
    if TypeOf(a) != TypeOf(b) then TypeOf(a) < TypeOf(b)
    else match a
      case Null => false
      case Int(i) => i < b.i
      case UInt(u) => u < b.u
      case Real(t) => KeyLess(t, b.token)
      case Str(s) => KeyLess(s, b.s)
      case Bool(x) => !x && b.b
      case Arr(e) =>
        var delta := SizeDelta(|e|, |b.elems|);
        if delta != 0 then delta < 0 else ElemsLess(e, b.elems)
      case Obj(m) =>
        var delta := SizeDelta(|m|, |b.members|);
        if delta != 0 then delta < 0 else MembersLess(m, b.members)
  }

  /** `std::lexicographical_compare` on array entries; the index keys agree. */
  predicate ElemsLess(a: seq<Value>, b: seq<Value>)
    decreases SizeElems(a) + SizeElems(b)
  {
    if b == [] then false
    else if a == [] then true
    else if Less(a[0], b[0]) then true
    else if Less(b[0], a[0]) then false
    else ElemsLess(a[1..], b[1..])
  }

  /** `operator<` of `std::pair<const CZString, Value>`. */
  predicate PairLess(a: Member, b: Member)
    decreases Size(a.value) + Size(b.value), 1
  {
    KeyLess(a.name, b.name) || (!KeyLess(b.name, a.name) && Less(a.value, b.value))
  }

  predicate MembersLess(a: seq<Member>, b: seq<Member>)
    decreases SizeMembers(a) + SizeMembers(b)
  {
    if b == [] then false
    else if a == [] then true
    else if PairLess(a[0], b[0]) then true
    else if PairLess(b[0], a[0]) then false
    else MembersLess(a[1..], b[1..])
  }

  /** `Value::compare`. */
  function Compare(a: Value, b: Value): int {
    if Less(a, b) then -1 else if Less(b, a) then 1 else 0
  }

  /** `Value::operator==`. */
  predicate Equal(a: Value, b: Value) {
    if TypeOf(a) != TypeOf(b) then false
    else match a
      case Null => true
      case Int(i) => i == b.i
      case UInt(u) => u == b.u
      case Real(t) => t == b.token
      case Str(s) => s == b.s
      case Bool(x) => x == b.b
      case Arr(e) => |e| == |b.elems| && forall i | 0 <= i < |e| :: Equal(e[i], b.elems[i])
      case Obj(m) =>
        && |m| == |b.members|
        && forall i | 0 <= i < |m| :: m[i].name == b.members[i].name && Equal(m[i].value, b.members[i].value)
  }

  // ---- keys ----

  lemma {:induction false} KeyTrichotomy(s: string, t: string)
    ensures (KeyLess(s, t) || KeyLess(t, s)) <==> s != t
    ensures !(KeyLess(s, t) && KeyLess(t, s))
  {
    if s != [] && t != [] && s[0] == t[0] {
      KeyTail(s, t);
      KeyTail(t, s);
      KeyTrichotomy(s[1..], t[1..]);
      assert s == [s[0]] + s[1..] && t == [t[0]] + t[1..];
    }
  }

  lemma KeyTail(s: string, t: string)
    requires s != [] && t != [] && s[0] == t[0]
    ensures KeyLess(s, t) == KeyLess(s[1..], t[1..])
  {
  }

  /** Sequences that agree for a while begin with the same element. */
  lemma SameStart<T>(a: seq<T>, b: seq<T>, i: nat)
    ensures 0 < i <= |a| && i <= |b| && a[..i] == b[..i] ==> a[0] == b[0]
  {
    if 0 < i <= |a| && i <= |b| { assert a[..i] == b[..i] ==> a[..i][0] == b[..i][0]; }
  }

  /** The byte `i` is the first in which the keys differ, and is smaller in `s`. */
  predicate SmallerAt(s: string, t: string, i: nat) {
    i < |s| && i < |t| && s[..i] == t[..i] && s[i] as int < t[i] as int
  }

  /** Keys come in the order of a dictionary: a proper prefix comes first, else the
      first byte that differs decides. */
  lemma {:induction false} KeyOrder(s: string, t: string)
    ensures KeyLess(s, t) <==> s < t || exists i: nat :: SmallerAt(s, t, i)
  {
    if s != [] && t != [] {
      if s[0] == t[0] {
        KeyTail(s, t);
        KeyOrder(s[1..], t[1..]);
        assert s == [s[0]] + s[1..] && t == [t[0]] + t[1..];
        assert s < t <==> s[1..] < t[1..];
        if i: nat :| SmallerAt(s[1..], t[1..], i) {
          assert s[..i + 1] == [s[0]] + s[1..][..i] && t[..i + 1] == [t[0]] + t[1..][..i];
          assert SmallerAt(s, t, i + 1);
        }
        if i: nat :| SmallerAt(s, t, i) {
          assert s[..i][1..] == s[1..][..i - 1] && t[..i][1..] == t[1..][..i - 1];
          assert SmallerAt(s[1..], t[1..], i - 1);
        }
      } else {
        assert s[0] as int < t[0] as int ==> SmallerAt(s, t, 0);
        if i: nat :| SmallerAt(s, t, i) { SameStart(s, t, i); }
      }
    }
  }

  lemma {:induction false} KeyTransitive(s: string, t: string, u: string)
    requires KeyLess(s, t) && KeyLess(t, u)
    ensures KeyLess(s, u)
  {
    if s != [] && s[0] == t[0] == u[0] {
      KeyTail(s, t);
      KeyTail(t, u);
      KeyTail(s, u);
      KeyTransitive(s[1..], t[1..], u[1..]);
    }
  }

  // ---- values ----

  /** Containers are ordered by size, then by contents. */
  lemma ContainersLess(a: Value, b: Value)
    requires TypeOf(a) == TypeOf(b) && a.Count() <= MAX_INT && b.Count() <= MAX_INT
    ensures a.Arr? ==> Less(a, b) == (|a.elems| < |b.elems| || (|a.elems| == |b.elems| && ElemsLess(a.elems, b.elems)))
    ensures a.Obj? ==>
              Less(a, b) ==
              (|a.members| < |b.members| || (|a.members| == |b.members| && MembersLess(a.members, b.members)))
  {
    SizeDeltaExact(a.Count(), b.Count());
  }

  /** Values of different types come in the order of `enum ValueType`; numbers of one
      type by size, false before true, and strings as keys do. */
  lemma ScalarOrder(i: LargestInt, j: LargestInt, u: LargestUInt, w: LargestUInt, s: string, t: string,
                    x: bool, y: bool, e: seq<Value>, m: seq<Member>)
    ensures Less(Null, Int(i)) && Less(Int(i), UInt(u)) && Less(UInt(u), Real(t)) && Less(Real(t), Str(s))
    ensures Less(Str(s), Bool(x)) && Less(Bool(x), Arr(e)) && Less(Arr(e), Obj(m))
    ensures !Less(Null, Null) && (Less(Int(i), Int(j)) <==> i < j) && (Less(UInt(u), UInt(w)) <==> u < w)
    ensures Less(Bool(x), Bool(y)) <==> (x, y) == (false, true)
    ensures Less(Str(s), Str(t)) <==> s < t || exists k: nat :: SmallerAt(s, t, k)
  {
    hide KeyLess;
    KeyOrder(s, t);
  }

  /** Of arrays the shorter one comes first, and of equally long ones the first
      element that differs decides. */
  lemma {:induction false} ArrayOrder(a: seq<Value>, b: seq<Value>)
    requires |a| <= MAX_INT && |b| <= MAX_INT
    requires forall i | 0 <= i < |a| :: RealFree(a[i]) && WellFormed(a[i])
    requires forall i | 0 <= i < |b| :: RealFree(b[i]) && WellFormed(b[i])
    ensures Less(Arr(a), Arr(b)) <==>
            |a| < |b| || (|a| == |b| && exists i | 0 <= i < |a| :: a[..i] == b[..i] && Less(a[i], b[i]))
  {
    ContainersLess(Arr(a), Arr(b));
    hide Less;
    if |a| == |b| { ElemsOrder(a, b); }
  }

  lemma {:induction false} ElemsOrder(a: seq<Value>, b: seq<Value>)
    requires |a| == |b|
    requires forall i | 0 <= i < |a| :: RealFree(a[i]) && RealFree(b[i]) && WellFormed(a[i]) && WellFormed(b[i])
    ensures ElemsLess(a, b) <==> exists i | 0 <= i < |a| :: a[..i] == b[..i] && Less(a[i], b[i])
    decreases |a|
  {
    hide Less, RealFree, WellFormed;
    if a != [] {
      Trichotomy(a[0], b[0]);
      ElemsOrder(a[1..], b[1..]);
      if Less(a[0], b[0]) {
        assert a[..0] == b[..0];
      } else if Less(b[0], a[0]) {
        forall i | 0 <= i < |a| && a[..i] == b[..i] ensures !Less(a[i], b[i]) {
          SameStart(a, b, i);
        }
      } else {
        if i :| 0 <= i < |a[1..]| && a[1..][..i] == b[1..][..i] && Less(a[1..][i], b[1..][i]) {
          assert a[..i + 1] == [a[0]] + a[1..][..i] && b[..i + 1] == [b[0]] + b[1..][..i];
          assert Less(a[i + 1], b[i + 1]);
        }
        if i :| 0 <= i < |a| && a[..i] == b[..i] && Less(a[i], b[i]) {
          assert a[..i][1..] == a[1..][..i - 1] && b[..i][1..] == b[1..][..i - 1];
          assert Less(a[1..][i - 1], b[1..][i - 1]);
        }
      }
    }
  }

  /** Of objects the smaller one comes first, and of equally large ones the first member
      that differs decides: its name, or else its value. */
  lemma {:induction false} ObjectOrder(a: seq<Member>, b: seq<Member>)
    requires |a| <= MAX_INT && |b| <= MAX_INT
    requires forall i | 0 <= i < |a| :: RealFree(a[i].value) && WellFormed(a[i].value)
    requires forall i | 0 <= i < |b| :: RealFree(b[i].value) && WellFormed(b[i].value)
    ensures Less(Obj(a), Obj(b)) <==>
            |a| < |b| || (|a| == |b| && exists i | 0 <= i < |a| :: a[..i] == b[..i] && MemberLess(a[i], b[i]))
  {
    ContainersLess(Obj(a), Obj(b));
    hide Less, MemberLess;
    if |a| == |b| { MembersOrder(a, b); }
  }

  predicate MemberLess(a: Member, b: Member) {
    KeyLess(a.name, b.name) || (a.name == b.name && Less(a.value, b.value))
  }

  lemma {:induction false} MembersOrder(a: seq<Member>, b: seq<Member>)
    requires |a| == |b|
    requires forall i | 0 <= i < |a| ::
      RealFree(a[i].value) && RealFree(b[i].value) && WellFormed(a[i].value) && WellFormed(b[i].value)
    ensures MembersLess(a, b) <==> exists i | 0 <= i < |a| :: a[..i] == b[..i] && MemberLess(a[i], b[i])
    decreases |a|
  {
    hide Less, RealFree, WellFormed, MemberLess, PairLess;
    if a != [] {
      PairTrichotomy(a[0], b[0]);
      PairIsMember(a[0], b[0]);
      MembersOrder(a[1..], b[1..]);
      if MemberLess(a[0], b[0]) {
        assert a[..0] == b[..0];
      } else if PairLess(b[0], a[0]) {
        forall i | 0 <= i < |a| && a[..i] == b[..i] ensures !MemberLess(a[i], b[i]) {
          SameStart(a, b, i);
        }
      } else {
        if i :| 0 <= i < |a[1..]| && a[1..][..i] == b[1..][..i] && MemberLess(a[1..][i], b[1..][i]) {
          assert a[..i + 1] == [a[0]] + a[1..][..i] && b[..i + 1] == [b[0]] + b[1..][..i];
          assert MemberLess(a[i + 1], b[i + 1]);
        }
        if i :| 0 <= i < |a| && a[..i] == b[..i] && MemberLess(a[i], b[i]) {
          assert a[..i][1..] == a[1..][..i - 1] && b[..i][1..] == b[1..][..i - 1];
          assert MemberLess(a[1..][i - 1], b[1..][i - 1]);
        }
      }
    }
  }

  lemma PairIsMember(a: Member, b: Member)
    ensures PairLess(a, b) <==> MemberLess(a, b)
  {
    KeyTrichotomy(a.name, b.name);
  }

  /** Any two values are ordered one way, unless they are equal. */
  lemma {:induction false} Trichotomy(a: Value, b: Value)
    requires RealFree(a) && RealFree(b) && WellFormed(a) && WellFormed(b)
    ensures (Less(a, b) || Less(b, a)) <==> a != b
    ensures !(Less(a, b) && Less(b, a))
    decreases Size(a) + Size(b)
  {
    if TypeOf(a) == TypeOf(b) {
      if a.IsContainer() {
        ContainersLess(a, b);
        ContainersLess(b, a);
        if a.Arr? {
          if |a.elems| == |b.elems| { ElemsTrichotomy(a.elems, b.elems); }
        } else {
          if |a.members| == |b.members| { MembersTrichotomy(a.members, b.members); }
        }
      } else if a.Str? {
        KeyTrichotomy(a.s, b.s);
      }
    }
  }

  lemma {:induction false} ElemsTrichotomy(a: seq<Value>, b: seq<Value>)
    requires |a| == |b|
    requires forall i | 0 <= i < |a| :: RealFree(a[i]) && RealFree(b[i]) && WellFormed(a[i]) && WellFormed(b[i])
    ensures (ElemsLess(a, b) || ElemsLess(b, a)) <==> a != b
    ensures !(ElemsLess(a, b) && ElemsLess(b, a))
    decreases SizeElems(a) + SizeElems(b)
  {
    if a != [] {
      Trichotomy(a[0], b[0]);
      ElemsTrichotomy(a[1..], b[1..]);
      assert a == [a[0]] + a[1..] && b == [b[0]] + b[1..];
    }
  }

  lemma {:induction false} MembersTrichotomy(a: seq<Member>, b: seq<Member>)
    requires |a| == |b|
    requires forall i | 0 <= i < |a| ::
      RealFree(a[i].value) && RealFree(b[i].value) && WellFormed(a[i].value) && WellFormed(b[i].value)
    ensures (MembersLess(a, b) || MembersLess(b, a)) <==> a != b
    ensures !(MembersLess(a, b) && MembersLess(b, a))
    decreases SizeMembers(a) + SizeMembers(b)
  {
    if a != [] {
      Trichotomy(a[0].value, b[0].value);
      KeyTrichotomy(a[0].name, b[0].name);
      MembersTrichotomy(a[1..], b[1..]);
      assert a == [a[0]] + a[1..] && b == [b[0]] + b[1..];
    }
  }

  lemma {:induction false} Transitive(a: Value, b: Value, c: Value)
    requires RealFree(a) && RealFree(b) && RealFree(c)
    requires WellFormed(a) && WellFormed(b) && WellFormed(c)
    requires Less(a, b) && Less(b, c)
    ensures Less(a, c)
    decreases Size(a) + Size(b) + Size(c), 0
  {
    if TypeOf(a) == TypeOf(b) == TypeOf(c) {
      if a.IsContainer() {
        ContainersLess(a, b);
        ContainersLess(b, c);
        ContainersLess(a, c);
        if a.Arr? {
          if |a.elems| == |b.elems| == |c.elems| { ElemsTransitive(a.elems, b.elems, c.elems); }
        } else {
          if |a.members| == |b.members| == |c.members| { MembersTransitive(a.members, b.members, c.members); }
        }
      } else if a.Str? {
        KeyTransitive(a.s, b.s, c.s);
      }
    }
  }

  lemma {:induction false} ElemsTransitive(a: seq<Value>, b: seq<Value>, c: seq<Value>)
    requires |a| == |b| == |c|
    requires forall i | 0 <= i < |a| :: RealFree(a[i]) && RealFree(b[i]) && RealFree(c[i])
    requires forall i | 0 <= i < |a| :: WellFormed(a[i]) && WellFormed(b[i]) && WellFormed(c[i])
    requires ElemsLess(a, b) && ElemsLess(b, c)
    ensures ElemsLess(a, c)
    decreases SizeElems(a) + SizeElems(b) + SizeElems(c)
  {
    Trichotomy(a[0], b[0]);
    Trichotomy(b[0], c[0]);
    if Less(a[0], b[0]) && Less(b[0], c[0]) {
      Transitive(a[0], b[0], c[0]);
    } else if a[0] == b[0] == c[0] {
      ElemsTransitive(a[1..], b[1..], c[1..]);
    }
  }

  lemma {:induction false} MembersTransitive(a: seq<Member>, b: seq<Member>, c: seq<Member>)
    requires |a| == |b| == |c|
    requires forall i | 0 <= i < |a| :: RealFree(a[i].value) && RealFree(b[i].value) && RealFree(c[i].value)
    requires forall i | 0 <= i < |a| :: WellFormed(a[i].value) && WellFormed(b[i].value) && WellFormed(c[i].value)
    requires MembersLess(a, b) && MembersLess(b, c)
    ensures MembersLess(a, c)
    decreases SizeMembers(a) + SizeMembers(b) + SizeMembers(c)
  {
    PairTrichotomy(a[0], b[0]);
    PairTrichotomy(b[0], c[0]);
    if PairLess(a[0], b[0]) && PairLess(b[0], c[0]) {
      PairTransitive(a[0], b[0], c[0]);
    } else if a[0] == b[0] == c[0] {
      MembersTransitive(a[1..], b[1..], c[1..]);
    }
  }

  lemma PairTrichotomy(a: Member, b: Member)
    requires RealFree(a.value) && RealFree(b.value) && WellFormed(a.value) && WellFormed(b.value)
    ensures (PairLess(a, b) || PairLess(b, a)) <==> a != b
    ensures !(PairLess(a, b) && PairLess(b, a))
    decreases Size(a.value) + Size(b.value), 1
  {
    Trichotomy(a.value, b.value);
    KeyTrichotomy(a.name, b.name);
  }

  lemma PairTransitive(a: Member, b: Member, c: Member)
    requires RealFree(a.value) && RealFree(b.value) && RealFree(c.value)
    requires WellFormed(a.value) && WellFormed(b.value) && WellFormed(c.value)
    requires PairLess(a, b) && PairLess(b, c)
    ensures PairLess(a, c)
    decreases Size(a.value) + Size(b.value) + Size(c.value), 1
  {
    KeyTrichotomy(a.name, b.name);
    KeyTrichotomy(b.name, c.name);
    if KeyLess(a.name, b.name) && KeyLess(b.name, c.name) {
      KeyTransitive(a.name, b.name, c.name);
    } else if a.name == b.name == c.name {
      Transitive(a.value, b.value, c.value);
    }
  }

  lemma {:induction false} EqualIsIdentity(a: Value, b: Value)
    ensures Equal(a, b) <==> a == b
  {
    if TypeOf(a) == TypeOf(b) {
      match a
      case Arr(e) =>
        if |e| == |b.elems| {
          forall i | 0 <= i < |e| ensures Equal(e[i], b.elems[i]) <==> e[i] == b.elems[i] {
            EqualIsIdentity(e[i], b.elems[i]);
          }
        }
      case Obj(m) =>
        if |m| == |b.members| {
          forall i | 0 <= i < |m| ensures Equal(m[i].value, b.members[i].value) <==> m[i].value == b.members[i].value {
            EqualIsIdentity(m[i].value, b.members[i].value);
          }
          assert Equal(a, b) ==> forall i | 0 <= i < |m| :: m[i] == b.members[i];
        }
      case _ =>
    }
  }

  /** `compare` returns zero exactly on values that `==` accepts, and its sign
      flips when the arguments are exchanged. */
  lemma CompareMeansEqual(a: Value, b: Value)
    requires RealFree(a) && RealFree(b) && WellFormed(a) && WellFormed(b)
    ensures Compare(a, b) == 0 <==> Equal(a, b)
    ensures Compare(a, b) == -Compare(b, a) && (Compare(a, b) == -1 <==> Less(a, b))
  {
    Trichotomy(a, b);
    EqualIsIdentity(a, b);
  }

  /** The size difference orders two containers correctly exactly while it fits
      a signed 32-bit number: this is where the order would break. */
  lemma SizeDeltaExact(a: nat, b: nat)
    requires a < 0x1_0000_0000 && b < 0x1_0000_0000
    ensures SizeDelta(a, b) == a - b <==> -0x8000_0000 <= a - b <= MAX_INT
  {
  }

  // ---- the exact range of the order ----

  /** Well formed, with at most `n` entries in every container. */
  predicate WellFormedUpTo(v: Value, n: nat) {
    match v
    case Arr(e) => |e| <= n && forall i | 0 <= i < |e| :: WellFormedUpTo(e[i], n)
    case Obj(m) => |m| <= n && SortedKeys(m) && forall i | 0 <= i < |m| :: WellFormedUpTo(m[i].value, n)
    case _ => true
  }

  /** `operator<` is a strict total order on the values whose containers hold at most `n` entries. */
  ghost predicate StrictTotalUpTo(n: nat) {
    && (forall a, b | RealFree(a) && RealFree(b) && WellFormedUpTo(a, n) && WellFormedUpTo(b, n) ::
          (Less(a, b) || Less(b, a) <==> a != b) && !(Less(a, b) && Less(b, a)))
    && (forall a, b, c | RealFree(a) && RealFree(b) && RealFree(c)
                         && WellFormedUpTo(a, n) && WellFormedUpTo(b, n) && WellFormedUpTo(c, n) ::
          Less(a, b) && Less(b, c) ==> Less(a, c))
  }

  lemma {:induction false} SmallIsWellFormed(v: Value, n: nat)
    requires WellFormedUpTo(v, n) && n <= MAX_INT
    ensures WellFormed(v)
  {
    match v
    case Arr(e) => forall i | 0 <= i < |e| ensures WellFormed(e[i]) { SmallIsWellFormed(e[i], n); }
    case Obj(m) => forall i | 0 <= i < |m| ensures WellFormed(m[i].value) { SmallIsWellFormed(m[i].value, n); }
    case _ =>
  }

  /** The order is strict and total exactly as long as no container holds more than
      2^31 - 1 entries: an array of 2^31 nulls and the empty array are each less
      than the other. */
  lemma OrderExact(n: nat)
    ensures StrictTotalUpTo(n) <==> n <= MAX_INT
  {
    if n <= MAX_INT {
      forall a, b | RealFree(a) && RealFree(b) && WellFormedUpTo(a, n) && WellFormedUpTo(b, n)
        ensures (Less(a, b) || Less(b, a) <==> a != b) && !(Less(a, b) && Less(b, a))
      {
        SmallIsWellFormed(a, n);
        SmallIsWellFormed(b, n);
        Trichotomy(a, b);
      }
      forall a, b, c | RealFree(a) && RealFree(b) && RealFree(c) && Less(a, b) && Less(b, c)
                       && WellFormedUpTo(a, n) && WellFormedUpTo(b, n) && WellFormedUpTo(c, n)
        ensures Less(a, c)
      {
        SmallIsWellFormed(a, n);
        SmallIsWellFormed(b, n);
        SmallIsWellFormed(c, n);
        Transitive(a, b, c);
      }
    } else {
      var small, large := Arr([]), Arr(seq(0x8000_0000, _ => Null));
      assert RealFree(small) && RealFree(large) && WellFormedUpTo(small, n) && WellFormedUpTo(large, n);
      BothLess(small, large);
    }
  }

  lemma BothLess(small: Value, large: Value)
    requires small.Arr? && large.Arr? && small.elems == [] && |large.elems| == 0x8000_0000
    ensures Less(small, large) && Less(large, small)
  {
  }
}
