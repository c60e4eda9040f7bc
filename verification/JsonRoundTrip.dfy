/** Reading a printed value gives the value back, whatever whitespace stands
    between its tokens, as long as it does not nest too deeply. */
module JsonRoundTrip {
  import opened JsonValue
  import opened JsonOrder
  import opened JsonString
  import opened JsonText
  import opened JsonParser
  import opened JsonGrammar
  import opened JsonReading
  import N = JsonNumber

  // ---- what reading makes of a value ----

  /** The value read back: the same, with integer tags chosen by size. */
  function Norm(v: Value): Value {
    match v
    case Arr(e) => Arr(NormElems(e))
    case Obj(m) => Obj(NormMembers(m))
    case _ => N.Retag(v)
  }

  function NormElems(e: seq<Value>): (r: seq<Value>)
    ensures |r| == |e|
  {
    if e == [] then [] else [Norm(e[0])] + NormElems(e[1..])
  }

  function NormMembers(m: seq<Member>): (r: seq<Member>)
    ensures |r| == |m|
  {
    if m == [] then [] else [Member(m[0].name, Norm(m[0].value))] + NormMembers(m[1..])
  }

  /** Equal up to the signed or unsigned tag of integers. */
  predicate SameValue(a: Value, b: Value) {
    match a
    case Arr(e) => b.Arr? && |e| == |b.elems| && forall i | 0 <= i < |e| :: SameValue(e[i], b.elems[i])
    case Obj(m) =>
      && b.Obj? && |m| == |b.members|
      && forall i | 0 <= i < |m| :: m[i].name == b.members[i].name && SameValue(m[i].value, b.members[i].value)
    case Int(i) => (b.Int? || b.UInt?) && N.Number(b) == i
    case UInt(u) => (b.Int? || b.UInt?) && N.Number(b) == u
    case _ => a == b
  }

  lemma {:induction false} NormIsSame(v: Value)
    ensures SameValue(v, Norm(v))
    decreases v, 0
  {
    match v
    case Arr(e) => NormElemsSame(e);
    case Obj(m) => NormMembersSame(m);
    case _ =>
  }

  lemma {:induction false} NormElemsSame(e: seq<Value>)
    ensures forall i | 0 <= i < |e| :: SameValue(e[i], NormElems(e)[i])
    decreases e, 1
  {
    if e != [] {
      NormIsSame(e[0]);
      NormElemsSame(e[1..]);
      assert forall i | 1 <= i < |e| :: e[i] == e[1..][i - 1] && NormElems(e)[i] == NormElems(e[1..])[i - 1];
    }
  }

  lemma {:induction false} NormMembersSame(m: seq<Member>)
    ensures forall i | 0 <= i < |m| ::
      m[i].name == NormMembers(m)[i].name && SameValue(m[i].value, NormMembers(m)[i].value)
    decreases m, 1
  {
    if m != [] {
      NormIsSame(m[0].value);
      NormMembersSame(m[1..]);
      assert forall i | 1 <= i < |m| :: m[i] == m[1..][i - 1] && NormMembers(m)[i] == NormMembers(m[1..])[i - 1];
    }
  }

  // ---- a printed value as a JSON text ----

  function JsonOf(v: Value, l: Layout): Json
    requires Fits(v, l)
    decreases v, 0
  {
    match v
    case Arr(e) => List(l.inside, ItemsOf(e, l.slots))
    case Obj(m) => Record(l.inside, EntriesOf(m, l.slots))
    case Str(s) => Lit(QuotePieces(s))
    case Int(i) => Num(NumeralOf(i))
    case UInt(u) => Num(NumeralOf(u))
    case _ => Word(v)
  }

  function NumeralOf(n: int): Numeral { Numeral(n < 0, N.Decimal(if n < 0 then -n else n), "", "") }

  function ItemsOf(e: seq<Value>, slots: seq<Slot>): (r: seq<Item>)
    requires ElemsFit(e, slots)
    ensures |r| == |e|
    decreases e, 1
  {
    if e == [] then []
    else [Item(slots[0].before, JsonOf(e[0], slots[0].inner), slots[0].after)] + ItemsOf(e[1..], slots[1..])
  }

  function EntryOf(m: Member, s: Slot): Entry
    requires Fits(m.value, s.inner)
    decreases m, 1
  {
    Entry(s.before, QuotePieces(m.name), s.afterKey, s.afterColon, JsonOf(m.value, s.inner), s.after)
  }

  function EntriesOf(m: seq<Member>, slots: seq<Slot>): (r: seq<Entry>)
    requires MembersFit(m, slots)
    ensures |r| == |m|
    decreases m, 1
  {
    if m == [] then [] else [EntryOf(m[0], slots[0])] + EntriesOf(m[1..], slots[1..])
  }

  /** A printed value is a legal text. */
  lemma {:induction false} PrintedIsText(v: Value, l: Layout, isDouble: string -> bool)
    requires RealFree(v) && Fits(v, l)
    ensures
      var j := JsonOf(v, l);
      Legal(j) && Readable(j, isDouble) && TextOf(j) == Render(v, l) && Depth(j) == Height(v)
    decreases v, 0
  {
    hide ItemsOf, EntriesOf, ItemsText, EntriesText, RenderElems, RenderMembers;
    hide ItemsDepth, EntriesDepth, HeightElems, HeightMembers, SpellAll, QuotePieces, NumeralOf, NumeralText;
    hide N.DecodedInteger, N.IntegerText, LegalNumeral, LegalPieces;
    if v.Arr? {
      ElemsAreItems(v.elems, l.slots, isDouble);
    } else if v.Obj? {
      MembersAreEntries(v.members, l.slots, isDouble);
    } else if v.Int? || v.UInt? {
      NumberIsNumeral(v);
    }
  }

  lemma NumberIsNumeral(v: Value)
    requires v.Int? || v.UInt?
    ensures
      var n := NumeralOf(N.Number(v));
      LegalNumeral(n) && NumeralText(n) == N.IntegerText(v) && N.DecodedInteger(NumeralText(n)) == Some(N.Retag(v))
  {
    hide N.Decimal, N.DecodedInteger, N.Retag, N.Denotes;
    var n := N.Number(v);
    N.DecimalDenotes(if n < 0 then -n else n);
    N.DecodeInvertsPrint(v);
    assert NumeralText(NumeralOf(n)) == N.IntegerText(v);
  }

  lemma {:induction false} ElemsAreItems(e: seq<Value>, slots: seq<Slot>, isDouble: string -> bool)
    requires ElemsFit(e, slots) && forall i | 0 <= i < |e| :: RealFree(e[i])
    ensures
      var items := ItemsOf(e, slots);
      && LegalItems(items) && (forall i | 0 <= i < |items| :: Readable(items[i].value, isDouble))
      && (e != [] ==> ItemsText(items) == RenderElems(e, slots)) && ItemsDepth(items) == HeightElems(e)
    decreases e, 1
  {
    hide RealFree, Fits, Legal, Readable, TextOf, Render, Depth, Height, JsonOf;
    if e != [] {
      PrintedIsText(e[0], slots[0].inner, isDouble);
      ElemsAreItems(e[1..], slots[1..], isDouble);
      assert ItemsOf(e, slots)[1..] == ItemsOf(e[1..], slots[1..]);
    }
  }

  lemma {:induction false} MembersAreEntries(m: seq<Member>, slots: seq<Slot>, isDouble: string -> bool)
    requires MembersFit(m, slots) && forall i | 0 <= i < |m| :: RealFree(m[i].value)
    ensures
      var entries := EntriesOf(m, slots);
      && LegalEntries(entries) && (forall i | 0 <= i < |entries| :: Readable(entries[i].value, isDouble))
      && (m != [] ==> EntriesText(entries) == RenderMembers(m, slots)) && EntriesDepth(entries) == HeightMembers(m)
    decreases m, 1
  {
    hide RealFree, Fits, Legal, Readable, TextOf, Render, Depth, Height, JsonOf;
    hide QuotePieces, SpellAll, LegalPieces;
    if m != [] {
      PrintedIsText(m[0].value, slots[0].inner, isDouble);
      MembersAreEntries(m[1..], slots[1..], isDouble);
      assert EntriesOf(m, slots)[1..] == EntriesOf(m[1..], slots[1..]);
    }
  }

  /** The text stands for the value, with its tags chosen by size. */
  lemma {:induction false} PrintedMeans(v: Value, l: Layout)
    requires RealFree(v) && Sorted(v) && Fits(v, l)
    ensures ValueOf(JsonOf(v, l)) == Norm(v)
    decreases v, 0
  {
    hide ItemsOf, EntriesOf, NormElems, NormMembers, ItemValues, Stored, MeaningAll, QuotePieces, NumeralOf,
         NumeralText;
    hide N.DecodedInteger, N.IntegerText, LegalNumeral;
    if v.Arr? {
      ElemsMean(v.elems, l.slots);
    } else if v.Obj? {
      assert [] + v.members == v.members && [] + NormMembers(v.members) == NormMembers(v.members);
      MembersMean(v.members, l.slots, []);
    } else if v.Str? {
      QuotedMeans(v.s);
    } else if v.Int? || v.UInt? {
      NumberIsNumeral(v);
    }
  }

  lemma {:induction false} ElemsMean(e: seq<Value>, slots: seq<Slot>)
    requires ElemsFit(e, slots) && forall i | 0 <= i < |e| :: RealFree(e[i]) && Sorted(e[i])
    ensures ItemValues(ItemsOf(e, slots)) == NormElems(e)
    decreases e, 1
  {
    hide RealFree, Sorted, Fits, ValueOf, Norm, JsonOf;
    if e != [] {
      PrintedMeans(e[0], slots[0].inner);
      ElemsMean(e[1..], slots[1..]);
      assert ItemsOf(e, slots)[1..] == ItemsOf(e[1..], slots[1..]);
    }
  }

  lemma {:induction false} MembersMean(m: seq<Member>, slots: seq<Slot>, read: seq<Member>)
    requires MembersFit(m, slots) && forall i | 0 <= i < |m| :: RealFree(m[i].value) && Sorted(m[i].value)
    requires SortedKeys(read + m)
    ensures Stored(read, EntriesOf(m, slots)) == read + NormMembers(m)
    decreases m, 1
  {
    hide RealFree, Sorted, Fits, ValueOf, Norm, JsonOf, Put, KeyLess, SortedKeys, QuotePieces, MeaningAll;
    if m == [] {
      assert read + [] == read;
    } else {
      var x, rest := Member(m[0].name, Norm(m[0].value)), NormMembers(m[1..]);
      assert EntriesOf(m, slots) == [EntryOf(m[0], slots[0])] + EntriesOf(m[1..], slots[1..]);
      assert NormMembers(m) == [x] + rest;
      StoredStep(read, EntryOf(m[0], slots[0]), EntriesOf(m[1..], slots[1..]));
      hide Stored, EntriesOf, NormMembers;
      PrintedMeans(m[0].value, slots[0].inner);
      QuotedMeans(m[0].name);
      NextSorted(read, m, x.value);
      PutLast(read, x.name, x.value);
      MembersMean(m[1..], slots[1..], read + [x]);
      assert read + [x] + rest == read + ([x] + rest);
    }
  }

  lemma StoredStep(read: seq<Member>, e: Entry, rest: seq<Entry>)
    ensures Stored(read, [e] + rest) == Stored(Put(read, MeaningAll(e.name), ValueOf(e.value)), rest)
  {
    assert ([e] + rest)[1..] == rest;
  }

  lemma {:induction false} PutLast(read: seq<Member>, name: string, value: Value)
    requires forall i | 0 <= i < |read| :: KeyLess(read[i].name, name)
    ensures Put(read, name, value) == read + [Member(name, value)]
  {
    hide KeyLess;
    if read != [] {
      KeyTrichotomy(read[0].name, name);
      PutLast(read[1..], name, value);
    }
  }

  lemma NextSorted(read: seq<Member>, m: seq<Member>, value: Value)
    requires m != [] && SortedKeys(read + m)
    ensures forall i | 0 <= i < |read| :: KeyLess(read[i].name, m[0].name)
    ensures SortedKeys(read + [Member(m[0].name, value)] + m[1..])
  {
    hide KeyLess;
    var all, next := read + m, read + [Member(m[0].name, value)] + m[1..];
    assert |next| == |all| && forall i | 0 <= i < |next| :: next[i].name == all[i].name;
    assert all[|read|] == m[0];
    assert forall i | 0 <= i < |read| :: all[i] == read[i];
  }

  // ---- how long the names are ----

  /** The bytes of all names at all levels. */
  function NameBytes(v: Value): nat {
    match v
    case Arr(e) => ElemNameBytes(e)
    case Obj(m) => MemberNameBytes(m)
    case _ => 0
  }

  function ElemNameBytes(e: seq<Value>): nat { if e == [] then 0 else NameBytes(e[0]) + ElemNameBytes(e[1..]) }

  function MemberNameBytes(m: seq<Member>): nat {
    if m == [] then 0 else |m[0].name| + NameBytes(m[0].value) + MemberNameBytes(m[1..])
  }

  /** Reading a text never makes names longer, not even when names coincide. */
  lemma {:induction false} ReadNamesFit(v: Value, l: Layout)
    requires RealFree(v) && Fits(v, l)
    ensures NameBytes(ValueOf(JsonOf(v, l))) <= NameBytes(v)
    decreases v, 0
  {
    hide ItemsOf, EntriesOf, ItemValues, Stored, MeaningAll, QuotePieces, NumeralOf, NumeralText, N.DecodedInteger;
    hide ElemNameBytes, MemberNameBytes;
    if v.Arr? {
      ElemNamesFit(v.elems, l.slots);
    } else if v.Obj? {
      NoNames();
      MemberNamesFit(v.members, l.slots, []);
    } else if v.Int? || v.UInt? {
      NumberIsNumeral(v);
    }
  }

  lemma NoNames()
    ensures MemberNameBytes([]) == 0
  {
  }

  lemma {:induction false} ElemNamesFit(e: seq<Value>, slots: seq<Slot>)
    requires ElemsFit(e, slots) && forall i | 0 <= i < |e| :: RealFree(e[i])
    ensures ElemNameBytes(ItemValues(ItemsOf(e, slots))) <= ElemNameBytes(e)
    decreases e, 1
  {
    hide RealFree, Fits, ValueOf, JsonOf, NameBytes;
    if e != [] {
      ReadNamesFit(e[0], slots[0].inner);
      ElemNamesFit(e[1..], slots[1..]);
      assert ItemsOf(e, slots)[1..] == ItemsOf(e[1..], slots[1..]);
      var values := ItemValues(ItemsOf(e, slots));
      assert values[1..] == ItemValues(ItemsOf(e[1..], slots[1..]));
    }
  }

  lemma {:induction false} MemberNamesFit(m: seq<Member>, slots: seq<Slot>, read: seq<Member>)
    requires MembersFit(m, slots) && forall i | 0 <= i < |m| :: RealFree(m[i].value)
    ensures MemberNameBytes(Stored(read, EntriesOf(m, slots))) <= MemberNameBytes(read) + MemberNameBytes(m)
    decreases m, 1
  {
    hide RealFree, Fits, ValueOf, JsonOf, NameBytes, Put, QuotePieces, MeaningAll;
    if m != [] {
      ReadNamesFit(m[0].value, slots[0].inner);
      QuotedMeans(m[0].name);
      var value := ValueOf(JsonOf(m[0].value, slots[0].inner));
      PutNamesFit(read, m[0].name, value);
      MemberNamesFit(m[1..], slots[1..], Put(read, m[0].name, value));
      assert EntriesOf(m, slots)[1..] == EntriesOf(m[1..], slots[1..]);
    }
  }

  lemma {:induction false} PutNamesFit(read: seq<Member>, name: string, value: Value)
    ensures MemberNameBytes(Put(read, name, value)) <= MemberNameBytes(read) + |name| + NameBytes(value)
  {
    hide KeyLess, NameBytes;
    if read != [] {
      PutNamesFit(read[1..], name, value);
      var put := Put(read, name, value);
      if read[0].name == name {
        assert put[1..] == read[1..];
      } else if KeyLess(name, read[0].name) {
        assert put[1..] == read;
      } else {
        assert put[1..] == Put(read[1..], name, value);
      }
    }
  }

  /** Equal values have names of equal lengths. */
  lemma {:induction false} SameNames(a: Value, b: Value)
    requires SameValue(a, b)
    ensures NameBytes(a) == NameBytes(b)
    decreases a, 0
  {
    hide ElemNameBytes, MemberNameBytes;
    if a.Arr? {
      SameElemNames(a.elems, b.elems);
    } else if a.Obj? {
      SameMemberNames(a.members, b.members);
    }
  }

  lemma {:induction false} SameElemNames(a: seq<Value>, b: seq<Value>)
    requires |a| == |b| && forall i | 0 <= i < |a| :: SameValue(a[i], b[i])
    ensures ElemNameBytes(a) == ElemNameBytes(b)
    decreases a, 1
  {
    hide SameValue, NameBytes;
    if a != [] {
      SameNames(a[0], b[0]);
      SameElemNames(a[1..], b[1..]);
    }
  }

  lemma {:induction false} SameMemberNames(a: seq<Member>, b: seq<Member>)
    requires |a| == |b| && forall i | 0 <= i < |a| :: a[i].name == b[i].name && SameValue(a[i].value, b[i].value)
    ensures MemberNameBytes(a) == MemberNameBytes(b)
    decreases a, 1
  {
    hide SameValue, NameBytes;
    if a != [] {
      SameNames(a[0].value, b[0].value);
      SameMemberNames(a[1..], b[1..]);
    }
  }

  // ---- the theorems ----

  /** Reading the text of a value in any layout yields the value, or throws when
      it nests deeper than the stack limit leaves room for. */
  lemma RenderReads(doc: string, p: nat, v: Value, l: Layout, depth: nat, isDouble: string -> bool)
    requires RealFree(v) && Sorted(v) && Fits(v, l)
    requires Occurs(doc, p, Render(v, l)) && NumberStops(doc, p + |Render(v, l)|)
    ensures ReadValue(doc, p, depth, isDouble) ==
            if depth + Height(v) <= STACK_LIMIT then Done(Norm(v), p + |Render(v, l)|) else Threw
  {
    hide ReadValue, Occurs, NumberStops, Norm, Height, Render, JsonOf, ValueOf, Depth, TextOf, Legal, Readable;
    PrintedIsText(v, l, isDouble);
    PrintedMeans(v, l);
    JsonReads(doc, p, JsonOf(v, l), depth, isDouble);
  }

  /** Any text of the value, with whitespace around it as well, reads back as the
      value exactly if it nests at most `STACK_LIMIT` deep; otherwise the reader throws. */
  lemma TextRoundTrip(v: Value, l: Layout, before: string, after: string, isDouble: string -> bool)
    requires RealFree(v) && Sorted(v) && Fits(v, l) && White(before) && White(after)
    ensures
      var r := Parse(before + Render(v, l) + after, isDouble);
      && (Height(v) <= STACK_LIMIT ==> r.Done? && r.value == Norm(v) && SameValue(v, r.value))
      && (Height(v) > STACK_LIMIT ==> r == Threw)
  {
    hide Parse, Norm, Height, Render, SameValue, JsonOf, ValueOf, Depth, TextOf, Legal, Readable;
    PrintedIsText(v, l, isDouble);
    PrintedMeans(v, l);
    TextReads(JsonOf(v, l), before, after, isDouble);
    NormIsSame(v);
  }

  /** What `FastWriter::write` prints, `Reader::parse` reads. */
  lemma FastRoundTrip(v: Value, isDouble: string -> bool)
    requires RealFree(v) && Sorted(v)
    ensures
      var r := Parse(Compact(v) + "\n", isDouble);
      && (Height(v) <= STACK_LIMIT ==> r.Done? && r.value == Norm(v) && SameValue(v, r.value))
      && (Height(v) > STACK_LIMIT ==> r == Threw)
  {
    hide Parse, Norm, Height, Render, SameValue, Compact;
    CompactIsTight(v);
    TextRoundTrip(v, Tight(v), "", "\n", isDouble);
    assert "" + Compact(v) + "\n" == Compact(v) + "\n";
  }
}
