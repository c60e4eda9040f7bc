/** JSON texts by their grammar: every text of RFC 8259 with its whitespace, its
    spelling of strings and numbers, its order of members and its duplicate names,
    and the value that a text stands for. */
module JsonGrammar {
  import opened JsonValue
  import opened JsonOrder
  import opened JsonString
  import opened JsonText
  import opened JsonParser
  import N = JsonNumber

  /** Section 6: a sign, digits, a fraction and an exponent; the last two may be empty. */
  datatype Numeral = Numeral(minus: bool, whole: string, fraction: string, exponent: string)

  /** Sections 2 to 7. The insides of empty containers are whitespace. */
  datatype Json =
    | Word(v: Value)
    | Num(n: Numeral)
    | Lit(pieces: seq<Piece>)
    | List(inside: string, items: seq<Item>)
    | Record(inside: string, entries: seq<Entry>)

  /** An element and a member, with the whitespace around them. */
  datatype Item = Item(before: string, value: Json, after: string)
  datatype Entry =
    Entry(before: string, name: seq<Piece>, afterName: string, afterColon: string, value: Json, after: string)

  // ---- legal texts ----

  predicate Digits(t: string) { t != "" && N.AllDigits(t) }

  predicate LegalNumeral(n: Numeral) {
    && Digits(n.whole)
    && (n.fraction == "" || (n.fraction[0] == '.' && Digits(n.fraction[1..])))
    && (n.exponent == "" || LegalExponent(n.exponent))
  }

  predicate LegalExponent(t: string)
    requires t != ""
  {
    && (t[0] == 'e' || t[0] == 'E')
    && (Digits(t[1..]) || (|t| >= 2 && (t[1] == '+' || t[1] == '-') && Digits(t[2..])))
  }

  predicate Legal(j: Json) {
    match j
    case Word(v) => v.Null? || v.Bool?
    case Num(n) => LegalNumeral(n)
    case Lit(xs) => LegalPieces(xs)
    case List(w, items) =>
      White(w) && forall i | 0 <= i < |items| :: WhiteItem(items[i]) && Legal(items[i].value)
    case Record(w, entries) =>
      White(w) && forall i | 0 <= i < |entries| :: WhiteEntry(entries[i]) && Legal(entries[i].value)
  }

  predicate WhiteItem(x: Item) { White(x.before) && White(x.after) }

  predicate WhiteEntry(x: Entry) {
    White(x.before) && White(x.afterName) && White(x.afterColon) && White(x.after) && LegalPieces(x.name)
  }

  predicate LegalItems(items: seq<Item>) { forall i | 0 <= i < |items| :: WhiteItem(items[i]) && Legal(items[i].value) }

  predicate LegalEntries(entries: seq<Entry>) {
    forall i | 0 <= i < |entries| :: WhiteEntry(entries[i]) && Legal(entries[i].value)
  }

  // ---- the text ----

  function NumeralText(n: Numeral): string {
    (if n.minus then "-" else "") + n.whole + n.fraction + n.exponent
  }

  function Literal(xs: seq<Piece>): string
    requires LegalPieces(xs)
  {
    "\"" + SpellAll(xs) + "\""
  }

  function TextOf(j: Json): string
    requires Legal(j)
    decreases j, 0
  {
    match j
    case Word(v) => Atom(v)
    case Num(n) => NumeralText(n)
    case Lit(xs) => Literal(xs)
    case List(w, items) => "[" + (if items == [] then w else ItemsText(items)) + "]"
    case Record(w, entries) => "{" + (if entries == [] then w else EntriesText(entries)) + "}"
  }

  function ItemText(x: Item): string
    requires Legal(x.value)
    decreases x.value, 1
  {
    Pad(x.before, TextOf(x.value), x.after)
  }

  function ItemsText(items: seq<Item>): string
    requires items != [] && LegalItems(items)
    decreases items, 2
  {
    ItemText(items[0]) + if |items| == 1 then "" else "," + ItemsText(items[1..])
  }

  function EntryText(x: Entry): string
    requires LegalPieces(x.name) && Legal(x.value)
    decreases x.value, 1
  {
    Pad(x.before, Literal(x.name), x.afterName) + ":" + Pad(x.afterColon, TextOf(x.value), x.after)
  }

  function EntriesText(entries: seq<Entry>): string
    requires entries != [] && LegalEntries(entries)
    decreases entries, 2
  {
    EntryText(entries[0]) + if |entries| == 1 then "" else "," + EntriesText(entries[1..])
  }

  // ---- the value ----

  /** A numeral is an integer if it is one and fits, else a double. */
  function NumeralValue(n: Numeral): Value {
    match N.DecodedInteger(NumeralText(n))
    case Some(v) => v
    case None => Real(NumeralText(n))
  }

  function ValueOf(j: Json): Value {
    match j
    case Word(v) => v
    case Num(n) => NumeralValue(n)
    case Lit(xs) => Str(MeaningAll(xs))
    case List(_, items) => Arr(ItemValues(items))
    case Record(_, entries) => Obj(Stored([], entries))
  }

  function ItemValues(items: seq<Item>): (r: seq<Value>)
    ensures |r| == |items|
  {
    if items == [] then [] else [ValueOf(items[0].value)] + ItemValues(items[1..])
  }

  /** The members are stored one after the other; a name seen before is overwritten. */
  function Stored(members: seq<Member>, entries: seq<Entry>): seq<Member>
    decreases entries
  {
    if entries == [] then members
    else Stored(Put(members, MeaningAll(entries[0].name), ValueOf(entries[0].value)), entries[1..])
  }

  /** Every numeral is an integer that fits, or one that `decodeDouble` takes. */
  predicate Readable(j: Json, isDouble: string -> bool) {
    match j
    case Num(n) => N.DecodedInteger(NumeralText(n)).Some? || isDouble(NumeralText(n))
    case List(_, items) => forall i | 0 <= i < |items| :: Readable(items[i].value, isDouble)
    case Record(_, entries) => forall i | 0 <= i < |entries| :: Readable(entries[i].value, isDouble)
    case _ => true
  }

  /** Nested activations of `readValue`. */
  function Depth(j: Json): nat {
    match j
    case List(_, items) => 1 + ItemsDepth(items)
    case Record(_, entries) => 1 + EntriesDepth(entries)
    case _ => 1
  }

  function ItemsDepth(items: seq<Item>): nat {
    if items == [] then 0 else Max(Depth(items[0].value), ItemsDepth(items[1..]))
  }

  function EntriesDepth(entries: seq<Entry>): nat {
    if entries == [] then 0 else Max(Depth(entries[0].value), EntriesDepth(entries[1..]))
  }

  // ---- members ----

  /** The members of an object are those of its names, each with its last value. */
  lemma {:induction false} LastMemberWins(members: seq<Member>, entries: seq<Entry>)
    requires SortedKeys(members)
    ensures SortedKeys(Stored(members, entries))
    ensures forall i | 0 <= i < |entries| && IsLast(entries, i) ::
      Member(MeaningAll(entries[i].name), ValueOf(entries[i].value)) in Stored(members, entries)
    ensures forall m | m in Stored(members, entries) ::
      || (m in members && forall i | 0 <= i < |entries| :: MeaningAll(entries[i].name) != m.name)
      || exists i | 0 <= i < |entries| ::
           IsLast(entries, i) && m == Member(MeaningAll(entries[i].name), ValueOf(entries[i].value))
    decreases |entries|
  {
    hide Put, ValueOf, MeaningAll, SortedKeys;
    if entries != [] {
      var name, value, rest := MeaningAll(entries[0].name), ValueOf(entries[0].value), entries[1..];
      var next := Put(members, name, value);
      PutIsMapUpdate(members, name, value);
      LastMemberWins(next, rest);
      FirstStays(next, rest, Member(name, value));
      forall i | 0 <= i < |entries| && IsLast(entries, i)
        ensures Member(MeaningAll(entries[i].name), ValueOf(entries[i].value)) in Stored(next, rest)
      {
        if i > 0 {
          assert rest[i - 1] == entries[i];
          assert IsLast(rest, i - 1) by { assert forall j | i <= j < |rest| :: rest[j] == entries[j + 1]; }
        } else {
          assert forall j | 0 <= j < |rest| :: rest[j] == entries[j + 1];
        }
      }
      forall m | m in Stored(next, rest)
        ensures
          || (m in members && forall i | 0 <= i < |entries| :: MeaningAll(entries[i].name) != m.name)
          || exists i | 0 <= i < |entries| ::
               IsLast(entries, i) && m == Member(MeaningAll(entries[i].name), ValueOf(entries[i].value))
      {
        if i :| 0 <= i < |rest| && IsLast(rest, i) && m == Member(MeaningAll(rest[i].name), ValueOf(rest[i].value)) {
          assert entries[i + 1] == rest[i];
          assert IsLast(entries, i + 1) by { assert forall j | i + 1 < j < |entries| :: entries[j] == rest[j - 1]; }
        } else {
          assert forall j | 1 <= j < |entries| :: entries[j] == rest[j - 1];
          if m == Member(name, value) { assert IsLast(entries, 0); }
        }
      }
    }
  }

  /** No later entry has the same name. */
  predicate IsLast(entries: seq<Entry>, i: nat)
    requires i < |entries|
  {
    forall j | i < j < |entries| :: MeaningAll(entries[j].name) != MeaningAll(entries[i].name)
  }

  /** A member whose name does not come again stays. */
  lemma {:induction false} FirstStays(members: seq<Member>, entries: seq<Entry>, m: Member)
    requires SortedKeys(members) && m in members
    ensures (forall i | 0 <= i < |entries| :: MeaningAll(entries[i].name) != m.name) ==> m in Stored(members, entries)
    decreases |entries|
  {
    hide Put, ValueOf, MeaningAll, SortedKeys;
    if entries != [] && forall i | 0 <= i < |entries| :: MeaningAll(entries[i].name) != m.name {
      PutIsMapUpdate(members, MeaningAll(entries[0].name), ValueOf(entries[0].value));
      assert forall i | 0 <= i < |entries[1..]| :: entries[1..][i] == entries[i + 1];
      FirstStays(Put(members, MeaningAll(entries[0].name), ValueOf(entries[0].value)), entries[1..], m);
    }
  }
}
