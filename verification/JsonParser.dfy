/** What `Json::Reader::parse` computes, as functions of the document: the value
    and the position after it, the one error it records, or the exception it
    throws when values nest deeper than `stackLimit_g`. */
module JsonParser {
  import opened JsonValue
  import opened JsonOrder
  import JsonNumber
  import opened JsonString
  import L = JsonLexer

  const STACK_LIMIT: nat := 1000

  /** `ErrorInfo`. */
  datatype Error = Error(kind: ErrorKind, token: L.Token, extra: Option<nat>)

  datatype Parsed =
    | Done(value: Value, pos: nat)
    | Failed(error: Error, pos: nat)
    | Threw

  /** `(*map)[name] = value` on entries in key order: an existing entry is overwritten. */
  function Put(members: seq<Member>, name: string, value: Value): seq<Member> {
    if members == [] then [Member(name, value)]
    else if members[0].name == name then [Member(name, value)] + members[1..]
    else if KeyLess(name, members[0].name) then [Member(name, value)] + members
    else [members[0]] + Put(members[1..], name, value)
  }

  /** `decodeNumber`: an integer if it fits, else whatever `decodeDouble` says;
      `isDouble` stands for the stream extraction of a double. */
  function NumberValue(doc: string, t: L.Token, isDouble: string -> bool): (r: Parsed)
    requires t.start < t.end <= |doc|
    ensures !r.Threw? && r.pos == t.end
    ensures r.Done? ==> !r.value.IsContainer()
  {
    var text := doc[t.start..t.end];
    match JsonNumber.DecodedInteger(text)
    case Some(v) => Done(v, t.end)
    case None => if isDouble(text) then Done(Real(text), t.end) else Failed(Error(NotANumber, t, None), t.end)
  }

  function StringValue(doc: string, t: L.Token): Decoded
    requires t.start + 2 <= t.end <= |doc|
  {
    DecodeFrom(doc, t.start + 1, t.end - 1)
  }

  /** `recoverFromError` after an error: the error stays, the reader moves on. */
  function Recover(doc: string, pos: nat, kind: L.TokenType, error: Error): (r: Parsed)
    requires pos <= |doc|
    ensures r.Failed? && pos <= r.pos <= |doc|
  {
    Failed(error, L.RecoveryEnd(doc, pos, kind))
  }

  /** `readValue`, entered with `depth` activations already on the stack. */
  function ReadValue(doc: string, p: nat, depth: nat, isDouble: string -> bool): (r: Parsed)
    requires p <= |doc|
    ensures r.Done? ==> p < r.pos <= |doc|
    ensures r.Failed? ==> p <= r.pos <= |doc|
    decreases |doc| - p, 0
  {
    if depth >= STACK_LIMIT then Threw
    else
      var t := L.NextToken(doc, p);
      match t.kind
      case ObjectBegin => ReadMembers(doc, t.end, depth + 1, isDouble, [], "")
      case ArrayBegin => ReadArray(doc, t.end, depth + 1, isDouble)
      case Number => NumberValue(doc, t, isDouble)
      case String => (
        match StringValue(doc, t)
        case Text(s) => Done(Str(s), t.end)
        case Bad(kind, extra) => Failed(Error(kind, t, Some(extra)), t.end))
      case True => Done(Bool(true), t.end)
      case False => Done(Bool(false), t.end)
      case NullToken => Done(Null, t.end)
      case _ => Failed(Error(ValueExpected, t, None), t.end)
  }

  function ReadArray(doc: string, p: nat, depth: nat, isDouble: string -> bool): (r: Parsed)
    requires p <= |doc|
    ensures r.Done? ==> p < r.pos <= |doc|
    ensures r.Failed? ==> p <= r.pos <= |doc|
    decreases |doc| - p, 2
  {
    var q := L.SpacesEnd(doc, p);
    if L.At(doc, q) == ']' then Done(Arr([]), L.ReadToken(doc, q).end)
    else ReadElements(doc, q, depth, isDouble, [])
  }

  /** The loop of `readArray`, with the elements read so far. */
  function ReadElements(doc: string, p: nat, depth: nat, isDouble: string -> bool, elems: seq<Value>): (r: Parsed)
    requires p <= |doc|
    ensures r.Done? ==> p < r.pos <= |doc|
    ensures r.Failed? ==> p <= r.pos <= |doc|
    decreases |doc| - p, 1
  {
    match ReadValue(doc, p, depth, isDouble)
    case Threw => Threw
    case Failed(error, q) => Recover(doc, q, L.ArrayEnd, error)
    case Done(v, q) =>
      var t := L.NextToken(doc, q);
      if t.kind == L.ArrayEnd then Done(Arr(elems + [v]), t.end)
      else if t.kind == L.ArraySeparator then ReadElements(doc, t.end, depth, isDouble, elems + [v])
      else Recover(doc, t.end, L.ArrayEnd, Error(ArrayCommaExpected, t, None))
  }

  /** One round of the loop of `readObject`, up to the colon. */
  datatype NameRead = Close(pos: nat) | Name(name: string, pos: nat) | BadName(error: Error, pos: nat)

  function ReadName(doc: string, p: nat, lastName: string): (r: NameRead)
    requires p <= |doc|
    ensures p < r.pos <= |doc| || (r.BadName? && p <= r.pos <= |doc|)
  {
    var t := L.NextToken(doc, p);
    if t.kind == L.ObjectEnd && lastName == "" then Close(t.end)
    else if t.kind != L.String then BadName(Error(MemberNameExpected, t, None), t.end)
    else
      match StringValue(doc, t)
      case Bad(kind, extra) => BadName(Error(kind, t, Some(extra)), t.end)
      case Text(name) =>
        var colon := L.ReadToken(doc, t.end);
        if colon.kind == L.MemberSeparator then Name(name, colon.end)
        else BadName(Error(ColonExpected, colon, None), colon.end)
  }

  /** One round of the loop of `readObject`, after the member's value. */
  datatype CommaRead = Last(pos: nat) | More(pos: nat) | BadComma(error: Error, pos: nat)

  function ReadComma(doc: string, p: nat): (r: CommaRead)
    requires p <= |doc|
    ensures p <= r.pos <= |doc|
  {
    var comma := L.ReadToken(doc, p);
    if comma.kind != L.ObjectEnd && comma.kind != L.ArraySeparator && comma.kind != L.Comment then
      BadComma(Error(ObjectCommaExpected, comma, None), comma.end)
    else
      var last := L.NextToken(doc, p);
      if last.kind == L.ObjectEnd then Last(last.end) else More(last.end)
  }

  /** The loop of `readObject`, with the members read so far and the last name. */
  function ReadMembers(doc: string, p: nat, depth: nat, isDouble: string -> bool, members: seq<Member>,
                       lastName: string): (r: Parsed)
    requires p <= |doc|
    ensures r.Done? ==> p < r.pos <= |doc|
    ensures r.Failed? ==> p <= r.pos <= |doc|
    decreases |doc| - p, 1
  {
    match ReadName(doc, p, lastName)
    case Close(pos) => Done(Obj(members), pos)
    case BadName(error, pos) => Recover(doc, pos, L.ObjectEnd, error)
    case Name(name, pos) =>
      match ReadValue(doc, pos, depth, isDouble)
      case Threw => Threw
      case Failed(error, q) => Recover(doc, q, L.ObjectEnd, error)
      case Done(v, q) =>
        match ReadComma(doc, q)
        case BadComma(error, r) => Recover(doc, r, L.ObjectEnd, error)
        case Last(r) => Done(Obj(Put(members, name, v)), r)
        case More(r) => ReadMembers(doc, r, depth, isDouble, Put(members, name, v), name)
  }

  /** `parse`, with the default features. */
  function Parse(doc: string, isDouble: string -> bool): Parsed {
    ReadValue(doc, 0, 0, isDouble)
  }

  // ---- nesting ----

  /** Number of opening brackets and braces from `p` on. */
  function Openers(doc: string, p: nat): nat
    requires p <= |doc|
    decreases |doc| - p
  {
    if p == |doc| then 0 else (if doc[p] == '{' || doc[p] == '[' then 1 else 0) + Openers(doc, p + 1)
  }

  lemma {:induction false} OpenersMonotone(doc: string, p: nat, q: nat)
    requires p <= q <= |doc|
    ensures Openers(doc, q) <= Openers(doc, p)
    decreases q - p
  {
    if p < q { OpenersMonotone(doc, p + 1, q); }
  }

  /** An opening token accounts for one of the brackets in front of its end. */
  lemma OpenerCounts(doc: string, p: nat)
    requires p <= |doc|
    requires L.NextToken(doc, p).kind == L.ObjectBegin || L.NextToken(doc, p).kind == L.ArrayBegin
    ensures Openers(doc, L.NextToken(doc, p).end) < Openers(doc, p)
  {
    var t := L.NextToken(doc, p);
    NextTokenIsRead(doc, p);
    OpenersMonotone(doc, p, t.start);
    OpenersMonotone(doc, t.start + 1, t.end);
  }

  lemma {:induction false} NextTokenIsRead(doc: string, p: nat)
    requires p <= |doc|
    ensures exists q :: p <= q <= |doc| && L.NextToken(doc, p) == L.ReadToken(doc, q)
    decreases |doc| - p
  {
    var t := L.ReadToken(doc, p);
    if t.kind == L.Comment { NextTokenIsRead(doc, t.end); }
  }

  /** The reader throws only on a document with more opening brackets than the
      stack limit leaves room for. */
  lemma {:induction false} ThrowNeedsNesting(doc: string, p: nat, depth: nat, isDouble: string -> bool)
    requires p <= |doc| && ReadValue(doc, p, depth, isDouble).Threw?
    ensures depth + Openers(doc, p) >= STACK_LIMIT
    decreases |doc| - p, 0
  {
    hide Openers, L.NextToken, L.ReadToken, L.SpacesEnd, NumberValue, StringValue, ReadMembers, ReadElements;
    if depth < STACK_LIMIT {
      var t := L.NextToken(doc, p);
      OpenerCounts(doc, p);
      if t.kind == L.ObjectBegin {
        ThrowInMembers(doc, t.end, depth + 1, isDouble, [], "");
      } else {
        var q := L.SpacesEnd(doc, t.end);
        ThrowInElements(doc, q, depth + 1, isDouble, []);
        OpenersMonotone(doc, t.end, q);
      }
    }
  }

  lemma {:induction false} ThrowInElements(doc: string, p: nat, depth: nat, isDouble: string -> bool, elems: seq<Value>)
    requires p <= |doc| && ReadElements(doc, p, depth, isDouble, elems).Threw?
    ensures depth + Openers(doc, p) >= STACK_LIMIT
    decreases |doc| - p, 1
  {
    match ReadValue(doc, p, depth, isDouble)
    case Threw => ThrowNeedsNesting(doc, p, depth, isDouble);
    case Done(v, q) =>
      var t := L.NextToken(doc, q);
      ThrowInElements(doc, t.end, depth, isDouble, elems + [v]);
      OpenersMonotone(doc, p, t.end);
    case Failed(_, _) =>
  }

  lemma {:induction false} ThrowInMembers(doc: string, p: nat, depth: nat, isDouble: string -> bool,
                                          members: seq<Member>, name: string)
    requires p <= |doc| && ReadMembers(doc, p, depth, isDouble, members, name).Threw?
    ensures depth + Openers(doc, p) >= STACK_LIMIT
    decreases |doc| - p, 1
  {
    hide Openers, ReadName, ReadComma;
    var n := ReadName(doc, p, name);
    OpenersMonotone(doc, p, n.pos);
    match ReadValue(doc, n.pos, depth, isDouble)
    case Threw => ThrowNeedsNesting(doc, n.pos, depth, isDouble);
    case Done(v, q) =>
      var r := ReadComma(doc, q).pos;
      ThrowInMembers(doc, r, depth, isDouble, Put(members, n.name, v), n.name);
      OpenersMonotone(doc, p, r);
    case Failed(_, _) =>
  }

  // ---- objects are maps ----

  /** Whatever the document, `Put` keeps the entries in key order without
      duplicates, stores the value under the name and leaves other names alone. */
  lemma {:induction false} PutIsMapUpdate(members: seq<Member>, name: string, value: Value)
    requires SortedKeys(members)
    ensures SortedKeys(Put(members, name, value))
    ensures forall m :: m in Put(members, name, value) <==> m == Member(name, value) || (m in members && m.name != name)
  {
    hide KeyLess;
    if members != [] {
      var head, tail := members[0], members[1..];
      KeyTrichotomy(name, head.name);
      assert members == [head] + tail;
      HeadIsLeast(members, name);
      if name == head.name || KeyLess(name, head.name) {
        assert forall m :: m in tail ==> m.name != name;
      } else {
        PutIsMapUpdate(tail, name, value);
        var rest := Put(tail, name, value);
        forall j | 0 <= j < |rest| ensures KeyLess(head.name, rest[j].name) {
          assert rest[j] in rest;
        }
      }
    }
  }

  lemma HeadIsLeast(members: seq<Member>, name: string)
    requires SortedKeys(members) && members != []
    ensures forall m :: m in members[1..] ==> KeyLess(members[0].name, m.name) && m.name != members[0].name
    ensures KeyLess(name, members[0].name) ==> forall m :: m in members ==> KeyLess(name, m.name) && m.name != name
  {
    hide KeyLess;
    var head := members[0].name;
    forall m | m in members[1..] ensures KeyLess(head, m.name) && m.name != head {
      KeyTrichotomy(head, m.name);
    }
    if KeyLess(name, head) {
      forall m | m in members ensures KeyLess(name, m.name) && m.name != name {
        if m != members[0] {
          assert m in members[1..];
          KeyTransitive(name, head, m.name);
        }
        KeyTrichotomy(name, m.name);
      }
    }
  }

  lemma {:induction false} ReadKeepsSorted(doc: string, p: nat, depth: nat, isDouble: string -> bool)
    requires p <= |doc|
    ensures var r := ReadValue(doc, p, depth, isDouble); r.Done? ==> Sorted(r.value)
    decreases |doc| - p, 0
  {
    hide L.NextToken, L.ReadToken, L.SpacesEnd, StringValue, JsonNumber.DecodedInteger, ReadMembers, ReadElements;
    if depth < STACK_LIMIT {
      var t := L.NextToken(doc, p);
      if t.kind == L.ObjectBegin {
        MembersKeepSorted(doc, t.end, depth + 1, isDouble, [], "");
      } else if t.kind == L.ArrayBegin {
        var q := L.SpacesEnd(doc, t.end);
        if L.At(doc, q) != ']' { ElementsKeepSorted(doc, q, depth + 1, isDouble, []); }
      }
    }
  }

  /** Every object in the tree is a map. */
  predicate Sorted(v: Value) {
    match v
    case Arr(e) => forall i | 0 <= i < |e| :: Sorted(e[i])
    case Obj(m) => SortedKeys(m) && forall i | 0 <= i < |m| :: Sorted(m[i].value)
    case _ => true
  }

  lemma {:induction false} ElementsKeepSorted(doc: string, p: nat, depth: nat, isDouble: string -> bool,
                                              elems: seq<Value>)
    requires p <= |doc| && forall i | 0 <= i < |elems| :: Sorted(elems[i])
    ensures var r := ReadElements(doc, p, depth, isDouble, elems); r.Done? ==> Sorted(r.value)
    decreases |doc| - p, 1
  {
    ReadKeepsSorted(doc, p, depth, isDouble);
    match ReadValue(doc, p, depth, isDouble)
    case Done(v, q) =>
      var t := L.NextToken(doc, q);
      if t.kind == L.ArraySeparator { ElementsKeepSorted(doc, t.end, depth, isDouble, elems + [v]); }
    case _ =>
  }

  lemma {:induction false} MembersKeepSorted(doc: string, p: nat, depth: nat, isDouble: string -> bool,
                                             members: seq<Member>, name: string)
    requires p <= |doc| && SortedKeys(members) && forall i | 0 <= i < |members| :: Sorted(members[i].value)
    ensures var r := ReadMembers(doc, p, depth, isDouble, members, name); r.Done? ==> Sorted(r.value)
    decreases |doc| - p, 1
  {
    hide ReadName, ReadComma, Put;
    var n := ReadName(doc, p, name);
    if n.Name? {
      ReadKeepsSorted(doc, n.pos, depth, isDouble);
      match ReadValue(doc, n.pos, depth, isDouble)
      case Done(v, q) =>
        var grown := Put(members, n.name, v);
        PutIsMapUpdate(members, n.name, v);
        forall i | 0 <= i < |grown| ensures Sorted(grown[i].value) {
          assert grown[i] in grown;
        }
        var c := ReadComma(doc, q);
        if c.More? { MembersKeepSorted(doc, c.pos, depth, isDouble, grown, n.name); }
      case _ =>
    }
  }
}
