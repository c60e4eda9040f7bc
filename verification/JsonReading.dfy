/** Every JSON text reads as its value: tokens, scalars, arrays and objects. */
module JsonReading {
  import opened JsonValue
  import opened JsonOrder
  import opened JsonString
  import opened JsonText
  import opened JsonParser
  import opened JsonGrammar
  import N = JsonNumber
  import L = JsonLexer

  // ---- tokens ----

  lemma {:induction false} SpacesSkipped(doc: string, p: nat, white: string)
    requires White(white) && Occurs(doc, p, white)
    ensures L.SpacesEnd(doc, p) == L.SpacesEnd(doc, p + |white|)
    decreases |white|
  {
    if white != "" {
      assert doc[p] == white[0];
      OccursSplit(doc, p, white[..1], white[1..]);
      assert white == white[..1] + white[1..];
      SpacesSkipped(doc, p + 1, white[1..]);
    }
  }

  /** Whitespace in front of a token changes nothing. */
  lemma TokenAfterSpaces(doc: string, p: nat, white: string)
    requires White(white) && Occurs(doc, p, white)
    ensures L.ReadToken(doc, p) == L.ReadToken(doc, p + |white|)
    ensures L.NextToken(doc, p) == L.NextToken(doc, p + |white|)
  {
    SpacesSkipped(doc, p, white);
  }

  lemma ValueAfterSpaces(doc: string, p: nat, white: string, depth: nat, isDouble: string -> bool)
    requires White(white) && Occurs(doc, p, white)
    ensures ReadValue(doc, p, depth, isDouble) == ReadValue(doc, p + |white|, depth, isDouble)
  {
    hide L.NextToken, L.ReadToken, NumberValue, StringValue, ReadMembers, ReadArray, Occurs;
    TokenAfterSpaces(doc, p, white);
  }

  lemma PunctuationRead(doc: string, p: nat, c: char)
    requires Occurs(doc, p, [c]) && c in "{}[],:"
    ensures L.ReadToken(doc, p) == L.NextToken(doc, p) == L.Token(L.Punctuation(c), p, p + 1)
  {
    assert doc[p] == [c][0];
    assert L.SpacesEnd(doc, p) == p;
  }

  lemma KeywordRead(doc: string, p: nat, v: Value)
    requires (v.Null? || v.Bool?) && Occurs(doc, p, Atom(v))
    ensures L.NextToken(doc, p)
              == L.Token(if v.Null? then L.NullToken else if v.b then L.True else L.False, p, p + |Atom(v)|)
  {
    var w := if v.Null? then "null" else if v.b then "true" else "false";
    assert Atom(v) == w;
    hide Atom;
    assert doc[p] == w[0];
    assert L.SpacesEnd(doc, p) == p;
    assert doc[p + 1..p + |w|] == w[1..];
  }

  /** The text ends here for a numeral. */
  predicate NumberStops(doc: string, p: nat) {
    p < |doc| ==> !N.IsDigit(doc[p]) && doc[p] != '.' && doc[p] != 'e' && doc[p] != 'E'
  }

  lemma {:induction false} DigitsRun(doc: string, p: nat, q: nat)
    requires p <= q <= |doc| && (forall i | p <= i < q :: N.IsDigit(doc[i])) && DigitsStop(doc, q)
    ensures L.DigitsEnd(doc, p) == q
    decreases q - p
  {
    if p < q { DigitsRun(doc, p + 1, q); }
  }

  /** A character that cannot continue digits. */
  predicate DigitsStop(doc: string, p: nat) { p < |doc| ==> !N.IsDigit(doc[p]) }

  /** The whole numeral is one token. */
  lemma NumeralRead(doc: string, p: nat, n: Numeral)
    requires LegalNumeral(n) && Occurs(doc, p, NumeralText(n)) && NumberStops(doc, p + |NumeralText(n)|)
    ensures L.NextToken(doc, p) == L.Token(L.Number, p, p + |NumeralText(n)|)
    ensures doc[p..p + |NumeralText(n)|] == NumeralText(n)
  {
    hide L.DigitsEnd, L.StringEnd, L.CommentEnd, L.Keyword, L.FractionEnd, L.ExponentEnd;
    hide Occurs, NumberStops, LegalNumeral, NumeralText;
    var w := NumeralText(n);
    var a := WholeRead(doc, p, n);
    FractionRead(doc, a, n);
    ExponentRead(doc, a + |n.fraction|, n);
    assert L.ReadToken(doc, p) == L.Token(L.Number, p, p + |w|);
    SliceOccurs(doc, p, w);
  }

  lemma SliceOccurs(doc: string, p: nat, w: string)
    requires Occurs(doc, p, w)
    ensures p + |w| <= |doc| && doc[p..p + |w|] == w
  {
  }

  /** The sign and the digits before a point. */
  lemma WholeRead(doc: string, p: nat, n: Numeral) returns (a: nat)
    requires LegalNumeral(n) && Occurs(doc, p, NumeralText(n)) && NumberStops(doc, p + |NumeralText(n)|)
    ensures a == p + |NumeralText(n)| - |n.fraction| - |n.exponent| && p < a <= |doc|
    ensures doc[p] == '-' || N.IsDigit(doc[p])
    ensures L.SpacesEnd(doc, p) == p && L.DigitsEnd(doc, p + 1) == a
    ensures Occurs(doc, a, n.fraction + n.exponent) && NumberStops(doc, a + |n.fraction| + |n.exponent|)
  {
    var sign := if n.minus then "-" else "";
    var head := sign + n.whole;
    assert NumeralText(n) == head + (n.fraction + n.exponent);
    OccursSplit(doc, p, head, n.fraction + n.exponent);
    OccursSplit(doc, p, sign, n.whole);
    a := p + |head|;
    assert forall i | p + |sign| <= i < a :: doc[i] == n.whole[i - p - |sign|];
    assert n.minus ==> doc[p] == sign[0];
    EndsDigits(doc, a, n.fraction + n.exponent);
    DigitsRun(doc, p + 1, a);
  }

  /** What may follow the digits does not continue them. */
  lemma EndsDigits(doc: string, a: nat, rest: string)
    requires Occurs(doc, a, rest) && NumberStops(doc, a + |rest|)
    requires rest == "" || !N.IsDigit(rest[0])
    ensures DigitsStop(doc, a)
  {
    if rest != "" { assert doc[a] == rest[0]; }
  }

  lemma FractionRead(doc: string, a: nat, n: Numeral)
    requires LegalNumeral(n) && Occurs(doc, a, n.fraction + n.exponent)
             && NumberStops(doc, a + |n.fraction| + |n.exponent|)
    ensures a + |n.fraction| <= |doc| && L.FractionEnd(doc, a) == a + |n.fraction|
    ensures Occurs(doc, a + |n.fraction|, n.exponent)
  {
    hide NumeralText;
    OccursSplit(doc, a, n.fraction, n.exponent);
    var b := a + |n.fraction|;
    EndsDigits(doc, b, n.exponent);
    if n.fraction != "" {
      assert doc[a] == n.fraction[0];
      assert forall i | a + 1 <= i < b :: doc[i] == n.fraction[1..][i - a - 1];
      DigitsRun(doc, a + 1, b);
    } else if n.exponent != "" {
      assert doc[a] == n.exponent[0];
    }
  }

  lemma DigitAt(t: string, i: nat)
    requires N.AllDigits(t) && i < |t|
    ensures N.IsDigit(t[i])
  {
  }

  /** Digits at the end of a numeral. */
  lemma DigitsOccur(doc: string, p: nat, t: string)
    requires N.AllDigits(t) && Occurs(doc, p, t) && DigitsStop(doc, p + |t|)
    ensures p + |t| <= |doc| && L.DigitsEnd(doc, p) == p + |t|
  {
    assert forall i | p <= i < p + |t| :: doc[i] == t[i - p];
    DigitsRun(doc, p, p + |t|);
  }

  lemma ExponentRead(doc: string, b: nat, n: Numeral)
    requires LegalNumeral(n) && Occurs(doc, b, n.exponent) && NumberStops(doc, b + |n.exponent|)
    ensures b + |n.exponent| <= |doc| && L.ExponentEnd(doc, b) == b + |n.exponent|
  {
    hide L.DigitsEnd, N.AllDigits;
    var t, q := n.exponent, b + |n.exponent|;
    OccursInside(doc, b, t);
    if t == "" {
    } else {
      var k := if Digits(t[1..]) then 1 else 2;
      assert doc[b] == t[0] && doc[b + 1] == t[1];
      assert N.IsDigit(t[k]) by { assert t[k..][0] == t[k]; DigitAt(t[k..], 0); }
      OccursSplit(doc, b, t[..k], t[k..]);
      assert t[..k] + t[k..] == t;
      DigitsOccur(doc, b + k, t[k..]);
    }
  }

  lemma {:induction false} StringRun(doc: string, p: nat, xs: seq<Piece>)
    requires LegalPieces(xs) && Occurs(doc, p, SpellAll(xs))
    ensures L.StringEnd(doc, p) == L.StringEnd(doc, p + |SpellAll(xs)|)
    decreases |xs|
  {
    hide Spell, LegalPiece, L.StringEnd;
    if xs != [] {
      OccursSplit(doc, p, Spell(xs[0]), SpellAll(xs[1..]));
      PieceRun(doc, p, xs[0]);
      StringRun(doc, p + |Spell(xs[0])|, xs[1..]);
    }
  }

  lemma PieceRun(doc: string, p: nat, x: Piece)
    requires LegalPiece(x) && Occurs(doc, p, Spell(x))
    ensures L.StringEnd(doc, p) == L.StringEnd(doc, p + |Spell(x)|)
  {
    hide EscapeUnit, Hex;
    match x
    case Raw(c) => OrdinaryRun(doc, p, [c]);
    case Short(e) => BackslashRun(doc, p, e);
    case Code(cp, caps) =>
      if cp <= 0xFFFF {
        UnitRun(doc, p, cp, caps);
      } else {
        var high, low := Surrogates(cp);
        OccursSplit(doc, p, EscapeUnit(high, caps / 16), EscapeUnit(low, caps));
        UnitRun(doc, p, high, caps / 16);
        UnitRun(doc, p + 6, low, caps);
      }
  }

  lemma UnitRun(doc: string, p: nat, u: nat, caps: nat)
    requires u <= 0xFFFF && Occurs(doc, p, EscapeUnit(u, caps))
    ensures L.StringEnd(doc, p) == L.StringEnd(doc, p + 6)
  {
    hide Hex, L.StringEnd;
    OccursSplit(doc, p, ['\\', 'u'], Hex(u, 4, caps));
    BackslashRun(doc, p, 'u');
    HexOrdinary(u, 4, caps);
    OrdinaryRun(doc, p + 2, Hex(u, 4, caps));
  }

  lemma BackslashRun(doc: string, p: nat, c: char)
    requires Occurs(doc, p, ['\\', c])
    ensures L.StringEnd(doc, p) == L.StringEnd(doc, p + 2)
  {
    assert doc[p] == ['\\', c][0] && doc[p + 1] == ['\\', c][1];
  }

  lemma {:induction false} OrdinaryRun(doc: string, p: nat, t: string)
    requires (forall i | 0 <= i < |t| :: t[i] != '"' && t[i] != '\\') && Occurs(doc, p, t)
    ensures L.StringEnd(doc, p) == L.StringEnd(doc, p + |t|)
    decreases |t|
  {
    if t != "" {
      assert doc[p] == t[0];
      assert t == t[..1] + t[1..];
      OccursSplit(doc, p, t[..1], t[1..]);
      OrdinaryRun(doc, p + 1, t[1..]);
    }
  }

  /** A string literal is one token, however it is spelled, and decodes to its meaning. */
  lemma LiteralRead(doc: string, p: nat, xs: seq<Piece>)
    requires LegalPieces(xs) && Occurs(doc, p, "\"" + SpellAll(xs) + "\"")
    ensures L.NextToken(doc, p) == L.ReadToken(doc, p) == L.Token(L.String, p, p + |SpellAll(xs)| + 2)
    ensures StringValue(doc, L.NextToken(doc, p)) == Text(MeaningAll(xs))
  {
    hide SpellAll, MeaningAll, LegalPieces, DecodeFrom;
    var body := SpellAll(xs);
    OccursSplit(doc, p, "\"" + body, "\"");
    OccursSplit(doc, p, "\"", body);
    assert doc[p] == "\""[0] && doc[p + 1 + |body|] == "\""[0];
    assert L.SpacesEnd(doc, p) == p;
    StringRun(doc, p + 1, xs);
    SpellingDecodes(doc, p + 1, xs);
  }

  // ---- values ----

  /** The result of reading a text that ends at `q`. */
  function Expected(j: Json, q: nat, depth: nat): Parsed {
    if depth + Depth(j) <= STACK_LIMIT then Done(ValueOf(j), q) else Threw
  }

  lemma ScalarRead(doc: string, p: nat, j: Json, depth: nat, isDouble: string -> bool)
    requires !j.List? && !j.Record? && Legal(j) && Readable(j, isDouble)
    requires Occurs(doc, p, TextOf(j)) && NumberStops(doc, p + |TextOf(j)|)
    ensures ReadValue(doc, p, depth, isDouble) == Expected(j, p + |TextOf(j)|, depth)
  {
    hide L.NextToken, StringValue, Atom, SpellAll, MeaningAll, NumeralText, N.DecodedInteger, LegalNumeral, LegalPieces;
    if j.Word? {
      KeywordRead(doc, p, j.v);
    } else if j.Lit? {
      LiteralRead(doc, p, j.pieces);
    } else {
      NumeralRead(doc, p, j.n);
    }
  }

  /** Reading a text yields its value, or throws when it nests deeper than the stack
      limit leaves room for. */
  lemma {:induction false} JsonReads(doc: string, p: nat, j: Json, depth: nat, isDouble: string -> bool)
    requires Legal(j) && Readable(j, isDouble)
    requires Occurs(doc, p, TextOf(j)) && NumberStops(doc, p + |TextOf(j)|)
    ensures ReadValue(doc, p, depth, isDouble) == Expected(j, p + |TextOf(j)|, depth)
    decreases j, 2
  {
    hide ReadValue, Occurs, Expected, NumberStops;
    if j.List? {
      ListReads(doc, p, j, depth, isDouble);
    } else if j.Record? {
      RecordReads(doc, p, j, depth, isDouble);
    } else {
      ScalarRead(doc, p, j, depth, isDouble);
    }
  }

  lemma {:induction false} ListReads(doc: string, p: nat, j: Json, depth: nat, isDouble: string -> bool)
    requires j.List? && Legal(j) && Readable(j, isDouble) && Occurs(doc, p, TextOf(j))
    ensures ReadValue(doc, p, depth, isDouble) == Expected(j, p + |TextOf(j)|, depth)
    decreases j, 0
  {
    hide L.NextToken, L.ReadToken, L.SpacesEnd, ReadValue, ReadArray, TextOf, ItemsText, Occurs, White;
    hide Legal, LegalItems, Readable, ValueOf, ItemValues, Depth, ItemsDepth, AfterElement, NumberStops;
    ListParts(j, isDouble);
    var inner := if j.items == [] then j.inside else ItemsText(j.items);
    OccursSplit(doc, p, "[" + inner, "]");
    OccursSplit(doc, p, "[", inner);
    PunctuationRead(doc, p, '[');
    ContainerStep(doc, p, depth, isDouble);
    NoEntries();
    if j.items == [] {
      EmptyArrayReads(doc, p + 1, inner, depth + 1, isDouble);
    } else {
      ArrayCloses(doc, p + 1 + |inner|, depth + 1, isDouble, ItemValues(j.items));
      ItemsRead(doc, p + 1, j.items, depth + 1, isDouble, []);
      ArrayStep(doc, p + 1, j.items, depth + 1, isDouble);
      assert [] + ItemValues(j.items) == ItemValues(j.items);
    }
  }

  lemma ArrayCloses(doc: string, p: nat, depth: nat, isDouble: string -> bool, read: seq<Value>)
    requires Occurs(doc, p, "]")
    ensures NumberStops(doc, p) && p <= |doc| && AfterElement(doc, p, depth, isDouble, read) == Done(Arr(read), p + 1)
  {
    hide L.NextToken, L.ReadToken, Occurs, NumberStops;
    PunctuationRead(doc, p, ']');
    PunctuationStops(doc, p, ']');
    OccursInside(doc, p, "]");
  }

  lemma ObjectCloses(doc: string, p: nat, depth: nat, isDouble: string -> bool, read: seq<Member>, name: string)
    requires Occurs(doc, p, "}")
    ensures NumberStops(doc, p) && p <= |doc|
    ensures AfterMember(doc, p, depth, isDouble, read, name) == Done(Obj(read), p + 1)
  {
    hide ReadComma, Occurs, NumberStops;
    CommaReads(doc, p, '}');
    PunctuationStops(doc, p, '}');
    OccursInside(doc, p, "}");
  }

  lemma ListParts(j: Json, isDouble: string -> bool)
    requires j.List? && Legal(j) && Readable(j, isDouble)
    ensures LegalItems(j.items) && White(j.inside)
    ensures forall i | 0 <= i < |j.items| :: Readable(j.items[i].value, isDouble)
    ensures ValueOf(j) == Arr(ItemValues(j.items)) && Depth(j) == 1 + ItemsDepth(j.items)
    ensures TextOf(j) == "[" + (if j.items == [] then j.inside else ItemsText(j.items)) + "]"
  {
  }

  lemma RecordParts(j: Json, isDouble: string -> bool)
    requires j.Record? && Legal(j) && Readable(j, isDouble)
    ensures LegalEntries(j.entries) && White(j.inside)
    ensures forall i | 0 <= i < |j.entries| :: Readable(j.entries[i].value, isDouble)
    ensures ValueOf(j) == Obj(Stored([], j.entries)) && Depth(j) == 1 + EntriesDepth(j.entries)
    ensures TextOf(j) == "{" + (if j.entries == [] then j.inside else EntriesText(j.entries)) + "}"
  {
  }

  lemma NoEntries()
    ensures ItemValues([]) == [] && (forall m :: Stored(m, []) == m)
    ensures ItemsDepth([]) == EntriesDepth([]) == 0
  {
  }

  lemma EmptyArrayReads(doc: string, p: nat, white: string, depth: nat, isDouble: string -> bool)
    requires White(white) && Occurs(doc, p, white) && Occurs(doc, p + |white|, "]")
    ensures ReadArray(doc, p, depth, isDouble) == Done(Arr([]), p + |white| + 1)
  {
    hide L.NextToken, L.ReadToken, L.SpacesEnd, ReadElements, Occurs;
    PunctuationRead(doc, p + |white|, ']');
    EmptyInside(doc, p, white, ']');
  }

  /** Behind the bracket of a nonempty array the element loop starts. */
  lemma ArrayStep(doc: string, p: nat, items: seq<Item>, depth: nat, isDouble: string -> bool)
    requires items != [] && LegalItems(items) && Occurs(doc, p, ItemsText(items))
    ensures ReadArray(doc, p, depth, isDouble) == ReadElements(doc, p, depth, isDouble, [])
  {
    hide L.SpacesEnd, ReadValue, ReadElements, ItemText, ItemsText, TextOf, Legal, LegalItems, Occurs, White, Pad;
    ItemsParts(items);
    var x, rest := items[0], if |items| == 1 then "" else "," + ItemsText(items[1..]);
    OccursSplit(doc, p, ItemText(x), rest);
    assert ItemText(x) == Pad(x.before, TextOf(x.value), x.after) by { ItemTextIs(x); }
    PadOccurs(doc, p, x.before, TextOf(x.value), x.after);
    StartOfValue(doc, p, x.before, x.value);
    ValueAfterSpaces(doc, p, x.before, depth, isDouble);
    ElementsFrom(doc, p, p + |x.before|, depth, isDouble);
    OccursInside(doc, p, x.before);
  }

  lemma ItemTextIs(x: Item)
    requires Legal(x.value)
    ensures ItemText(x) == Pad(x.before, TextOf(x.value), x.after)
  {
  }

  /** The element loop depends on where it starts through the first value alone. */
  lemma ElementsFrom(doc: string, p: nat, q: nat, depth: nat, isDouble: string -> bool)
    requires p <= |doc| && q <= |doc| && ReadValue(doc, p, depth, isDouble) == ReadValue(doc, q, depth, isDouble)
    ensures ReadElements(doc, p, depth, isDouble, []) == ReadElements(doc, q, depth, isDouble, [])
  {
    hide ReadValue, L.NextToken;
  }

  lemma EmptyInside(doc: string, p: nat, white: string, c: char)
    requires White(white) && Occurs(doc, p, white) && Occurs(doc, p + |white|, [c]) && c in "[]{}"
    ensures L.SpacesEnd(doc, p) == p + |white| && L.At(doc, p + |white|) == c
    ensures L.NextToken(doc, p) == L.NextToken(doc, p + |white|)
  {
    TokenAfterSpaces(doc, p, white);
    SpacesSkipped(doc, p, white);
    assert doc[p + |white|] == [c][0];
  }

  /** Elements are read one after the other, and then what follows decides. */
  lemma {:induction false} ItemsRead(doc: string, p: nat, items: seq<Item>, depth: nat, isDouble: string -> bool,
                                     read: seq<Value>)
    requires items != [] && LegalItems(items) && forall i | 0 <= i < |items| :: Readable(items[i].value, isDouble)
    requires Occurs(doc, p, ItemsText(items))
    requires items[|items| - 1].after != "" || NumberStops(doc, p + |ItemsText(items)|)
    ensures p + |ItemsText(items)| <= |doc|
    ensures ReadElements(doc, p, depth, isDouble, read) ==
            if depth + ItemsDepth(items) > STACK_LIMIT then Threw
            else AfterElement(doc, p + |ItemsText(items)|, depth, isDouble, read + ItemValues(items))
    decreases items, 1
  {
    hide L.NextToken, L.SpacesEnd, L.At, ReadValue, ReadElements, Occurs, Pad, Legal, LegalItems, Readable, White;
    hide TextOf, ItemText, ItemsText, Depth, ItemsDepth, ValueOf, ItemValues, NumberStops, AfterElement;
    ItemsParts(items);
    NoEntries();
    OccursInside(doc, p, ItemsText(items));
    var x, tail := items[0], if |items| == 1 then "" else "," + ItemsText(items[1..]);
    var a := p + |ItemText(x)|;
    OccursSplit(doc, p, ItemText(x), tail);
    if |items| > 1 {
      OccursSplit(doc, a, ",", ItemsText(items[1..]));
      SeparatorRead(doc, a, depth, isDouble, read + [ValueOf(x.value)]);
    }
    var r := ItemRead(doc, p, x, depth, isDouble);
    ElementsStep(doc, p, depth, isDouble, read);
    SameAfter(doc, r, a, depth, isDouble, read + [ValueOf(x.value)]);
    if |items| > 1 {
      ItemsRead(doc, a + 1, items[1..], depth, isDouble, read + [ValueOf(x.value)]);
      assert read + [ValueOf(x.value)] + ItemValues(items[1..]) == read + ItemValues(items);
    } else {
      assert items[1..] == [] && ItemValues(items) == [ValueOf(x.value)];
    }
  }

  lemma ItemsParts(items: seq<Item>)
    requires items != [] && LegalItems(items)
    ensures LegalItems(items[1..]) && WhiteItem(items[0]) && Legal(items[0].value)
    ensures ItemValues(items) == [ValueOf(items[0].value)] + ItemValues(items[1..])
    ensures ItemsDepth(items) == Max(Depth(items[0].value), ItemsDepth(items[1..]))
    ensures ItemsText(items) == ItemText(items[0]) + if |items| == 1 then "" else "," + ItemsText(items[1..])
  {
  }

  lemma EntriesParts(entries: seq<Entry>, read: seq<Member>)
    requires entries != [] && LegalEntries(entries)
    ensures LegalEntries(entries[1..]) && WhiteEntry(entries[0]) && Legal(entries[0].value)
    ensures
      Stored(read, entries) == Stored(Put(read, MeaningAll(entries[0].name), ValueOf(entries[0].value)), entries[1..])
    ensures EntriesDepth(entries) == Max(Depth(entries[0].value), EntriesDepth(entries[1..]))
    ensures EntriesText(entries)
            == EntryText(entries[0]) + if |entries| == 1 then "" else "," + EntriesText(entries[1..])
  {
    hide MeaningAll, EntryText, Depth, ValueOf, Put;
  }

  /** One element between its whitespace, whatever stands behind it. */
  lemma ItemRead(doc: string, p: nat, x: Item, depth: nat, isDouble: string -> bool) returns (r: nat)
    requires WhiteItem(x) && Legal(x.value) && Readable(x.value, isDouble)
    requires Occurs(doc, p, ItemText(x)) && (x.after != "" || NumberStops(doc, p + |ItemText(x)|))
    ensures ReadValue(doc, p, depth, isDouble) == Expected(x.value, r, depth)
    ensures r <= |doc| && p + |ItemText(x)| <= |doc| && L.NextToken(doc, r) == L.NextToken(doc, p + |ItemText(x)|)
    decreases x.value, 3
  {
    hide L.NextToken, L.ReadToken, L.SpacesEnd, ReadValue, TextOf, Expected, Occurs, White, Pad, NumberStops;
    var body := TextOf(x.value);
    PadOccurs(doc, p, x.before, body, x.after);
    var b := p + |x.before|;
    r := b + |body|;
    StopsAfter(doc, r, x.after);
    JsonReads(doc, b, x.value, depth, isDouble);
    ValueAfterSpaces(doc, p, x.before, depth, isDouble);
    TokenAfterSpaces(doc, r, x.after);
    OccursInside(doc, b, body);
    OccursInside(doc, r, x.after);
  }

  lemma OccursInside(doc: string, p: nat, w: string)
    requires Occurs(doc, p, w)
    ensures p + |w| <= |doc|
  {
  }

  /** The rest of the array loop, behind an element. */
  function AfterElement(doc: string, p: nat, depth: nat, isDouble: string -> bool, read: seq<Value>): Parsed
    requires p <= |doc|
  {
    var t := L.NextToken(doc, p);
    if t.kind == L.ArrayEnd then Done(Arr(read), t.end)
    else if t.kind == L.ArraySeparator then ReadElements(doc, t.end, depth, isDouble, read)
    else Recover(doc, t.end, L.ArrayEnd, Error(ArrayCommaExpected, t, None))
  }

  lemma ElementsStep(doc: string, p: nat, depth: nat, isDouble: string -> bool, read: seq<Value>)
    requires p <= |doc|
    ensures
      var r := ReadValue(doc, p, depth, isDouble);
      && (r.Threw? ==> ReadElements(doc, p, depth, isDouble, read) == Threw)
      && (r.Done? ==> ReadElements(doc, p, depth, isDouble, read)
                      == AfterElement(doc, r.pos, depth, isDouble, read + [r.value]))
  {
    hide ReadValue, L.NextToken;
  }

  lemma SeparatorRead(doc: string, p: nat, depth: nat, isDouble: string -> bool, read: seq<Value>)
    requires Occurs(doc, p, ",")
    ensures NumberStops(doc, p) && p + 1 <= |doc|
    ensures AfterElement(doc, p, depth, isDouble, read) == ReadElements(doc, p + 1, depth, isDouble, read)
  {
    hide L.NextToken, L.ReadToken, ReadElements, Occurs, NumberStops;
    PunctuationRead(doc, p, ',');
    PunctuationStops(doc, p, ',');
    OccursInside(doc, p, ",");
  }

  lemma SameAfter(doc: string, p: nat, q: nat, depth: nat, isDouble: string -> bool, read: seq<Value>)
    requires p <= |doc| && q <= |doc| && L.NextToken(doc, p) == L.NextToken(doc, q)
    ensures AfterElement(doc, p, depth, isDouble, read) == AfterElement(doc, q, depth, isDouble, read)
  {
    hide L.NextToken, ReadElements;
  }

  /** The rest of the object loop, behind a member. */
  function AfterMember(doc: string, p: nat, depth: nat, isDouble: string -> bool, read: seq<Member>, name: string)
    : Parsed
    requires p <= |doc|
  {
    match ReadComma(doc, p)
    case BadComma(error, q) => Recover(doc, q, L.ObjectEnd, error)
    case Last(q) => Done(Obj(read), q)
    case More(q) => ReadMembers(doc, q, depth, isDouble, read, name)
  }

  lemma MembersStep(doc: string, p: nat, depth: nat, isDouble: string -> bool, read: seq<Member>, lastName: string)
    requires p <= |doc| && ReadName(doc, p, lastName).Name?
    ensures
      var n := ReadName(doc, p, lastName);
      var r := ReadValue(doc, n.pos, depth, isDouble);
      && (r.Threw? ==> ReadMembers(doc, p, depth, isDouble, read, lastName) == Threw)
      && (r.Done? ==> ReadMembers(doc, p, depth, isDouble, read, lastName)
                      == AfterMember(doc, r.pos, depth, isDouble, Put(read, n.name, r.value), n.name))
  {
    hide ReadValue, ReadName, ReadComma, Put;
  }

  lemma PadOccurs(doc: string, p: nat, before: string, body: string, after: string)
    requires Occurs(doc, p, Pad(before, body, after))
    ensures Occurs(doc, p, before) && Occurs(doc, p + |before|, body) && Occurs(doc, p + |before| + |body|, after)
    ensures |Pad(before, body, after)| == |before| + |body| + |after|
  {
    hide Occurs;
    OccursSplit(doc, p, before + body, after);
    OccursSplit(doc, p, before, body);
  }

  lemma StopsAfter(doc: string, p: nat, white: string)
    requires White(white) && Occurs(doc, p, white) && (white != "" || NumberStops(doc, p + |white|))
    ensures NumberStops(doc, p)
  {
    if white != "" { assert doc[p] == white[0]; }
  }

  lemma PunctuationStops(doc: string, p: nat, c: char)
    requires Occurs(doc, p, [c]) && c in ",]}"
    ensures NumberStops(doc, p)
  {
    assert doc[p] == [c][0];
  }

  lemma TextStart(j: Json)
    requires Legal(j)
    ensures TextOf(j) != "" && !L.IsSpace(TextOf(j)[0]) && TextOf(j)[0] != ']'
  {
    if j.Num? { assert N.IsDigit(j.n.whole[0]); }
  }

  lemma StartOfValue(doc: string, p: nat, white: string, j: Json)
    requires Legal(j) && White(white)
    requires Occurs(doc, p, white) && Occurs(doc, p + |white|, TextOf(j))
    ensures L.SpacesEnd(doc, p) == p + |white| && L.At(doc, p + |white|) != ']'
  {
    hide TextOf, Legal;
    SpacesSkipped(doc, p, white);
    TextStart(j);
    assert doc[p + |white|] == TextOf(j)[0];
  }

  lemma {:induction false} RecordReads(doc: string, p: nat, j: Json, depth: nat, isDouble: string -> bool)
    requires j.Record? && Legal(j) && Readable(j, isDouble) && Occurs(doc, p, TextOf(j))
    ensures ReadValue(doc, p, depth, isDouble) == Expected(j, p + |TextOf(j)|, depth)
    decreases j, 0
  {
    hide L.NextToken, L.ReadToken, ReadValue, TextOf, EntriesText, ReadMembers, Occurs, White;
    hide Legal, LegalEntries, Readable, ValueOf, Stored, Depth, EntriesDepth, AfterMember, NumberStops, MeaningAll;
    RecordParts(j, isDouble);
    var inner := if j.entries == [] then j.inside else EntriesText(j.entries);
    OccursSplit(doc, p, "{" + inner, "}");
    OccursSplit(doc, p, "{", inner);
    PunctuationRead(doc, p, '{');
    ContainerStep(doc, p, depth, isDouble);
    NoEntries();
    if j.entries == [] {
      EmptyObjectReads(doc, p + 1, inner, depth + 1, isDouble);
    } else {
      ObjectCloses(doc, p + 1 + |inner|, depth + 1, isDouble, Stored([], j.entries),
                   MeaningAll(j.entries[|j.entries| - 1].name));
      EntriesRead(doc, p + 1, j.entries, depth + 1, isDouble, [], "");
    }
  }

  /** An opening bracket or brace leads one level down. */
  lemma ContainerStep(doc: string, p: nat, depth: nat, isDouble: string -> bool)
    requires p <= |doc|
    ensures depth >= STACK_LIMIT ==> ReadValue(doc, p, depth, isDouble) == Threw
    ensures
      var t := L.NextToken(doc, p);
      && (depth < STACK_LIMIT && t.kind == L.ObjectBegin ==>
            ReadValue(doc, p, depth, isDouble) == ReadMembers(doc, t.end, depth + 1, isDouble, [], ""))
      && (depth < STACK_LIMIT && t.kind == L.ArrayBegin ==>
            ReadValue(doc, p, depth, isDouble) == ReadArray(doc, t.end, depth + 1, isDouble))
  {
    hide L.NextToken, ReadMembers, ReadArray, NumberValue, StringValue;
  }

  lemma EmptyObjectReads(doc: string, p: nat, white: string, depth: nat, isDouble: string -> bool)
    requires White(white) && Occurs(doc, p, white) && Occurs(doc, p + |white|, "}")
    ensures ReadMembers(doc, p, depth, isDouble, [], "") == Done(Obj([]), p + |white| + 1)
  {
    hide L.NextToken, L.ReadToken, L.SpacesEnd, ReadMembers, Occurs;
    PunctuationRead(doc, p + |white|, '}');
    EmptyInside(doc, p, white, '}');
    BraceEnds(doc, p, depth, isDouble, [], "");
  }

  lemma BraceEnds(doc: string, p: nat, depth: nat, isDouble: string -> bool, read: seq<Member>, lastName: string)
    requires p <= |doc| && L.NextToken(doc, p).kind == L.ObjectEnd
    ensures
      var t, r := L.NextToken(doc, p), ReadMembers(doc, p, depth, isDouble, read, lastName);
      if lastName == "" then r == Done(Obj(read), t.end)
      else r.Failed? && r.error == Error(MemberNameExpected, t, None)
  {
    hide L.NextToken;
  }

  /** The name, the colon and the comma around a member's value. */
  lemma NameReads(doc: string, p: nat, x: Entry, lastName: string)
    requires WhiteEntry(x) && Occurs(doc, p, Pad(x.before, Literal(x.name), x.afterName) + ":")
    ensures ReadName(doc, p, lastName)
              == Name(MeaningAll(x.name), p + |Pad(x.before, Literal(x.name), x.afterName)| + 1)
  {
    hide L.NextToken, L.ReadToken, SpellAll, MeaningAll, LegalPieces, StringValue, Occurs, White, Pad;
    var key := Literal(x.name);
    OccursSplit(doc, p, Pad(x.before, key, x.afterName), ":");
    PadOccurs(doc, p, x.before, key, x.afterName);
    TokenAfterSpaces(doc, p, x.before);
    LiteralRead(doc, p + |x.before|, x.name);
    TokenAfterSpaces(doc, p + |x.before| + |key|, x.afterName);
    PunctuationRead(doc, p + |x.before| + |key| + |x.afterName|, ':');
  }

  lemma CommaReads(doc: string, p: nat, c: char)
    requires Occurs(doc, p, [c]) && c in ",}"
    ensures p <= |doc| && ReadComma(doc, p) == if c == ',' then More(p + 1) else Last(p + 1)
  {
    hide L.NextToken, L.ReadToken;
    PunctuationRead(doc, p, c);
  }

  lemma CommaAfterSpaces(doc: string, p: nat, white: string)
    requires White(white) && Occurs(doc, p, white)
    ensures ReadComma(doc, p) == ReadComma(doc, p + |white|)
  {
    hide L.NextToken, L.ReadToken, White;
    TokenAfterSpaces(doc, p, white);
  }

  /** Members are read one after the other, and then what follows decides. */
  lemma {:induction false} EntriesRead(doc: string, p: nat, entries: seq<Entry>, depth: nat, isDouble: string -> bool,
                                       read: seq<Member>, lastName: string)
    requires entries != [] && LegalEntries(entries)
    requires forall i | 0 <= i < |entries| :: Readable(entries[i].value, isDouble)
    requires Occurs(doc, p, EntriesText(entries))
    requires entries[|entries| - 1].after != "" || NumberStops(doc, p + |EntriesText(entries)|)
    ensures p + |EntriesText(entries)| <= |doc|
    ensures ReadMembers(doc, p, depth, isDouble, read, lastName) ==
            if depth + EntriesDepth(entries) > STACK_LIMIT then Threw
            else AfterMember(doc, p + |EntriesText(entries)|, depth, isDouble, Stored(read, entries),
                             MeaningAll(entries[|entries| - 1].name))
    decreases entries, 1
  {
    hide ReadValue, ReadMembers, ReadName, ReadComma, Occurs, Pad, Put, Legal, LegalEntries, Readable, MeaningAll;
    hide TextOf, EntriesText, EntryText, Depth, EntriesDepth, ValueOf, Stored, NumberStops;
    EntriesParts(entries, read);
    NoEntries();
    OccursInside(doc, p, EntriesText(entries));
    var x, tail := entries[0], if |entries| == 1 then "" else "," + EntriesText(entries[1..]);
    var a := p + |EntryText(x)|;
    OccursSplit(doc, p, EntryText(x), tail);
    if |entries| > 1 {
      OccursSplit(doc, a, ",", EntriesText(entries[1..]));
      CommaReads(doc, a, ',');
      PunctuationStops(doc, a, ',');
    }
    var r := EntryRead(doc, p, x, depth, isDouble, lastName);
    MembersStep(doc, p, depth, isDouble, read, lastName);
    if |entries| > 1 {
      var name := MeaningAll(x.name);
      EntriesRead(doc, a + 1, entries[1..], depth, isDouble, Put(read, name, ValueOf(x.value)), name);
    } else {
      assert entries[1..] == [];
    }
  }

  /** One member between its whitespace, whatever stands behind it. */
  lemma EntryRead(doc: string, p: nat, x: Entry, depth: nat, isDouble: string -> bool, lastName: string)
    returns (r: nat)
    requires WhiteEntry(x) && Legal(x.value) && Readable(x.value, isDouble)
    requires Occurs(doc, p, EntryText(x)) && (x.after != "" || NumberStops(doc, p + |EntryText(x)|))
    ensures r <= |doc| && p + |EntryText(x)| <= |doc|
    ensures
      var n := ReadName(doc, p, lastName);
      && n.Name? && n.name == MeaningAll(x.name)
      && ReadValue(doc, n.pos, depth, isDouble) == Expected(x.value, r, depth)
      && ReadComma(doc, r) == ReadComma(doc, p + |EntryText(x)|)
    decreases x.value, 3
  {
    hide ReadValue, ReadName, ReadComma, TextOf, Expected, Occurs, White, Pad, SpellAll, MeaningAll, LegalPieces,
         NumberStops;
    var left := Pad(x.before, Literal(x.name), x.afterName) + ":";
    var body := TextOf(x.value);
    OccursSplit(doc, p, left, Pad(x.afterColon, body, x.after));
    NameReads(doc, p, x, lastName);
    var k := p + |left|;
    PadOccurs(doc, k, x.afterColon, body, x.after);
    var b := k + |x.afterColon|;
    r := b + |body|;
    StopsAfter(doc, r, x.after);
    CommaAfterSpaces(doc, r, x.after);
    JsonReads(doc, b, x.value, depth, isDouble);
    ValueAfterSpaces(doc, k, x.afterColon, depth, isDouble);
    OccursInside(doc, b, body);
    OccursInside(doc, r, x.after);
  }

  // ---- the theorem ----

  /** Every JSON text whose numerals are integers that fit or doubles, with whitespace
      around it, reads as its value exactly if it nests at most `STACK_LIMIT` deep;
      otherwise the reader throws. */
  lemma TextReads(j: Json, before: string, after: string, isDouble: string -> bool)
    requires Legal(j) && Readable(j, isDouble) && White(before) && White(after)
    ensures Parse(before + TextOf(j) + after, isDouble)
            == if Depth(j) <= STACK_LIMIT then Done(ValueOf(j), |before| + |TextOf(j)|) else Threw
  {
    hide ReadValue, ValueOf, Depth, TextOf, Legal, Readable;
    var body := TextOf(j);
    var doc := before + body + after;
    assert Occurs(doc, 0, before);
    assert Occurs(doc, |before|, body);
    assert NumberStops(doc, |before| + |body|) by {
      if after != "" { assert doc[|before| + |body|] == after[0]; }
    }
    ValueAfterSpaces(doc, 0, before, 0, isDouble);
    JsonReads(doc, |before|, j, 0, isDouble);
  }

  // ---- what is refused ----

  /** Where a comma or the closing bracket should stand, the document ends or goes on
      with something else that is no comment either. */
  predicate Missing(doc: string, p: nat, close: char) {
    p < |doc| ==> !L.IsSpace(doc[p]) && doc[p] != '/' && doc[p] != ',' && doc[p] != close
  }

  lemma MissingRead(doc: string, p: nat, close: char)
    requires p <= |doc| && Missing(doc, p, close)
    ensures
      var t := L.ReadToken(doc, p);
      && t == L.NextToken(doc, p) && t.start == p && t.kind != L.Comment && t.kind != L.ArraySeparator
      && (close == ']' ==> t.kind != L.ArrayEnd) && (close == '}' ==> t.kind != L.ObjectEnd)
  {
    hide L.StringEnd, L.CommentEnd, L.NumberEnd;
    assert L.SpacesEnd(doc, p) == p;
  }

  lemma CommaMissing(doc: string, p: nat)
    requires p <= |doc| && Missing(doc, p, '}')
    ensures
      ReadComma(doc, p)
      == BadComma(Error(ObjectCommaExpected, L.ReadToken(doc, p), None), L.ReadToken(doc, p).end)
  {
    hide L.ReadToken, L.NextToken;
    MissingRead(doc, p, '}');
  }

  /** An array up to the last of its elements. */
  lemma ArrayBegun(before: string, items: seq<Item>, rest: string, isDouble: string -> bool)
    requires White(before) && items != [] && LegalItems(items)
    requires forall i | 0 <= i < |items| :: Readable(items[i].value, isDouble)
    requires items[|items| - 1].after != "" || NumberStops(rest, 0)
    ensures
      var start := before + "[" + ItemsText(items);
      Parse(start + rest, isDouble)
      == if 1 + ItemsDepth(items) > STACK_LIMIT then Threw
         else AfterElement(start + rest, |start|, 1, isDouble, ItemValues(items))
  {
    hide L.NextToken, L.ReadToken, ReadValue, ReadElements, ReadArray, ItemsText, ItemsDepth, LegalItems, Readable;
    hide AfterElement, ItemValues;
    var body, p := ItemsText(items), |before|;
    var doc := before + "[" + body + rest;
    assert Occurs(doc, 0, before) && Occurs(doc, p, "[") && Occurs(doc, p + 1, body);
    assert rest != "" ==> doc[p + 1 + |body|] == rest[0];
    ValueAfterSpaces(doc, 0, before, 0, isDouble);
    PunctuationRead(doc, p, '[');
    ContainerStep(doc, p, 0, isDouble);
    ArrayStep(doc, p + 1, items, 1, isDouble);
    ItemsRead(doc, p + 1, items, 1, isDouble, []);
    assert [] + ItemValues(items) == ItemValues(items);
  }

  /** An object up to the last of its members. */
  lemma ObjectBegun(before: string, entries: seq<Entry>, rest: string, isDouble: string -> bool)
    requires White(before) && entries != [] && LegalEntries(entries)
    requires forall i | 0 <= i < |entries| :: Readable(entries[i].value, isDouble)
    requires entries[|entries| - 1].after != "" || NumberStops(rest, 0)
    ensures
      var start := before + "{" + EntriesText(entries);
      Parse(start + rest, isDouble)
      == if 1 + EntriesDepth(entries) > STACK_LIMIT then Threw
         else AfterMember(start + rest, |start|, 1, isDouble, Stored([], entries),
                          MeaningAll(entries[|entries| - 1].name))
  {
    hide L.NextToken, L.ReadToken, ReadValue, ReadMembers, EntriesText, EntriesDepth, LegalEntries, Readable;
    hide AfterMember, Stored, MeaningAll;
    var body, p := EntriesText(entries), |before|;
    var doc := before + "{" + body + rest;
    assert Occurs(doc, 0, before) && Occurs(doc, p, "{") && Occurs(doc, p + 1, body);
    assert rest != "" ==> doc[p + 1 + |body|] == rest[0];
    ValueAfterSpaces(doc, 0, before, 0, isDouble);
    PunctuationRead(doc, p, '{');
    ContainerStep(doc, p, 0, isDouble);
    EntriesRead(doc, p + 1, entries, 1, isDouble, [], "");
  }

  /** Elements without a comma or the closing bracket behind them are refused right
      there, whatever else follows. */
  lemma MissingCommaInArray(before: string, items: seq<Item>, rest: string, isDouble: string -> bool)
    requires White(before) && items != [] && LegalItems(items)
    requires forall i | 0 <= i < |items| :: Readable(items[i].value, isDouble)
    requires Missing(rest, 0, ']') && (items[|items| - 1].after != "" || NumberStops(rest, 0))
    ensures
      var start := before + "[" + ItemsText(items);
      var r := Parse(start + rest, isDouble);
      if 1 + ItemsDepth(items) > STACK_LIMIT then r.Threw?
      else r.Failed? && r.error.kind == ArrayCommaExpected && r.error.token.start == |start|
  {
    hide L.NextToken, L.ReadToken, Parse, ReadElements, ItemsText, ItemsDepth, LegalItems, Readable;
    var start := before + "[" + ItemsText(items);
    ArrayBegun(before, items, rest, isDouble);
    assert rest != "" ==> (start + rest)[|start|] == rest[0];
    MissingRead(start + rest, |start|, ']');
  }

  /** Likewise members. */
  lemma MissingCommaInObject(before: string, entries: seq<Entry>, rest: string, isDouble: string -> bool)
    requires White(before) && entries != [] && LegalEntries(entries)
    requires forall i | 0 <= i < |entries| :: Readable(entries[i].value, isDouble)
    requires Missing(rest, 0, '}') && (entries[|entries| - 1].after != "" || NumberStops(rest, 0))
    ensures
      var start := before + "{" + EntriesText(entries);
      var r := Parse(start + rest, isDouble);
      if 1 + EntriesDepth(entries) > STACK_LIMIT then r.Threw?
      else r.Failed? && r.error.kind == ObjectCommaExpected && r.error.token.start == |start|
  {
    hide L.NextToken, L.ReadToken, Parse, ReadMembers, ReadComma, EntriesText, EntriesDepth, LegalEntries, Readable;
    var start := before + "{" + EntriesText(entries);
    ObjectBegun(before, entries, rest, isDouble);
    assert rest != "" ==> (start + rest)[|start|] == rest[0];
    MissingRead(start + rest, |start|, '}');
    CommaMissing(start + rest, |start|);
  }

  /** A comma with nothing but whitespace behind it does not end an array. */
  lemma CommaEndsArray(before: string, items: seq<Item>, white: string, rest: string, isDouble: string -> bool)
    requires White(before) && White(white) && items != [] && LegalItems(items)
    requires forall i | 0 <= i < |items| :: Readable(items[i].value, isDouble)
    ensures
      var start := before + "[" + ItemsText(items);
      var r := Parse(start + ("," + white + "]" + rest), isDouble);
      if 1 + ItemsDepth(items) > STACK_LIMIT then r.Threw?
      else r.Failed? && r.error.kind == ValueExpected && r.error.token.start == |start| + 1 + |white|
  {
    hide L.NextToken, L.ReadToken, Parse, ReadValue, ReadElements, ItemsText, ItemsDepth, LegalItems, Readable;
    var start, tail := before + "[" + ItemsText(items), "," + white + "]" + rest;
    var doc, p := start + tail, |before + "[" + ItemsText(items)|;
    ArrayBegun(before, items, tail, isDouble);
    TailOccurs(start, white, ']', rest);
    PunctuationRead(doc, p, ',');
    PunctuationRead(doc, p + 1 + |white|, ']');
    TokenAfterSpaces(doc, p + 1, white);
    BracketIsNoValue(doc, p + 1, 1, isDouble);
    ElementRefused(doc, p + 1, 1, isDouble, ItemValues(items));
  }

  lemma TailOccurs(start: string, white: string, close: char, rest: string)
    ensures
      var doc := start + ("," + white + [close] + rest);
      Occurs(doc, |start|, ",") && Occurs(doc, |start| + 1, white) && Occurs(doc, |start| + 1 + |white|, [close])
  {
  }

  lemma BracketIsNoValue(doc: string, p: nat, depth: nat, isDouble: string -> bool)
    requires p <= |doc| && depth < STACK_LIMIT && L.NextToken(doc, p).kind == L.ArrayEnd
    ensures
      var t := L.NextToken(doc, p);
      ReadValue(doc, p, depth, isDouble) == Failed(Error(ValueExpected, t, None), t.end)
  {
    hide L.NextToken;
  }

  lemma ElementRefused(doc: string, p: nat, depth: nat, isDouble: string -> bool, read: seq<Value>)
    requires p <= |doc| && ReadValue(doc, p, depth, isDouble).Failed?
    ensures
      var r := ReadElements(doc, p, depth, isDouble, read);
      r.Failed? && r.error == ReadValue(doc, p, depth, isDouble).error
  {
    hide ReadValue, L.NextToken;
  }

  /** A comma with nothing but whitespace behind it ends an object exactly if the name
      of the member before it is empty. */
  lemma CommaEndsObject(before: string, entries: seq<Entry>, white: string, rest: string, isDouble: string -> bool)
    requires White(before) && White(white) && entries != [] && LegalEntries(entries)
    requires forall i | 0 <= i < |entries| :: Readable(entries[i].value, isDouble)
    ensures
      var start := before + "{" + EntriesText(entries);
      var r := Parse(start + ("," + white + "}" + rest), isDouble);
      if 1 + EntriesDepth(entries) > STACK_LIMIT then r.Threw?
      else if MeaningAll(entries[|entries| - 1].name) == "" then
        r == Done(Obj(Stored([], entries)), |start| + |white| + 2)
      else r.Failed? && r.error.kind == MemberNameExpected && r.error.token.start == |start| + 1 + |white|
  {
    hide L.NextToken, L.ReadToken, Parse, ReadMembers, ReadComma, EntriesText, EntriesDepth, LegalEntries, Readable;
    hide MeaningAll, Stored;
    var start, tail := before + "{" + EntriesText(entries), "," + white + "}" + rest;
    var doc, p := start + tail, |before + "{" + EntriesText(entries)|;
    ObjectBegun(before, entries, tail, isDouble);
    TailOccurs(start, white, '}', rest);
    CommaReads(doc, p, ',');
    PunctuationRead(doc, p + 1 + |white|, '}');
    TokenAfterSpaces(doc, p + 1, white);
    BraceEnds(doc, p + 1, 1, isDouble, Stored([], entries), MeaningAll(entries[|entries| - 1].name));
  }
}
