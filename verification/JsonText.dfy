/** JSON texts of a value. A `Layout` says which whitespace stands where RFC 8259
    allows it; `Compact` is the text without any, `Strip` removes it. */
module JsonText {
  import opened JsonValue
  import opened JsonString
  import N = JsonNumber
  import L = JsonLexer

  /** The text of a scalar. */
  function Atom(v: Value): string
    requires !v.IsContainer()
  {
    if v.Null? then "null"
    else if v.Bool? then if v.b then "true" else "false"
    else if v.Str? then Quoted(v.s)
    else if v.Real? then v.token
    else N.IntegerText(v)
  }

  // ---- layouts ----

  datatype Layout = Layout(inside: string, slots: seq<Slot>)

  /** Whitespace around one entry of a container. */
  datatype Slot = Slot(before: string, afterKey: string, afterColon: string, inner: Layout, after: string)

  predicate White(t: string) { forall i | 0 <= i < |t| :: L.IsSpace(t[i]) }

  predicate WhiteSlot(s: Slot) { White(s.before) && White(s.afterKey) && White(s.afterColon) && White(s.after) }

  predicate Fits(v: Value, l: Layout) {
    match v
    case Arr(e) =>
      && White(l.inside) && |l.slots| == |e|
      && forall i | 0 <= i < |e| :: WhiteSlot(l.slots[i]) && Fits(e[i], l.slots[i].inner)
    case Obj(m) =>
      && White(l.inside) && |l.slots| == |m|
      && forall i | 0 <= i < |m| :: WhiteSlot(l.slots[i]) && Fits(m[i].value, l.slots[i].inner)
    case _ => true
  }

  predicate ElemsFit(e: seq<Value>, slots: seq<Slot>) {
    && |e| == |slots|
    && forall i | 0 <= i < |e| :: WhiteSlot(slots[i]) && Fits(e[i], slots[i].inner)
  }

  predicate MembersFit(m: seq<Member>, slots: seq<Slot>) {
    && |m| == |slots|
    && forall i | 0 <= i < |m| :: WhiteSlot(slots[i]) && Fits(m[i].value, slots[i].inner)
  }

  function Pad(before: string, text: string, after: string): string { before + text + after }

  /** The text of a value in a layout. */
  function Render(v: Value, l: Layout): string
    requires Fits(v, l)
    decreases v, 0
  {
    match v
    case Arr(e) => "[" + (if e == [] then l.inside else RenderElems(e, l.slots)) + "]"
    case Obj(m) => "{" + (if m == [] then l.inside else RenderMembers(m, l.slots)) + "}"
    case _ => Atom(v)
  }

  function RenderElems(e: seq<Value>, slots: seq<Slot>): string
    requires e != [] && ElemsFit(e, slots)
    decreases e, 1
  {
    Pad(slots[0].before, Render(e[0], slots[0].inner), slots[0].after)
    + if |e| == 1 then "" else "," + RenderElems(e[1..], slots[1..])
  }

  function RenderMembers(m: seq<Member>, slots: seq<Slot>): string
    requires m != [] && MembersFit(m, slots)
    decreases m, 1
  {
    Pad(slots[0].before, Quoted(m[0].name), slots[0].afterKey) + ":"
    + Pad(slots[0].afterColon, Render(m[0].value, slots[0].inner), slots[0].after)
    + if |m| == 1 then "" else "," + RenderMembers(m[1..], slots[1..])
  }

  // ---- the compact text ----

  function Compact(v: Value): string
    decreases v, 0
  {
    match v
    case Arr(e) => "[" + CompactElems(e) + "]"
    case Obj(m) => "{" + CompactMembers(m) + "}"
    case _ => Atom(v)
  }

  function CompactElems(e: seq<Value>): string
    decreases e, 1
  {
    if e == [] then "" else Compact(e[0]) + if |e| == 1 then "" else "," + CompactElems(e[1..])
  }

  function CompactMembers(m: seq<Member>): string
    decreases m, 1
  {
    if m == [] then ""
    else Quoted(m[0].name) + ":" + Compact(m[0].value) + if |m| == 1 then "" else "," + CompactMembers(m[1..])
  }

  /** The layout without any whitespace. */
  function Tight(v: Value): (l: Layout)
    ensures Fits(v, l)
    decreases v, 0
  {
    match v
    case Arr(e) => Layout("", TightElems(e))
    case Obj(m) => Layout("", TightMembers(m))
    case _ => Layout("", [])
  }

  function TightElems(e: seq<Value>): (s: seq<Slot>)
    ensures ElemsFit(e, s)
    decreases e, 1
  {
    if e == [] then [] else [Slot("", "", "", Tight(e[0]), "")] + TightElems(e[1..])
  }

  function TightMembers(m: seq<Member>): (s: seq<Slot>)
    ensures MembersFit(m, s)
    decreases m, 1
  {
    if m == [] then [] else [Slot("", "", "", Tight(m[0].value), "")] + TightMembers(m[1..])
  }

  lemma {:induction false} CompactIsTight(v: Value)
    ensures Compact(v) == Render(v, Tight(v))
    decreases v, 0
  {
    match v
    case Arr(e) => if e != [] { CompactElemsTight(e); }
    case Obj(m) => if m != [] { CompactMembersTight(m); }
    case _ =>
  }

  lemma NoPadding(t: string)
    ensures Pad("", t, "") == t
  {
  }

  lemma {:induction false} CompactElemsTight(e: seq<Value>)
    requires e != []
    ensures CompactElems(e) == RenderElems(e, TightElems(e))
    decreases e, 1
  {
    hide Render, Compact, Pad;
    CompactIsTight(e[0]);
    NoPadding(Compact(e[0]));
    assert TightElems(e)[1..] == TightElems(e[1..]);
    if |e| > 1 { CompactElemsTight(e[1..]); }
  }

  lemma {:induction false} CompactMembersTight(m: seq<Member>)
    requires m != []
    ensures CompactMembers(m) == RenderMembers(m, TightMembers(m))
    decreases m, 1
  {
    hide Render, Compact, Quoted, Pad;
    CompactIsTight(m[0].value);
    NoPadding(Compact(m[0].value));
    NoPadding(Quoted(m[0].name));
    assert TightMembers(m)[1..] == TightMembers(m[1..]);
    if |m| > 1 { CompactMembersTight(m[1..]); }
  }

  // ---- removing whitespace outside string literals ----

  datatype Mode = Outside | Inside | Escape

  function NextMode(c: char, mode: Mode): Mode {
    match mode
    case Outside => if c == '"' then Inside else Outside
    case Inside => if c == '"' then Outside else if c == '\\' then Escape else Inside
    case Escape => Inside
  }

  function ModeAfter(t: string, mode: Mode): Mode {
    if t == "" then mode else ModeAfter(t[1..], NextMode(t[0], mode))
  }

  function Strip(t: string, mode: Mode): string {
    if t == "" then ""
    else (if mode == Outside && L.IsSpace(t[0]) then "" else [t[0]]) + Strip(t[1..], NextMode(t[0], mode))
  }

  lemma {:induction false} StripConcat(a: string, b: string, mode: Mode)
    ensures Strip(a + b, mode) == Strip(a, mode) + Strip(b, ModeAfter(a, mode))
    ensures ModeAfter(a + b, mode) == ModeAfter(b, ModeAfter(a, mode))
  {
    if a == "" {
      assert a + b == b;
    } else {
      assert (a + b)[1..] == a[1..] + b;
      StripConcat(a[1..], b, NextMode(a[0], mode));
    }
  }

  /** Outside a literal: `t` leaves us outside again and strips to `s`. */
  predicate StripsTo(t: string, s: string) { Strip(t, Outside) == s && ModeAfter(t, Outside) == Outside }

  lemma StripsConcat(a: string, b: string, sa: string, sb: string)
    requires StripsTo(a, sa) && StripsTo(b, sb)
    ensures StripsTo(a + b, sa + sb)
  {
    StripConcat(a, b, Outside);
  }

  lemma {:induction false} WhiteStrips(t: string)
    requires White(t)
    ensures StripsTo(t, "")
  {
    if t != "" { WhiteStrips(t[1..]); }
  }

  /** Text without whitespace and quotes is unchanged. */
  lemma {:induction false} SolidStrips(t: string)
    requires forall i | 0 <= i < |t| :: !L.IsSpace(t[i]) && t[i] != '"'
    ensures StripsTo(t, t)
  {
    if t != "" { SolidStrips(t[1..]); }
  }

  /** Inside a literal: `t` is kept and leaves us inside. */
  predicate Kept(t: string) { Strip(t, Inside) == t && ModeAfter(t, Inside) == Inside }

  lemma KeptConcat(a: string, b: string)
    requires Kept(a) && Kept(b)
    ensures Kept(a + b)
  {
    StripConcat(a, b, Inside);
  }

  lemma {:induction false} OrdinaryKept(t: string)
    requires forall i | 0 <= i < |t| :: t[i] != '"' && t[i] != '\\'
    ensures Kept(t)
  {
    if t != "" { OrdinaryKept(t[1..]); }
  }

  lemma PairKept(c: char)
    ensures Kept(['\\', c])
  {
    assert ['\\', c][1..] == [c] && [c][1..] == "";
    assert Strip([c], Escape) == [c] + Strip("", Inside);
    assert ModeAfter([c], Escape) == ModeAfter("", Inside);
  }

  lemma {:induction false} HexOrdinary(u: nat, n: nat, caps: nat)
    ensures forall i | 0 <= i < n :: IsHex(Hex(u, n, caps)[i])
  {
    if n > 0 {
      HexOrdinary(u / 16, n - 1, caps / 2);
      HexCharValue(u % 16, caps % 2 == 1);
    }
  }

  lemma EscapeUnitKept(u: nat, caps: nat)
    requires u <= 0xFFFF
    ensures Kept(EscapeUnit(u, caps))
  {
    PairKept('u');
    HexOrdinary(u, 4, caps);
    OrdinaryKept(Hex(u, 4, caps));
    KeptConcat(['\\', 'u'], Hex(u, 4, caps));
  }

  lemma PieceKept(x: Piece)
    requires LegalPiece(x)
    ensures Kept(Spell(x))
  {
    hide EscapeUnit, Hex;
    match x
    case Raw(c) => OrdinaryKept([c]);
    case Short(e) => PairKept(e);
    case Code(cp, caps) =>
      if cp <= 0xFFFF {
        EscapeUnitKept(cp, caps);
      } else {
        var high, low := Surrogates(cp);
        EscapeUnitKept(high, caps / 16);
        EscapeUnitKept(low, caps);
        KeptConcat(EscapeUnit(high, caps / 16), EscapeUnit(low, caps));
      }
  }

  lemma {:induction false} PiecesKept(xs: seq<Piece>)
    requires LegalPieces(xs)
    ensures Kept(SpellAll(xs))
  {
    hide Spell, LegalPiece;
    if xs != [] {
      PieceKept(xs[0]);
      PiecesKept(xs[1..]);
      KeptConcat(Spell(xs[0]), SpellAll(xs[1..]));
    }
  }

  lemma QuotedStrips(s: string)
    ensures StripsTo(Quoted(s), Quoted(s))
  {
    hide SpellAll, QuotePieces;
    var body := Escaped(s);
    PiecesKept(QuotePieces(s));
    StripConcat("\"", body, Outside);
    StripConcat("\"" + body, "\"", Outside);
    assert ModeAfter("\"", Outside) == ModeAfter("", Inside) == Inside;
  }

  lemma AtomStrips(v: Value)
    requires !v.IsContainer() && !v.Real?
    ensures StripsTo(Atom(v), Atom(v))
  {
    hide StripsTo, N.Decimal;
    if v.Str? {
      QuotedStrips(v.s);
    } else {
      if v.Int? {
        N.DecimalDenotes(if v.i < 0 then 0 - v.i else v.i);
      } else if v.UInt? {
        N.DecimalDenotes(v.u);
      }
      SolidStrips(Atom(v));
    }
  }

  /** Whatever the layout, removing the whitespace gives the compact text. */
  lemma {:induction false} RenderStrips(v: Value, l: Layout)
    requires RealFree(v) && Fits(v, l)
    ensures StripsTo(Render(v, l), Compact(v))
    decreases v, 0
  {
    hide StripsTo, RenderElems, RenderMembers;
    match v
    case Arr(e) =>
      SolidStrips("[");
      SolidStrips("]");
      var inner := if e == [] then l.inside else RenderElems(e, l.slots);
      if e == [] { WhiteStrips(inner); } else { ElemsStrip(e, l.slots); }
      StripsConcat("[", inner, "[", CompactElems(e));
      StripsConcat("[" + inner, "]", "[" + CompactElems(e), "]");
    case Obj(m) =>
      SolidStrips("{");
      SolidStrips("}");
      var inner := if m == [] then l.inside else RenderMembers(m, l.slots);
      if m == [] { WhiteStrips(inner); } else { MembersStrip(m, l.slots); }
      StripsConcat("{", inner, "{", CompactMembers(m));
      StripsConcat("{" + inner, "}", "{" + CompactMembers(m), "}");
    case _ => AtomStrips(v);
  }

  lemma {:induction false} ElemsStrip(e: seq<Value>, slots: seq<Slot>)
    requires e != [] && (forall i | 0 <= i < |e| :: RealFree(e[i])) && ElemsFit(e, slots)
    ensures StripsTo(RenderElems(e, slots), CompactElems(e))
    decreases e, 1
  {
    hide StripsTo, Render, Compact, Pad;
    var s := slots[0];
    var body := Render(e[0], s.inner);
    var entry := Pad(s.before, body, s.after);
    RenderStrips(e[0], s.inner);
    Padded(s.before, body, s.after, Compact(e[0]));
    if |e| > 1 {
      ElemsStrip(e[1..], slots[1..]);
      SolidStrips(",");
      StripsConcat(",", RenderElems(e[1..], slots[1..]), ",", CompactElems(e[1..]));
      StripsConcat(entry, "," + RenderElems(e[1..], slots[1..]), Compact(e[0]), "," + CompactElems(e[1..]));
    } else {
      assert RenderElems(e, slots) == entry;
      assert CompactElems(e) == Compact(e[0]);
    }
  }

  lemma {:induction false} MembersStrip(m: seq<Member>, slots: seq<Slot>)
    requires m != [] && (forall i | 0 <= i < |m| :: RealFree(m[i].value)) && MembersFit(m, slots)
    ensures StripsTo(RenderMembers(m, slots), CompactMembers(m))
    decreases m, 1
  {
    hide StripsTo, Render, Compact, Quoted, Pad;
    var s := slots[0];
    var key := Quoted(m[0].name);
    var body := Render(m[0].value, s.inner);
    QuotedStrips(m[0].name);
    Padded(s.before, key, s.afterKey, key);
    SolidStrips(":");
    var left, right := Pad(s.before, key, s.afterKey) + ":", Pad(s.afterColon, body, s.after);
    StripsConcat(Pad(s.before, key, s.afterKey), ":", key, ":");
    RenderStrips(m[0].value, s.inner);
    Padded(s.afterColon, body, s.after, Compact(m[0].value));
    StripsConcat(left, right, key + ":", Compact(m[0].value));
    var entry := left + right;
    if |m| > 1 {
      var rest := RenderMembers(m[1..], slots[1..]);
      MembersStrip(m[1..], slots[1..]);
      SolidStrips(",");
      StripsConcat(",", rest, ",", CompactMembers(m[1..]));
      StripsConcat(entry, "," + rest, key + ":" + Compact(m[0].value), "," + CompactMembers(m[1..]));
    } else {
      assert RenderMembers(m, slots) == entry;
      assert CompactMembers(m) == key + ":" + Compact(m[0].value);
    }
  }

  lemma Padded(before: string, body: string, after: string, stripped: string)
    requires White(before) && White(after) && StripsTo(body, stripped)
    ensures StripsTo(Pad(before, body, after), stripped)
  {
    hide StripsTo;
    WhiteStrips(before);
    WhiteStrips(after);
    StripsConcat(before, body, "", stripped);
    StripsConcat(before + body, after, "" + stripped, "");
    assert "" + stripped + "" == stripped;
  }
}
