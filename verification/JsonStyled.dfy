/** What `StyledWriter` prints: the layout it chooses, and that up to whitespace
    it is the compact text, except that it cuts keys at their first NUL. */
module JsonStyled {
  import opened JsonValue
  import opened JsonString
  import opened JsonText
  import opened JsonOrder
  import opened JsonParser
  import G = JsonGrammar
  import JsonReading
  import N = JsonNumber
  import R = JsonRoundTrip

  const RIGHT_MARGIN: nat := 74
  const INDENT_SIZE: nat := 3

  /** A value that is printed without a line break: a scalar or an empty container. */
  predicate Flat(v: Value) { !v.IsContainer() || v.Count() == 0 }

  function FlatText(v: Value): string
    requires Flat(v)
  {
    if v.Arr? then "[]" else if v.Obj? then "{}" else Atom(v)
  }

  /** `ArrayIndex` is a 32-bit unsigned integer. */
  function Wrap32(n: nat): nat { n % 0x1_0000_0000 }

  predicate AllFlat(e: seq<Value>) { forall i | 0 <= i < |e| :: Flat(e[i]) }

  function TextLength(e: seq<Value>): nat
    requires AllFlat(e)
  {
    if e == [] then 0 else |FlatText(e[0])| + TextLength(e[1..])
  }

  /** `isMultineArray`: many entries, a nonempty container among them, or too long a line. */
  predicate Multiline(e: seq<Value>)
    requires e != []
  {
    || Wrap32(|e| * 3) >= RIGHT_MARGIN
    || !AllFlat(e)
    || Wrap32(4 + (|e| - 1) * 2 + TextLength(e)) >= RIGHT_MARGIN
  }

  /** `writeIndent`: what the document is afterwards. */
  function Indented(doc: string, indent: string): string {
    if doc == "" then indent
    else if doc[|doc| - 1] == ' ' then doc
    else if doc[|doc| - 1] == '\n' then doc + indent
    else doc + "\n" + indent
  }

  function Deeper(indent: string): string { indent + "   " }

  /** `writeValue`: the document after printing a value behind it. */
  function Styled(doc: string, v: Value, indent: string): string
    requires RealFree(v)
    decreases v, 0
  {
    if v.Arr? then
      if v.elems == [] then doc + "[]"
      else if Multiline(v.elems) then
        Indented(StyledElems(Indented(doc, indent) + "[", v.elems, Deeper(indent)), indent) + "]"
      else doc + "[ " + OneLine(v.elems) + " ]"
    else if v.Obj? then
      if v.members == [] then doc + "{}"
      else Indented(StyledMembers(Indented(doc, indent) + "{", v.members, Deeper(indent)), indent) + "}"
    else doc + Atom(v)
  }

  /** The entries of an array that fits on one line. */
  function OneLine(e: seq<Value>): string
    requires AllFlat(e)
  {
    if e == [] then "" else FlatText(e[0]) + if |e| == 1 then "" else ", " + OneLine(e[1..])
  }

  function StyledElems(doc: string, e: seq<Value>, indent: string): string
    requires e != [] && forall i | 0 <= i < |e| :: RealFree(e[i])
    decreases e, 1
  {
    var next := Styled(Indented(doc, indent), e[0], indent);
    if |e| == 1 then next else StyledElems(next + ",", e[1..], indent)
  }

  function StyledMembers(doc: string, m: seq<Member>, indent: string): string
    requires m != [] && forall i | 0 <= i < |m| :: RealFree(m[i].value)
    decreases m, 1
  {
    var next := Styled(Indented(doc, indent) + Quoted(CStr(m[0].name)) + " : ", m[0].value, indent);
    if |m| == 1 then next else StyledMembers(next + ",", m[1..], indent)
  }

  /** `StyledWriter::write`. */
  function StyledText(v: Value): string
    requires RealFree(v)
  {
    Styled("", v, "") + "\n"
  }

  // ---- keys cut at NUL ----

  function Cut(v: Value): Value {
    match v
    case Arr(e) => Arr(CutElems(e))
    case Obj(m) => Obj(CutMembers(m))
    case _ => v
  }

  function CutElems(e: seq<Value>): (r: seq<Value>)
    ensures |r| == |e|
  {
    if e == [] then [] else [Cut(e[0])] + CutElems(e[1..])
  }

  function CutMembers(m: seq<Member>): (r: seq<Member>)
    ensures |r| == |m|
  {
    if m == [] then [] else [Member(CStr(m[0].name), Cut(m[0].value))] + CutMembers(m[1..])
  }

  predicate NulFreeKeys(v: Value) {
    match v
    case Arr(e) => forall i | 0 <= i < |e| :: NulFreeKeys(e[i])
    case Obj(m) => forall i | 0 <= i < |m| :: '\0' !in m[i].name && NulFreeKeys(m[i].value)
    case _ => true
  }

  // ---- the styled text is a rendering ----

  lemma IndentedIsWhite(doc: string, indent: string) returns (white: string)
    requires White(indent)
    ensures White(white) && Indented(doc, indent) == doc + white
  {
    if doc == "" { white := indent; }
    else if doc[|doc| - 1] == ' ' { white := ""; }
    else if doc[|doc| - 1] == '\n' { white := indent; }
    else { white := "\n" + indent; }
  }

  lemma {:induction false} CutKeepsRealFree(v: Value)
    requires RealFree(v)
    ensures RealFree(Cut(v))
    decreases v, 0
  {
    match v
    case Arr(e) => CutElemsRealFree(e);
    case Obj(m) => CutMembersRealFree(m);
    case _ =>
  }

  lemma {:induction false} CutElemsRealFree(e: seq<Value>)
    requires forall i | 0 <= i < |e| :: RealFree(e[i])
    ensures forall i | 0 <= i < |e| :: RealFree(CutElems(e)[i])
    decreases e, 1
  {
    if e != [] {
      CutKeepsRealFree(e[0]);
      CutElemsRealFree(e[1..]);
    }
  }

  lemma {:induction false} CutMembersRealFree(m: seq<Member>)
    requires forall i | 0 <= i < |m| :: RealFree(m[i].value)
    ensures forall i | 0 <= i < |m| :: RealFree(CutMembers(m)[i].value)
    decreases m, 1
  {
    if m != [] {
      CutKeepsRealFree(m[0].value);
      CutMembersRealFree(m[1..]);
    }
  }

  /** The styled text is whitespace and then the value, with cut keys, in some layout. */
  lemma {:induction false} StyledRenders(doc: string, v: Value, indent: string) returns (white: string, l: Layout)
    requires RealFree(v) && White(indent)
    ensures White(white) && Fits(Cut(v), l)
    ensures Styled(doc, v, indent) == doc + white + Render(Cut(v), l)
    decreases v, 1
  {
    hide Styled, Cut, Fits, Render, White;
    if v.Arr? && v.elems != [] {
      white, l := ArrayRenders(doc, v, indent);
    } else if v.Obj? && v.members != [] {
      white, l := ObjectRenders(doc, v, indent);
    } else {
      white, l := "", Layout("", []);
      AtomRenders(doc, v, indent);
    }
  }

  lemma AtomRenders(doc: string, v: Value, indent: string)
    requires RealFree(v) && !(v.Arr? && v.elems != []) && !(v.Obj? && v.members != [])
    ensures White("") && Fits(Cut(v), Layout("", []))
    ensures Styled(doc, v, indent) == doc + "" + Render(Cut(v), Layout("", []))
  {
    hide StyledElems, StyledMembers;
    assert doc + "" == doc;
  }

  lemma {:induction false} ArrayRenders(doc: string, v: Value, indent: string) returns (white: string, l: Layout)
    requires v.Arr? && v.elems != [] && RealFree(v) && White(indent)
    ensures White(white) && Fits(Cut(v), l)
    ensures Styled(doc, v, indent) == doc + white + Render(Cut(v), l)
    decreases v, 0
  {
    hide StyledElems, RenderElems, CutElems, OneLine, Indented, Multiline, AllFlat, White;
    WhiteNothing();
    if Multiline(v.elems) {
      white := IndentedIsWhite(doc, indent);
      var deeper := Deeper(indent);
      DeeperIsWhite(indent);
      var begun := doc + white + "[";
      var slots := ElemsRender(begun, v.elems, deeper);
      var last := IndentedIsWhite(StyledElems(begun, v.elems, deeper), indent);
      slots := CloseElems(CutElems(v.elems), slots, last);
      l := Layout("", slots);
    } else {
      MultilineOtherwise(v.elems);
      white := "";
      var slots := OneLineRenders(v.elems);
      l := Layout("", slots);
      assert "[ " + OneLine(v.elems) + " ]" == "[" + (" " + OneLine(v.elems) + " ") + "]";
    }
  }

  lemma WhiteNothing()
    ensures White("")
  {
  }

  lemma DeeperIsWhite(indent: string)
    requires White(indent)
    ensures White(Deeper(indent))
  {
  }

  lemma MultilineOtherwise(e: seq<Value>)
    requires e != [] && !Multiline(e)
    ensures AllFlat(e)
  {
  }

  lemma {:induction false} ObjectRenders(doc: string, v: Value, indent: string) returns (white: string, l: Layout)
    requires v.Obj? && v.members != [] && RealFree(v) && White(indent)
    ensures White(white) && Fits(Cut(v), l)
    ensures Styled(doc, v, indent) == doc + white + Render(Cut(v), l)
    decreases v, 0
  {
    hide StyledMembers, RenderMembers, CutMembers, Indented, White;
    WhiteNothing();
    white := IndentedIsWhite(doc, indent);
    var deeper := Deeper(indent);
    DeeperIsWhite(indent);
    var begun := doc + white + "{";
    var slots := MembersRender(begun, v.members, deeper);
    var last := IndentedIsWhite(StyledMembers(begun, v.members, deeper), indent);
    slots := CloseMembers(CutMembers(v.members), slots, last);
    l := Layout("", slots);
  }

  lemma WhiteAppend(s: string, t: string)
    requires White(t)
    ensures White(s) ==> White(s + t)
  {
  }

  /** Whitespace behind the last entry belongs to its slot. */
  lemma {:induction false} CloseElems(e: seq<Value>, slots: seq<Slot>, white: string) returns (closed: seq<Slot>)
    requires e != [] && ElemsFit(e, slots) && White(white)
    ensures ElemsFit(e, closed) && RenderElems(e, closed) == RenderElems(e, slots) + white
    decreases |e|
  {
    hide Render, Fits, White;
    WhiteAppend(slots[0].after, white);
    if |e| == 1 {
      closed := [slots[0].(after := slots[0].after + white)];
    } else {
      var rest := CloseElems(e[1..], slots[1..], white);
      closed := [slots[0]] + rest;
      assert closed[1..] == rest;
    }
  }

  lemma {:induction false} CloseMembers(m: seq<Member>, slots: seq<Slot>, white: string) returns (closed: seq<Slot>)
    requires m != [] && MembersFit(m, slots) && White(white)
    ensures MembersFit(m, closed) && RenderMembers(m, closed) == RenderMembers(m, slots) + white
    decreases |m|
  {
    hide Render, Quoted, Fits, White;
    WhiteAppend(slots[0].after, white);
    if |m| == 1 {
      closed := [slots[0].(after := slots[0].after + white)];
    } else {
      var rest := CloseMembers(m[1..], slots[1..], white);
      closed := [slots[0]] + rest;
      assert closed[1..] == rest;
    }
  }

  lemma FlatRenders(v: Value) returns (l: Layout)
    requires Flat(v) && RealFree(v)
    ensures Fits(Cut(v), l) && Render(Cut(v), l) == FlatText(v)
  {
    l := Layout("", []);
  }

  lemma SpaceIsWhite()
    ensures White("") && White(" ") && ElemsFit([], [])
  {
  }

  lemma {:induction false} OneLineRenders(e: seq<Value>) returns (slots: seq<Slot>)
    requires e != [] && AllFlat(e) && forall i | 0 <= i < |e| :: RealFree(e[i])
    ensures ElemsFit(CutElems(e), slots) && RenderElems(CutElems(e), slots) == " " + OneLine(e) + " "
    decreases |e|
  {
    hide Render, FlatText, Cut, Fits, RealFree, White, RenderElems, ElemsFit, Pad;
    SpaceIsWhite();
    var l := FlatRenders(e[0]);
    var text := FlatText(e[0]);
    if |e| == 1 {
      slots := [Slot(" ", "", "", l, " ")];
      ElemsCons(Cut(e[0]), slots[0], [], []);
      OneLineText(text, "");
      assert [Cut(e[0])] + [] == CutElems(e) && slots + [] == slots;
    } else {
      var rest := OneLineRenders(e[1..]);
      var slot := Slot(" ", "", "", l, "");
      slots := [slot] + rest;
      ElemsCons(Cut(e[0]), slot, CutElems(e[1..]), rest);
      OneLineText(text, OneLine(e[1..]));
    }
  }

  lemma OneLineText(text: string, rest: string)
    ensures Pad(" ", text, " ") == " " + text + " "
    ensures Pad(" ", text, "") + ("," + (" " + rest + " ")) == " " + (text + (", " + rest)) + " "
  {
  }

  /** One more entry in front. */
  lemma ElemsCons(v: Value, s: Slot, e: seq<Value>, slots: seq<Slot>)
    requires WhiteSlot(s) && Fits(v, s.inner) && ElemsFit(e, slots)
    ensures ElemsFit([v] + e, [s] + slots)
    ensures RenderElems([v] + e, [s] + slots)
            == Pad(s.before, Render(v, s.inner), s.after) + if e == [] then "" else "," + RenderElems(e, slots)
  {
    hide Render, Fits, WhiteSlot, Pad;
    assert ([v] + e)[1..] == e && ([s] + slots)[1..] == slots;
  }

  lemma {:induction false} ElemsRender(doc: string, e: seq<Value>, indent: string) returns (slots: seq<Slot>)
    requires e != [] && White(indent) && forall i | 0 <= i < |e| :: RealFree(e[i])
    ensures ElemsFit(CutElems(e), slots)
    ensures StyledElems(doc, e, indent) == doc + RenderElems(CutElems(e), slots)
    decreases e, 1
  {
    hide Styled, Render, Cut, Indented;
    var before := IndentedIsWhite(doc, indent);
    var white, l := StyledRenders(doc + before, e[0], indent);
    var slot := Slot(before + white, "", "", l, "");
    var body := Render(Cut(e[0]), l);
    var next := doc + before + white + body;
    assert next == doc + Pad(slot.before, body, "");
    if |e| == 1 {
      slots := [slot];
      assert CutElems(e) == [Cut(e[0])];
    } else {
      var rest := ElemsRender(next + ",", e[1..], indent);
      slots := [slot] + rest;
      assert slots[1..] == rest && CutElems(e)[1..] == CutElems(e[1..]);
    }
  }

  lemma {:induction false} MembersRender(doc: string, m: seq<Member>, indent: string) returns (slots: seq<Slot>)
    requires m != [] && White(indent) && forall i | 0 <= i < |m| :: RealFree(m[i].value)
    ensures MembersFit(CutMembers(m), slots)
    ensures StyledMembers(doc, m, indent) == doc + RenderMembers(CutMembers(m), slots)
    decreases m, 1
  {
    hide Styled, Render, Cut, Indented, Quoted;
    var before := IndentedIsWhite(doc, indent);
    var key := Quoted(CStr(m[0].name));
    var white, l := StyledRenders(doc + before + key + " : ", m[0].value, indent);
    var slot := Slot(before, " ", " " + white, l, "");
    var body := Render(Cut(m[0].value), l);
    var next := doc + before + key + " : " + white + body;
    assert next == doc + (Pad(before, key, " ") + ":" + Pad(" " + white, body, ""));
    if |m| == 1 {
      slots := [slot];
      assert CutMembers(m) == [Member(CStr(m[0].name), Cut(m[0].value))];
    } else {
      var rest := MembersRender(next + ",", m[1..], indent);
      slots := [slot] + rest;
      assert slots[1..] == rest && CutMembers(m)[1..] == CutMembers(m[1..]);
    }
  }

  // ---- the lines ----

  /** Three blanks a level. */
  function Margin(level: nat): (s: string)
    ensures |s| == 3 * level && forall c | c in s :: c == ' '
  {
    seq(3 * level, _ => ' ')
  }

  /** The printed value at some level, from behind what stands on its first line: every
      entry on a line of its own, one level further in, and the closing bracket back
      on the level of the opening one. */
  function Pretty(v: Value, level: nat): string
    requires RealFree(v)
    decreases v, 0
  {
    if v.Arr? && v.elems != [] then
      if Multiline(v.elems) then "[" + PrettyElems(v.elems, level + 1) + "\n" + Margin(level) + "]"
      else "[ " + OneLine(v.elems) + " ]"
    else if v.Obj? && v.members != [] then "{" + PrettyMembers(v.members, level + 1) + "\n" + Margin(level) + "}"
    else FlatText(v)
  }

  function PrettyElems(e: seq<Value>, level: nat): string
    requires e != [] && forall i | 0 <= i < |e| :: RealFree(e[i])
    decreases e, 1
  {
    "\n" + Margin(level) + Pretty(e[0], level) + if |e| == 1 then "" else "," + PrettyElems(e[1..], level)
  }

  function PrettyMembers(m: seq<Member>, level: nat): string
    requires m != [] && forall i | 0 <= i < |m| :: RealFree(m[i].value)
    decreases m, 1
  {
    "\n" + Margin(level) + Quoted(CStr(m[0].name)) + " : " + Pretty(m[0].value, level)
    + if |m| == 1 then "" else "," + PrettyMembers(m[1..], level)
  }

  /** What the writer appends piece by piece are these lines. */
  lemma StyledIsPretty(v: Value)
    requires RealFree(v)
    ensures StyledText(v) == Pretty(v, 0) + "\n"
  {
    hide Styled, Pretty;
    assert Margin(0) == "";
    PrettyBehind("", v, 0);
    assert "" + Pretty(v, 0) == Pretty(v, 0);
  }

  /** A value follows the margin of its line, or a colon, or nothing at all. */
  predicate Ready(doc: string, level: nat) { if doc == "" then level == 0 else doc[|doc| - 1] == ' ' }

  lemma ReadyStays(doc: string, level: nat)
    requires Ready(doc, level)
    ensures Indented(doc, Margin(level)) == doc
  {
  }

  /** Behind a bracket, a comma or an entry a new line begins. */
  lemma LineBegins(doc: string, c: char, level: nat)
    requires c != ' ' && c != '\n'
    ensures Indented(doc + [c], Margin(level)) == doc + [c] + "\n" + Margin(level)
    ensures level > 0 ==> Ready(doc + [c] + "\n" + Margin(level), level)
  {
    var t := doc + [c] + "\n" + Margin(level);
    if level > 0 { assert t[|t| - 1] == Margin(level)[3 * level - 1]; }
  }

  lemma {:induction false} PrettyBehind(doc: string, v: Value, level: nat)
    requires RealFree(v) && Ready(doc, level)
    ensures Styled(doc, v, Margin(level)) == doc + Pretty(v, level)
    decreases v, 2
  {
    hide StyledElems, StyledMembers, PrettyElems, PrettyMembers, Indented, OneLine, Multiline, Margin;
    if v.Arr? && v.elems != [] && Multiline(v.elems) {
      ArrayBehind(doc, v, level);
    } else if v.Obj? && v.members != [] {
      ObjectBehind(doc, v, level);
    } else if v.Arr? && v.elems != [] {
      MultilineOtherwise(v.elems);
      Joined(doc, "[ ", OneLine(v.elems), " ]");
    }
  }

  lemma {:induction false} ArrayBehind(doc: string, v: Value, level: nat)
    requires RealFree(v) && Ready(doc, level) && v.Arr? && v.elems != [] && Multiline(v.elems)
    ensures Styled(doc, v, Margin(level)) == doc + Pretty(v, level)
    decreases v, 0
  {
    hide StyledElems, PrettyElems, Indented, Multiline, Margin, Ready;
    ReadyStays(doc, level);
    MarginDeeper(level);
    var inside := PrettyElems(v.elems, level + 1);
    ElemsBehind(doc, '[', v.elems, level + 1);
    var last := ElemsEnd(v.elems, level + 1);
    NewLineBehind(doc + "[", inside, last, level);
    Joined(doc, "[" + inside, "\n" + Margin(level), "]");
    Joined(doc, "[", inside, "");
  }

  lemma {:induction false} ObjectBehind(doc: string, v: Value, level: nat)
    requires RealFree(v) && Ready(doc, level) && v.Obj? && v.members != []
    ensures Styled(doc, v, Margin(level)) == doc + Pretty(v, level)
    decreases v, 0
  {
    hide StyledMembers, PrettyMembers, Indented, Margin, Ready;
    ReadyStays(doc, level);
    MarginDeeper(level);
    var inside := PrettyMembers(v.members, level + 1);
    MembersBehind(doc, '{', v.members, level + 1);
    var last := MembersEnd(v.members, level + 1);
    NewLineBehind(doc + "{", inside, last, level);
    Joined(doc, "{" + inside, "\n" + Margin(level), "}");
    Joined(doc, "{", inside, "");
  }

  lemma NewLineBehind(doc: string, t: string, last: char, level: nat)
    requires t != "" && last == t[|t| - 1] && last != ' ' && last != '\n'
    ensures Indented(doc + t, Margin(level)) == doc + t + ("\n" + Margin(level))
  {
    hide Margin;
  }

  lemma MarginDeeper(level: nat)
    ensures Deeper(Margin(level)) == Margin(level + 1)
  {
  }

  lemma Joined(doc: string, a: string, b: string, c: string)
    ensures doc + a + b + c == doc + (a + b + c) && doc + a + b == doc + (a + b)
  {
  }

  lemma {:induction false} ElemsBehind(doc: string, c: char, e: seq<Value>, level: nat)
    requires e != [] && level > 0 && c != ' ' && c != '\n' && forall i | 0 <= i < |e| :: RealFree(e[i])
    ensures StyledElems(doc + [c], e, Margin(level)) == doc + [c] + PrettyElems(e, level)
    decreases e, 1
  {
    hide Styled, Pretty, Indented, Margin, Ready;
    var begun := doc + [c] + "\n" + Margin(level);
    LineBegins(doc, c, level);
    PrettyBehind(begun, e[0], level);
    if |e| > 1 {
      ElemsBehind(begun + Pretty(e[0], level), ',', e[1..], level);
      assert begun + Pretty(e[0], level) + [','] + PrettyElems(e[1..], level)
             == doc + [c] + ("\n" + Margin(level) + Pretty(e[0], level) + ("," + PrettyElems(e[1..], level)));
    } else {
      assert begun + Pretty(e[0], level) == doc + [c] + ("\n" + Margin(level) + Pretty(e[0], level) + "");
    }
  }

  lemma {:induction false} MembersBehind(doc: string, c: char, m: seq<Member>, level: nat)
    requires m != [] && level > 0 && c != ' ' && c != '\n' && forall i | 0 <= i < |m| :: RealFree(m[i].value)
    ensures StyledMembers(doc + [c], m, Margin(level)) == doc + [c] + PrettyMembers(m, level)
    decreases m, 1
  {
    hide Styled, Pretty, Indented, Margin, Quoted;
    var begun := doc + [c] + "\n" + Margin(level) + Quoted(CStr(m[0].name)) + " : ";
    LineBegins(doc, c, level);
    PrettyBehind(begun, m[0].value, level);
    var body := Pretty(m[0].value, level);
    if |m| > 1 {
      MembersBehind(begun + body, ',', m[1..], level);
      assert begun + body + [','] + PrettyMembers(m[1..], level)
             == doc + [c] + ("\n" + Margin(level) + Quoted(CStr(m[0].name)) + " : " + body
                             + ("," + PrettyMembers(m[1..], level)));
    } else {
      assert begun + body == doc + [c] + ("\n" + Margin(level) + Quoted(CStr(m[0].name)) + " : " + body + "");
    }
  }

  /** No entry ends in a blank or a line feed. */
  lemma PrettyEnd(v: Value, level: nat) returns (c: char)
    requires RealFree(v)
    ensures Pretty(v, level) != "" && c == Pretty(v, level)[|Pretty(v, level)| - 1] && c != ' ' && c != '\n'
  {
    hide PrettyElems, PrettyMembers, OneLine, Multiline, Margin;
    if !Flat(v) {
      var t := Pretty(v, level);
      c := t[|t| - 1];
    } else {
      c := FlatEnd(v);
    }
  }

  lemma FlatEnd(v: Value) returns (c: char)
    requires RealFree(v) && Flat(v)
    ensures FlatText(v) != "" && c == FlatText(v)[|FlatText(v)| - 1] && c != ' ' && c != '\n'
  {
    hide N.Decimal, Escaped;
    var t := FlatText(v);
    if v.Int? || v.UInt? {
      var n := N.Number(v);
      N.DecimalDenotes(if n < 0 then -n else n);
      assert N.AllDigits(N.Decimal(if n < 0 then -n else n));
      var d := N.Decimal(if n < 0 then -n else n);
      assert t[|t| - 1] == d[|d| - 1];
    }
    c := t[|t| - 1];
  }

  lemma {:induction false} ElemsEnd(e: seq<Value>, level: nat) returns (c: char)
    requires e != [] && forall i | 0 <= i < |e| :: RealFree(e[i])
    ensures
      var t := PrettyElems(e, level);
      t != "" && c == t[|t| - 1] && c != ' ' && c != '\n'
    decreases |e|
  {
    hide Pretty, Margin;
    if |e| == 1 { c := PrettyEnd(e[0], level); } else { c := ElemsEnd(e[1..], level); }
  }

  lemma {:induction false} MembersEnd(m: seq<Member>, level: nat) returns (c: char)
    requires m != [] && forall i | 0 <= i < |m| :: RealFree(m[i].value)
    ensures
      var t := PrettyMembers(m, level);
      t != "" && c == t[|t| - 1] && c != ' ' && c != '\n'
    decreases |m|
  {
    hide Pretty, Margin, Quoted;
    if |m| == 1 { c := PrettyEnd(m[0].value, level); } else { c := MembersEnd(m[1..], level); }
  }

  /** An array is printed on one line exactly if it has fewer than 25 entries, none of
      them a nonempty container, and the line is shorter than 74 characters. */
  lemma MarginDecides(e: seq<Value>)
    requires e != [] && |e| < 0x1000_0000 && (AllFlat(e) ==> |OneLine(e)| < 0x8000_0000)
    ensures Multiline(e) <==> |e| >= 25 || !AllFlat(e) || |"[ " + OneLine(e) + " ]"| >= 74
  {
    hide OneLine, TextLength;
    if AllFlat(e) { OneLineLength(e); }
  }

  lemma {:induction false} OneLineLength(e: seq<Value>)
    requires e != [] && AllFlat(e)
    ensures |OneLine(e)| == (|e| - 1) * 2 + TextLength(e)
  {
    hide FlatText, Flat;
    if |e| > 1 { OneLineLength(e[1..]); } else { assert TextLength(e[1..]) == 0; }
  }

  // ---- the two printers ----

  /** Cutting keys changes the compact text exactly if some key holds a NUL: a
      key that is cut gets shorter, and nothing else changes. */
  lemma {:induction false} CutShortens(v: Value)
    ensures |Compact(Cut(v))| <= |Compact(v)|
    ensures NulFreeKeys(v) ==> Cut(v) == v
    ensures !NulFreeKeys(v) ==> |Compact(Cut(v))| < |Compact(v)|
    decreases v, 0
  {
    hide CompactElems, CompactMembers, Quoted;
    match v
    case Arr(e) => CutElemsShorten(e);
    case Obj(m) => CutMembersShorten(m);
    case _ =>
  }

  lemma {:induction false} CutElemsShorten(e: seq<Value>)
    ensures |CompactElems(CutElems(e))| <= |CompactElems(e)|
    ensures (forall i | 0 <= i < |e| :: NulFreeKeys(e[i])) ==> CutElems(e) == e
    ensures (exists i | 0 <= i < |e| :: !NulFreeKeys(e[i])) ==> |CompactElems(CutElems(e))| < |CompactElems(e)|
    decreases e, 1
  {
    hide Compact, Cut, NulFreeKeys;
    if e != [] {
      CutShortens(e[0]);
      CutElemsShorten(e[1..]);
      assert e == [e[0]] + e[1..];
      assert CutElems(e)[1..] == CutElems(e[1..]);
      if |e| == 1 { assert CompactElems(e[1..]) == ""; }
    }
  }

  lemma {:induction false} CutMembersShorten(m: seq<Member>)
    ensures |CompactMembers(CutMembers(m))| <= |CompactMembers(m)|
    ensures (forall i | 0 <= i < |m| :: '\0' !in m[i].name && NulFreeKeys(m[i].value)) ==> CutMembers(m) == m
    ensures (exists i | 0 <= i < |m| :: '\0' in m[i].name || !NulFreeKeys(m[i].value)) ==>
              |CompactMembers(CutMembers(m))| < |CompactMembers(m)|
    decreases m, 1
  {
    hide Compact, Cut, NulFreeKeys, Quoted;
    if m != [] {
      CutShortens(m[0].value);
      QuotedPrefixShorter(m[0].name);
      CutMembersShorten(m[1..]);
      assert m == [m[0]] + m[1..];
      assert CutMembers(m)[1..] == CutMembers(m[1..]);
      if |m| == 1 { assert CompactMembers(m[1..]) == ""; }
    }
  }

  lemma QuotedPrefixShorter(s: string)
    ensures '\0' !in s ==> CStr(s) == s
    ensures '\0' in s ==> |Quoted(CStr(s))| < |Quoted(s)|
  {
    hide SpellAll, QuotePieces;
    var t := CStr(s);
    assert s == t + s[|t|..];
    EscapedConcat(t, s[|t|..]);
    if |t| < |s| { EscapedNotEmpty(s[|t|..]); }
  }

  lemma EscapedNotEmpty(s: string)
    requires s != ""
    ensures Escaped(s) != ""
  {
  }

  lemma {:induction false} EscapedConcat(s: string, t: string)
    ensures Escaped(s + t) == Escaped(s) + Escaped(t)
    decreases |s|
  {
    hide SpellAll, QuotePieces, QuotePiece, Spell;
    if s == "" {
      assert s + t == t;
      EscapedEmpty();
    } else {
      EscapedConcat(s[1..], t);
      EscapedCons(s[0], s[1..] + t);
      EscapedCons(s[0], s[1..]);
      assert s + t == [s[0]] + (s[1..] + t) && s == [s[0]] + s[1..];
    }
  }

  lemma StyledStrips(v: Value)
    requires RealFree(v)
    ensures StripsTo(StyledText(v), Compact(Cut(v)))
  {
    hide Styled, Render, Compact, Cut, StripsTo;
    var white, l := StyledRenders("", v, "");
    var body := Render(Cut(v), l);
    CutKeepsRealFree(v);
    RenderStrips(Cut(v), l);
    WhiteStrips(white);
    WhiteStrips("\n");
    StripsConcat(white, body, "", Compact(Cut(v)));
    StripsConcat(white + body, "\n", "" + Compact(Cut(v)), "");
    assert "" + Compact(Cut(v)) + "" == Compact(Cut(v));
    assert "" + white + body == white + body;
  }

  /** `StyledWriter` and `FastWriter` print the same text up to whitespace outside
      string literals if and only if no key contains a NUL. */
  lemma PrintersAgree(v: Value)
    requires RealFree(v)
    ensures Strip(StyledText(v), Outside) == Strip(Compact(v) + "\n", Outside) <==> NulFreeKeys(v)
  {
    hide StyledText, Compact, Cut, NulFreeKeys, Strip;
    StyledStrips(v);
    CutShortens(v);
    CompactIsTight(v);
    RenderStrips(v, Tight(v));
    WhiteStrips("\n");
    StripsConcat(Compact(v), "\n", Compact(v), "");
    assert Compact(v) + "" == Compact(v);
  }

  /** Cutting the keys keeps the nesting and shortens the names that contain a NUL. */
  lemma {:induction false} CutNames(v: Value)
    ensures Height(Cut(v)) == Height(v) && R.NameBytes(Cut(v)) <= R.NameBytes(v)
    ensures !NulFreeKeys(v) ==> R.NameBytes(Cut(v)) < R.NameBytes(v)
    decreases v, 0
  {
    hide CutElems, CutMembers, HeightElems, HeightMembers, R.ElemNameBytes, R.MemberNameBytes;
    if v.Arr? {
      CutElemNames(v.elems);
    } else if v.Obj? {
      CutMemberNames(v.members);
    }
  }

  lemma {:induction false} CutElemNames(e: seq<Value>)
    ensures HeightElems(CutElems(e)) == HeightElems(e) && R.ElemNameBytes(CutElems(e)) <= R.ElemNameBytes(e)
    ensures (exists i | 0 <= i < |e| :: !NulFreeKeys(e[i])) ==> R.ElemNameBytes(CutElems(e)) < R.ElemNameBytes(e)
    decreases e, 1
  {
    hide Cut, Height, NulFreeKeys, R.NameBytes;
    if e != [] {
      CutNames(e[0]);
      CutElemNames(e[1..]);
      assert e == [e[0]] + e[1..];
      assert CutElems(e)[1..] == CutElems(e[1..]);
    }
  }

  lemma {:induction false} CutMemberNames(m: seq<Member>)
    ensures HeightMembers(CutMembers(m)) == HeightMembers(m)
    ensures R.MemberNameBytes(CutMembers(m)) <= R.MemberNameBytes(m)
    ensures (exists i | 0 <= i < |m| :: '\0' in m[i].name || !NulFreeKeys(m[i].value)) ==>
              R.MemberNameBytes(CutMembers(m)) < R.MemberNameBytes(m)
    decreases m, 1
  {
    hide Cut, Height, NulFreeKeys, R.NameBytes;
    if m != [] {
      CutNames(m[0].value);
      CutNameLength(m[0].name);
      CutMemberNames(m[1..]);
      assert m == [m[0]] + m[1..];
      assert CutMembers(m)[1..] == CutMembers(m[1..]);
    }
  }

  lemma CutNameLength(s: string)
    ensures |CStr(s)| <= |s| && ('\0' in s ==> |CStr(s)| < |s|)
  {
  }

  /** What `StyledWriter::write` prints, `Reader::parse` reads; and what it reads is
      the value if and only if no key contains a NUL. */
  lemma StyledRoundTrip(v: Value, isDouble: string -> bool)
    requires RealFree(v) && Sorted(v)
    ensures
      var r := Parse(StyledText(v), isDouble);
      && (Height(v) > STACK_LIMIT ==> r == Threw)
      && (Height(v) <= STACK_LIMIT ==>
           && r.Done? && (R.SameValue(v, r.value) <==> NulFreeKeys(v))
           && (NulFreeKeys(v) ==> r.value == R.Norm(v)))
  {
    hide Parse, Styled, Render, Cut, NulFreeKeys, Height, R.Norm, R.SameValue, R.JsonOf, R.NameBytes;
    hide G.ValueOf, G.Depth, G.TextOf, G.Legal, G.Readable;
    CutShortens(v);
    CutNames(v);
    CutKeepsRealFree(v);
    var white, l := StyledRenders("", v, "");
    assert "" + white + Render(Cut(v), l) + "\n" == white + Render(Cut(v), l) + "\n";
    var j := R.JsonOf(Cut(v), l);
    R.PrintedIsText(Cut(v), l, isDouble);
    JsonReading.TextReads(j, white, "\n", isDouble);
    R.ReadNamesFit(Cut(v), l);
    if NulFreeKeys(v) {
      R.PrintedMeans(v, l);
      R.NormIsSame(v);
    } else if R.SameValue(v, G.ValueOf(j)) {
      R.SameNames(v, G.ValueOf(j));
    }
  }
}
