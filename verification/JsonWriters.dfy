/** `FastWriter` and `StyledWriter`: classes that append to `document` while they
    walk the value. Doubles and comments are not printed here. */
module JsonWriters {
  import opened JsonValue
  import opened JsonString
  import opened JsonText
  import opened JsonStyled
  import N = JsonNumber

  /** The text of a scalar, as both writers compute it. */
  method ScalarText(value: Value) returns (text: string)
    requires !value.IsContainer() && !value.Real?
    ensures text == Atom(value)
  {
    if value.Null? {
      text := "null";
    } else if value.Int? {
      text := N.IntToString(value.i);
    } else if value.UInt? {
      text := N.UIntToString(value.u);
    } else if value.Str? {
      text := ValueToQuotedStringN(value.s);
    } else {
      text := if value.b then "true" else "false";
    }
  }

  class FastWriter {
    var document: string

    constructor ()
      ensures document == ""
    {
      document := "";
    }

    method Write(root: Value) returns (text: string)
      requires RealFree(root)
      modifies this
      ensures text == Compact(root) + "\n"
    {
      document := "";
      WriteValue(root);
      document := document + "\n";
      text := document;
    }

    method WriteValue(value: Value)
      requires RealFree(value)
      modifies this
      ensures document == old(document) + Compact(value)
      decreases value
    {
      hide Compact;
      if value.Arr? {
        WriteArray(value);
      } else if value.Obj? {
        WriteObject(value);
      } else {
        var text := ScalarText(value);
        document := document + text;
        CompactAtom(value);
      }
    }

    method WriteArray(value: Value)
      requires value.Arr? && RealFree(value)
      modifies this
      ensures document == old(document) + Compact(value)
      decreases value, 0
    {
      hide Compact, CompactElems, RealFree;
      var e := value.elems;
      ArrayText(value);
      document := document + "[";
      ghost var target := ElemsDoc(document, e, true);
      ElemsDocIs(document, e, true);
      var index := 0;
      while index < |e|
        invariant 0 <= index <= |e|
        invariant ElemsDoc(document, e[index..], index == 0) == target
      {
        assert e[index..][1..] == e[index + 1..];
        if index > 0 { document := document + ","; }
        WriteValue(e[index]);
        index := index + 1;
      }
      document := document + "]";
      assert document == old(document) + ("[" + CompactElems(e) + "]");
    }

    method WriteObject(value: Value)
      requires value.Obj? && RealFree(value)
      modifies this
      ensures document == old(document) + Compact(value)
      decreases value, 0
    {
      hide Compact, CompactMembers, RealFree, Quoted;
      var m := value.members;
      ObjectText(value);
      document := document + "{";
      ghost var target := MembersDoc(document, m, true);
      MembersDocIs(document, m, true);
      var it := 0;
      while it < |m|
        invariant 0 <= it <= |m|
        invariant MembersDoc(document, m[it..], it == 0) == target
      {
        assert m[it..][1..] == m[it + 1..];
        if it > 0 { document := document + ","; }
        var name := ValueToQuotedStringN(m[it].name);
        document := document + name;
        document := document + ":";
        WriteValue(m[it].value);
        it := it + 1;
      }
      document := document + "}";
      assert document == old(document) + ("{" + CompactMembers(m) + "}");
    }
  }

  /** The document after the array loop has written the entries `e`. */
  ghost function ElemsDoc(doc: string, e: seq<Value>, first: bool): string
    decreases |e|
  {
    if e == [] then doc else ElemsDoc((if first then doc else doc + ",") + Compact(e[0]), e[1..], false)
  }

  ghost function MembersDoc(doc: string, m: seq<Member>, first: bool): string
    decreases |m|
  {
    if m == [] then doc
    else MembersDoc((if first then doc else doc + ",") + Quoted(m[0].name) + ":" + Compact(m[0].value), m[1..], false)
  }

  lemma {:induction false} ElemsDocIs(doc: string, e: seq<Value>, first: bool)
    ensures ElemsDoc(doc, e, first) == doc + (if first || e == [] then "" else ",") + CompactElems(e)
    decreases |e|
  {
    hide Compact;
    if e != [] {
      ElemsDocIs((if first then doc else doc + ",") + Compact(e[0]), e[1..], false);
      if |e| == 1 { assert CompactElems(e[1..]) == ""; }
    }
  }

  lemma {:induction false} MembersDocIs(doc: string, m: seq<Member>, first: bool)
    ensures MembersDoc(doc, m, first) == doc + (if first || m == [] then "" else ",") + CompactMembers(m)
    decreases |m|
  {
    hide Compact, Quoted;
    if m != [] {
      MembersDocIs((if first then doc else doc + ",") + Quoted(m[0].name) + ":" + Compact(m[0].value), m[1..], false);
      if |m| == 1 { assert CompactMembers(m[1..]) == ""; }
    }
  }

  lemma CompactAtom(value: Value)
    requires !value.IsContainer()
    ensures Compact(value) == Atom(value)
  {
  }

  lemma ArrayText(value: Value)
    requires value.Arr?
    ensures Compact(value) == "[" + CompactElems(value.elems) + "]"
    ensures RealFree(value) ==> forall i | 0 <= i < |value.elems| :: RealFree(value.elems[i])
  {
  }

  lemma ObjectText(value: Value)
    requires value.Obj?
    ensures Compact(value) == "{" + CompactMembers(value.members) + "}"
    ensures RealFree(value) ==> forall i | 0 <= i < |value.members| :: RealFree(value.members[i].value)
  {
  }

  class StyledWriter {
    var document: string
    var indentString: string
    var childValues: seq<string>
    var addChildValues: bool

    constructor ()
      ensures document == "" && indentString == "" && !addChildValues
    {
      document, indentString, childValues, addChildValues := "", "", [], false;
    }

    /** The indentation is empty again at the end. */
    method Write(root: Value) returns (text: string)
      requires RealFree(root)
      modifies this
      ensures text == StyledText(root) && indentString == ""
    {
      document := "";
      addChildValues := false;
      indentString := "";
      WriteValue(root);
      document := document + "\n";
      text := document;
    }

    method PushValue(value: string)
      modifies this
      ensures addChildValues == old(addChildValues) && indentString == old(indentString)
      ensures addChildValues ==> childValues == old(childValues) + [value] && document == old(document)
      ensures !addChildValues ==> document == old(document) + value && childValues == old(childValues)
    {
      if addChildValues {
        childValues := childValues + [value];
      } else {
        document := document + value;
      }
    }

    method WriteIndent()
      modifies this`document
      ensures document == Indented(old(document), indentString)
    {
      if document != "" {
        var last := document[|document| - 1];
        if last == ' ' { return; }
        if last != '\n' { document := document + "\n"; }
      }
      document := document + indentString;
    }

    method WriteWithIndent(value: string)
      modifies this`document
      ensures document == Indented(old(document), indentString) + value
    {
      WriteIndent();
      document := document + value;
    }

    method Indent()
      modifies this`indentString
      ensures indentString == Deeper(old(indentString))
    {
      indentString := indentString + "   ";
    }

    /** The assertion in the source is this method's precondition. */
    method Unindent()
      requires |indentString| >= INDENT_SIZE
      modifies this`indentString
      ensures indentString == old(indentString)[..|old(indentString)| - INDENT_SIZE]
    {
      indentString := indentString[..|indentString| - INDENT_SIZE];
    }

    /** Appends to the document, or to the child values while an array is measured. */
    method WriteValue(value: Value)
      requires RealFree(value) && (addChildValues ==> Flat(value))
      modifies this
      ensures addChildValues == old(addChildValues) && indentString == old(indentString)
      ensures addChildValues ==> document == old(document) && childValues == old(childValues) + [FlatText(value)]
      ensures !addChildValues ==> document == Styled(old(document), value, indentString)
      ensures Flat(value) && !addChildValues ==> childValues == old(childValues)
      decreases value, 2
    {
      hide Styled, FlatText, RealFree;
      if value.IsContainer() && value.Count() > 0 {
        if value.Arr? { WriteArrayValue(value); } else { WriteMembers(value); }
      } else {
        FlatStyled(document, value, indentString);
        if value.Arr? {
          PushValue("[]");
        } else if value.Obj? {
          PushValue("{}");
        } else {
          var text := ScalarText(value);
          PushValue(text);
        }
      }
    }

    method WriteMembers(value: Value)
      requires value.Obj? && value.members != [] && RealFree(value) && !addChildValues
      modifies this
      ensures !addChildValues && indentString == old(indentString)
      ensures document == Styled(old(document), value, indentString)
      decreases value, 1
    {
      hide Styled, StyledMembers, RealFree, Indented, Quoted;
      var m := value.members;
      ObjectStyled(document, value, indentString);
      WriteWithIndent("{");
      Indent();
      ghost var target := StyledMembers(document, m, indentString);
      var it := 0;
      while true
        invariant 0 <= it < |m|
        invariant !addChildValues && indentString == Deeper(old(indentString))
        invariant StyledMembers(document, m[it..], indentString) == target
        decreases |m| - it
      {
        MembersStyledStep(document, m[it..], indentString);
        var name := ValueToQuotedString(m[it].name);
        WriteWithIndent(name);
        document := document + " : ";
        WriteValue(m[it].value);
        it := it + 1;
        if it == |m| { break; }
        assert m[it - 1..][1..] == m[it..];
        document := document + ",";
      }
      Unindent();
      WriteWithIndent("}");
    }

    method WriteArrayValue(value: Value)
      requires value.Arr? && value.elems != [] && RealFree(value) && !addChildValues
      modifies this
      ensures !addChildValues && indentString == old(indentString)
      ensures document == Styled(old(document), value, indentString)
      decreases value, 1
    {
      hide Styled, StyledElems, RealFree, Indented, Multiline, OneLine, AllFlat, FlatText;
      ArrayStyled(document, value, indentString);
      var isArrayMultiLine := IsMultilineArray(value);
      if isArrayMultiLine {
        WriteWithIndent("[");
        Indent();
        WriteElements(value);
        Unindent();
        WriteWithIndent("]");
      } else {
        WriteOnOneLine(value.elems);
      }
    }

    /** The loop of `writeArrayValue` that gives each entry its own line. */
    method WriteElements(value: Value)
      requires value.Arr? && value.elems != [] && RealFree(value) && !addChildValues
      requires childValues != [] ==> AllFlat(value.elems) && childValues == FlatTexts(value.elems)
      requires forall i | 0 <= i < |value.elems| :: RealFree(value.elems[i])
      modifies this
      ensures !addChildValues && indentString == old(indentString)
      ensures document == StyledElems(old(document), value.elems, indentString)
      decreases value, 0
    {
      hide Styled, StyledElems, RealFree, Indented, AllFlat, FlatText, FlatTexts;
      var e := value.elems;
      var hasChildValue := childValues != [];
      var index := 0;
      while true
        invariant 0 <= index < |e|
        invariant !addChildValues && indentString == old(indentString)
        invariant hasChildValue ==> childValues == old(childValues)
        invariant StyledElems(document, e[index..], indentString) == StyledElems(old(document), e, indentString)
        decreases |e| - index
      {
        ElemsStyledStep(document, e[index..], indentString);
        if hasChildValue {
          FlatElem(e, index);
          FlatStyled(Indented(document, indentString), e[index], indentString);
          WriteWithIndent(childValues[index]);
        } else {
          WriteIndent();
          WriteValue(e[index]);
        }
        index := index + 1;
        if index == |e| { break; }
        assert e[index - 1..][1..] == e[index..];
        document := document + ",";
      }
    }

    /** The branch of `writeArrayValue` for one line; its assertion on the number
        of child values is the precondition. */
    method WriteOnOneLine(ghost e: seq<Value>)
      requires AllFlat(e) && childValues == FlatTexts(e) && |childValues| == |e|
      modifies this`document
      ensures document == old(document) + "[ " + OneLine(e) + " ]"
    {
      hide OneLine, FlatText;
      document := document + "[ ";
      ghost var target := OneLineDoc(document, e, true);
      OneLineDocIs(document, e, true);
      var index := 0;
      while index < |childValues|
        invariant 0 <= index <= |childValues|
        invariant OneLineDoc(document, e[index..], index == 0) == target
      {
        assert e[index..][1..] == e[index + 1..];
        if index > 0 { document := document + ", "; }
        document := document + childValues[index];
        index := index + 1;
      }
      document := document + " ]";
    }

    /** Decides the form of an array; the child values are its entries' texts if
        all of them were measured, and none if a nonempty container or too many
        entries settled the question. */
    method IsMultilineArray(value: Value) returns (isMultiLine: bool)
      requires value.Arr? && value.elems != [] && RealFree(value) && !addChildValues
      modifies this
      ensures !addChildValues && indentString == old(indentString) && document == old(document)
      ensures isMultiLine == Multiline(value.elems)
      ensures childValues != [] || !isMultiLine ==> AllFlat(value.elems) && childValues == FlatTexts(value.elems)
      decreases value, 0
    {
      hide RealFree, FlatText, TextLength, Wrap32;
      var e := value.elems;
      var size := |e|;
      ArrayText(value);
      isMultiLine := Wrap32(size * 3) >= RIGHT_MARGIN;
      childValues := [];
      var index := 0;
      while index < size && !isMultiLine
        invariant 0 <= index <= size
        invariant isMultiLine ==> Wrap32(size * 3) >= RIGHT_MARGIN || !AllFlat(e)
        invariant !isMultiLine ==> Wrap32(size * 3) < RIGHT_MARGIN && forall i | 0 <= i < index :: Flat(e[i])
      {
        var childValue := e[index];
        isMultiLine := childValue.IsContainer() && childValue.Count() > 0;
        index := index + 1;
      }
      if !isMultiLine {
        var lineLength := MeasureLine(value);
        isMultiLine := lineLength >= RIGHT_MARGIN;
      }
    }

    /** The part of `isMultineArray` that prints the entries aside and adds up the
        length of the line in 32 bits. */
    method MeasureLine(value: Value) returns (lineLength: nat)
      requires value.Arr? && value.elems != [] && AllFlat(value.elems) && !addChildValues && childValues == []
      requires forall i | 0 <= i < |value.elems| :: RealFree(value.elems[i])
      modifies this
      ensures !addChildValues && indentString == old(indentString) && document == old(document)
      ensures lineLength == Wrap32(4 + (|value.elems| - 1) * 2 + TextLength(value.elems))
      ensures childValues == FlatTexts(value.elems)
      decreases value, 0, 0
    {
      hide RealFree, FlatText, TextLength, Wrap32;
      var e := value.elems;
      addChildValues := true;
      lineLength := Wrap32(4 + (|e| - 1) * 2);
      var index := 0;
      TextLengthNext(e, 0);
      while index < |e|
        invariant 0 <= index <= |e| && addChildValues
        invariant indentString == old(indentString) && document == old(document)
        invariant childValues == FlatTexts(e)[..index]
        invariant lineLength == Wrap32(4 + (|e| - 1) * 2 + TextLength(e[..index]))
      {
        TextLengthNext(e, index);
        WrapAdds(4 + (|e| - 1) * 2 + TextLength(e[..index]), |FlatText(e[index])|);
        WriteValue(e[index]);
        lineLength := Wrap32(lineLength + |childValues[index]|);
        index := index + 1;
      }
      assert e[..index] == e;
      addChildValues := false;
    }
  }

  lemma WrapAdds(a: nat, b: nat)
    ensures Wrap32(Wrap32(a) + b) == Wrap32(a + b)
  {
    var q, x := a / 0x1_0000_0000, Wrap32(a) + b;
    RemainderIs(x, x / 0x1_0000_0000, Wrap32(x));
    RemainderIs(a + b, q + x / 0x1_0000_0000, Wrap32(x));
  }

  lemma RemainderIs(n: nat, q: nat, r: nat)
    requires n == 0x1_0000_0000 * q + r && r < 0x1_0000_0000
    ensures Wrap32(n) == r
  {
  }

  ghost function FlatTexts(e: seq<Value>): (r: seq<string>)
    requires AllFlat(e)
    ensures |r| == |e|
  {
    seq(|e|, i requires 0 <= i < |e| => FlatText(e[i]))
  }

  ghost function OneLineDoc(doc: string, e: seq<Value>, first: bool): string
    requires AllFlat(e)
    decreases |e|
  {
    if e == [] then doc else OneLineDoc((if first then doc else doc + ", ") + FlatText(e[0]), e[1..], false)
  }

  lemma {:induction false} OneLineDocIs(doc: string, e: seq<Value>, first: bool)
    requires AllFlat(e)
    ensures OneLineDoc(doc, e, first) == doc + (if first || e == [] then "" else ", ") + OneLine(e)
    decreases |e|
  {
    hide FlatText;
    if e != [] {
      OneLineDocIs((if first then doc else doc + ", ") + FlatText(e[0]), e[1..], false);
      if |e| == 1 { assert OneLine(e[1..]) == ""; }
    }
  }

  lemma {:induction false} TextLengthAppend(e: seq<Value>, x: Value)
    requires AllFlat(e) && Flat(x)
    ensures TextLength(e + [x]) == TextLength(e) + |FlatText(x)|
  {
    hide FlatText;
    if e == [] {
      assert TextLength([x]) == |FlatText(x)| + TextLength([]);
      assert e + [x] == [x];
    } else {
      TextLengthAppend(e[1..], x);
      assert (e + [x])[1..] == e[1..] + [x];
    }
  }

  lemma TextLengthNext(e: seq<Value>, i: nat)
    requires i <= |e| && AllFlat(e)
    ensures i < |e| ==> TextLength(e[..i + 1]) == TextLength(e[..i]) + |FlatText(e[i])|
    ensures i == 0 ==> TextLength(e[..i]) == 0
  {
    if i < |e| {
      assert e[..i + 1] == e[..i] + [e[i]];
      TextLengthAppend(e[..i], e[i]);
    }
  }

  lemma FlatStyled(doc: string, value: Value, indent: string)
    requires Flat(value) && RealFree(value)
    ensures Styled(doc, value, indent) == doc + FlatText(value)
    ensures FlatText(value) == if value.Arr? then "[]" else if value.Obj? then "{}" else Atom(value)
    ensures !value.Real?
  {
  }

  lemma FlatElem(e: seq<Value>, i: nat)
    requires i < |e| && AllFlat(e)
    ensures Flat(e[i]) && FlatTexts(e)[i] == FlatText(e[i])
  {
  }

  lemma ObjectStyled(doc: string, value: Value, indent: string)
    requires value.Obj? && value.members != [] && RealFree(value)
    ensures forall i | 0 <= i < |value.members| :: RealFree(value.members[i].value)
    ensures Styled(doc, value, indent) ==
      Indented(StyledMembers(Indented(doc, indent) + "{", value.members, Deeper(indent)), indent) + "}"
  {
  }

  lemma ArrayStyled(doc: string, value: Value, indent: string)
    requires value.Arr? && value.elems != [] && RealFree(value)
    ensures forall i | 0 <= i < |value.elems| :: RealFree(value.elems[i])
    ensures Multiline(value.elems) ==>
              Styled(doc, value, indent) ==
              Indented(StyledElems(Indented(doc, indent) + "[", value.elems, Deeper(indent)), indent) + "]"
    ensures !Multiline(value.elems) ==>
              AllFlat(value.elems) && Styled(doc, value, indent) == doc + "[ " + OneLine(value.elems) + " ]"
  {
  }

  lemma ElemsStyledStep(doc: string, e: seq<Value>, indent: string)
    requires e != [] && forall i | 0 <= i < |e| :: RealFree(e[i])
    ensures
      var next := Styled(Indented(doc, indent), e[0], indent);
      StyledElems(doc, e, indent) == if |e| == 1 then next else StyledElems(next + ",", e[1..], indent)
  {
    hide Styled, Indented;
  }

  lemma MembersStyledStep(doc: string, m: seq<Member>, indent: string)
    requires m != [] && forall i | 0 <= i < |m| :: RealFree(m[i].value)
    ensures
      var next := Styled(Indented(doc, indent) + Quoted(CStr(m[0].name)) + " : ", m[0].value, indent);
      StyledMembers(doc, m, indent) == if |m| == 1 then next else StyledMembers(next + ",", m[1..], indent)
  {
    hide Styled, Indented, Quoted;
  }
}
