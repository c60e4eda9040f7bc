/** Class `Json::Reader` with the default features and without collecting
    comments. Each method moves `current` over the document, records errors and
    is proved against the function of the document that says what it reads.

    The stack `nodes_` of slots being filled becomes the results of the
    recursive calls; `stackDepth` is the global counter `stackDepth_g`. */
module JsonReader {
  import opened JsonValue
  import opened JsonString
  import opened JsonParser
  import JsonNumber
  import L = JsonLexer

  /** How a call ends: successfully, with an error recorded, or by an exception. */
  datatype Status = Success | Failure | Exception

  class Reader {
    const isDouble: string -> bool
    var document: string
    var current: nat
    var errors: seq<Error>
    var stackDepth: nat

    constructor (isDouble: string -> bool)
      ensures this.isDouble == isDouble && document == "" && current == 0 && errors == []
    {
      this.isDouble := isDouble;
      document, current, errors, stackDepth := "", 0, [], 0;
    }

    /** The state and the results after a call that should read what `spec` says. */
    ghost predicate Agrees(spec: Parsed, status: Status, value: Value, oldErrors: seq<Error>, oldDepth: nat)
      reads this
    {
      match spec
      case Done(v, q) => status == Success && value == v && current == q && errors == oldErrors
                         && stackDepth == oldDepth
      case Failed(e, q) => status == Failure && current == q && errors == oldErrors + [e] && stackDepth >= oldDepth
      case Threw => status == Exception && errors == oldErrors
    }

    // ---- tokens ----

    method GetNextChar() returns (c: char)
      requires current <= |document|
      modifies this`current
      ensures c == L.At(document, old(current)) && current == L.Next(document, old(current))
    {
      if current == |document| { return '\0'; }
      c := document[current];
      current := current + 1;
    }

    method SkipSpaces()
      requires current <= |document|
      modifies this`current
      ensures current == L.SpacesEnd(document, old(current))
    {
      while current != |document|
        invariant current <= |document|
        invariant L.SpacesEnd(document, current) == L.SpacesEnd(document, old(current))
        decreases |document| - current
      {
        var c := document[current];
        if c == ' ' || c == '\t' || c == '\r' || c == '\n' {
          current := current + 1;
        } else {
          break;
        }
      }
    }

    method Match(pattern: string) returns (ok: bool)
      requires current <= |document|
      modifies this`current
      ensures ok == L.Matches(document, old(current), pattern)
      ensures current == old(current) + if ok then |pattern| else 0
    {
      if |document| - current < |pattern| { return false; }
      var index := |pattern|;
      while index > 0
        invariant 0 <= index <= |pattern|
        invariant forall k | index <= k < |pattern| :: document[current + k] == pattern[k]
      {
        index := index - 1;
        if document[current + index] != pattern[index] {
          assert document[current..current + |pattern|][index] != pattern[index];
          return false;
        }
      }
      assert document[current..current + |pattern|] == pattern;
      current := current + |pattern|;
      return true;
    }

    method ReadCStyleComment() returns (ok: bool)
      requires current <= |document|
      modifies this`current
      ensures (current, ok) == L.CStyleEnd(document, old(current))
    {
      while current != |document|
        invariant current <= |document|
        invariant L.CStyleEnd(document, current) == L.CStyleEnd(document, old(current))
        decreases |document| - current
      {
        var c := GetNextChar();
        if c == '*' && L.At(document, current) == '/' {
          break;
        }
      }
      var last := GetNextChar();
      ok := last == '/';
    }

    method ReadCppStyleComment() returns (ok: bool)
      requires current <= |document|
      modifies this`current
      ensures ok && current == L.LineEnd(document, old(current))
    {
      while current != |document|
        invariant current <= |document|
        invariant L.LineEnd(document, current) == L.LineEnd(document, old(current))
        decreases |document| - current
      {
        var c := GetNextChar();
        if c == '\n' {
          break;
        }
        if c == '\r' {
          if current != |document| && document[current] == '\n' {
            var lf := GetNextChar();
          }
          break;
        }
      }
      return true;
    }

    method ReadComment() returns (ok: bool)
      requires current <= |document|
      modifies this`current
      ensures (current, ok) == L.CommentEnd(document, old(current))
    {
      var c := GetNextChar();
      ok := false;
      if c == '*' {
        ok := ReadCStyleComment();
      } else if c == '/' {
        ok := ReadCppStyleComment();
      }
    }

    method SkipDigits()
      requires current <= |document|
      modifies this`current
      ensures current == L.DigitsEnd(document, old(current))
    {
      while current < |document| && '0' <= document[current] <= '9'
        invariant current <= |document|
        invariant L.DigitsEnd(document, current) == L.DigitsEnd(document, old(current))
      {
        current := current + 1;
      }
    }

    method ReadNumber()
      requires current <= |document|
      modifies this`current
      ensures current == L.NumberEnd(document, old(current))
    {
      hide L.DigitsEnd;
      SkipDigits();
      if L.At(document, current) == '.' {
        current := current + 1;
        SkipDigits();
      }
      var c := L.At(document, current);
      if c == 'e' || c == 'E' {
        current := current + 1;
        c := L.At(document, current);
        if c == '+' || c == '-' {
          current := current + 1;
        }
        SkipDigits();
      }
    }

    method ReadString() returns (ok: bool)
      requires current <= |document|
      modifies this`current
      ensures (current, ok) == L.StringEnd(document, old(current))
    {
      var c := '\0';
      while current != |document|
        invariant current <= |document|
        invariant L.StringEnd(document, current) == L.StringEnd(document, old(current))
        invariant c != '"'
        decreases |document| - current
      {
        c := GetNextChar();
        if c == '\\' {
          var hidden := GetNextChar();
        } else if c == '"' {
          break;
        }
      }
      ok := c == '"';
    }

    method ReadToken() returns (token: L.Token)
      requires current <= |document|
      modifies this`current
      ensures token == L.ReadToken(document, old(current)) && current == token.end
    {
      SkipSpaces();
      var start := current;
      var c := GetNextChar();
      var ok := true;
      var kind := L.Error;
      if c == '{' { kind := L.ObjectBegin; }
      else if c == '}' { kind := L.ObjectEnd; }
      else if c == '[' { kind := L.ArrayBegin; }
      else if c == ']' { kind := L.ArrayEnd; }
      else if c == '"' { kind := L.String; ok := ReadString(); }
      else if c == '/' { kind := L.Comment; ok := ReadComment(); }
      else if '0' <= c <= '9' || c == '-' { kind := L.Number; ReadNumber(); }
      else if c == 't' { kind := L.True; ok := Match("rue"); }
      else if c == 'f' { kind := L.False; ok := Match("alse"); }
      else if c == 'n' { kind := L.NullToken; ok := Match("ull"); }
      else if c == ',' { kind := L.ArraySeparator; }
      else if c == ':' { kind := L.MemberSeparator; }
      else if c == '\0' { kind := L.EndOfStream; }
      else { ok := false; }
      if !ok { kind := L.Error; }
      token := L.Token(kind, start, current);
    }

    method SkipCommentTokens() returns (token: L.Token)
      requires current <= |document|
      modifies this`current
      ensures token == L.NextToken(document, old(current)) && current == token.end
    {
      token := ReadToken();
      while token.kind == L.Comment
        invariant current == token.end <= |document|
        invariant L.NextToken(document, old(current)) ==
                  if token.kind == L.Comment then L.NextToken(document, current) else token
        invariant token.kind == L.Comment ==> token.start < token.end
        decreases |document| - current, token.kind == L.Comment
      {
        token := ReadToken();
      }
    }

    // ---- errors ----

    method AddError(kind: ErrorKind, token: L.Token, extra: Option<nat>) returns (ok: bool)
      modifies this`errors
      ensures !ok && errors == old(errors) + [Error(kind, token, extra)]
    {
      errors := errors + [Error(kind, token, extra)];
      return false;
    }

    method RecoverFromError(skipUntilToken: L.TokenType) returns (ok: bool)
      requires current <= |document|
      modifies this`current, this`errors
      ensures !ok && errors == old(errors)
      ensures current == L.RecoveryEnd(document, old(current), skipUntilToken)
    {
      var errorCount := |errors|;
      while true
        invariant current <= |document| && errors == old(errors)
        invariant L.RecoveryEnd(document, current, skipUntilToken)
                    == L.RecoveryEnd(document, old(current), skipUntilToken)
        decreases |document| - current
      {
        var skip := ReadToken();
        if skip.kind == skipUntilToken || skip.kind == L.EndOfStream {
          break;
        }
      }
      errors := errors[..errorCount];
      return false;
    }

    method AddErrorAndRecover(kind: ErrorKind, token: L.Token, skipUntilToken: L.TokenType) returns (ok: bool)
      requires current <= |document|
      modifies this`current, this`errors
      ensures !ok && errors == old(errors) + [Error(kind, token, None)]
      ensures current == L.RecoveryEnd(document, old(current), skipUntilToken)
    {
      ok := AddError(kind, token, None);
      ok := RecoverFromError(skipUntilToken);
    }

    // ---- scalars ----

    method DecodeNumber(token: L.Token) returns (ok: bool, decoded: Value)
      requires token.start < token.end <= |document|
      modifies this`errors
      ensures match NumberValue(document, token, isDouble)
        case Done(v, _) => ok && decoded == v && errors == old(errors)
        case Failed(e, _) => !ok && errors == old(errors) + [e]
        case Threw => false
    {
      var text := document[token.start..token.end];
      var integer := JsonNumber.DecodeInteger(text);
      decoded := Null;
      match integer {
        case Some(v) =>
          return true, v;
        case None =>
          if isDouble(text) { return true, Real(text); }
          ok := AddError(NotANumber, token, None);
      }
    }

    method DecodeUnicodeEscapeSequence(token: L.Token, start: nat, end: nat) returns (ok: bool, next: nat, unicode: nat)
      requires start <= end <= |document|
      modifies this`errors
      ensures match EscapeSequence(document, start, end)
        case Unit(cp, q) => ok && unicode == cp && next == q && errors == old(errors)
        case BadUnit(kind, extra) => !ok && errors == old(errors) + [Error(kind, token, Some(extra))]
    {
      hide IsHex, HexValue;
      next, unicode := start, 0;
      if end - start < 4 {
        ok := AddError(FourDigits, token, Some(next));
        return;
      }
      for index := 0 to 4
        invariant next == start + index && errors == old(errors)
        invariant HexDigits(document, next, 4 - index, unicode) == HexDigits(document, start, 4, 0)
      {
        var c := document[next];
        next := next + 1;
        if IsHex(c) {
          unicode := unicode * 16 + HexValue(c);
        } else {
          ok := AddError(HexDigitExpected, token, Some(next));
          return;
        }
      }
      ok := true;
    }

    method DecodeUnicodeCodePoint(token: L.Token, start: nat, end: nat) returns (ok: bool, next: nat, unicode: nat)
      requires start <= end <= |document|
      modifies this`errors
      ensures match UnicodeCodePoint(document, start, end)
        case Unit(cp, q) => ok && unicode == cp && next == q && errors == old(errors)
        case BadUnit(kind, extra) => !ok && errors == old(errors) + [Error(kind, token, Some(extra))]
    {
      hide HexDigits;
      ok, next, unicode := DecodeUnicodeEscapeSequence(token, start, end);
      if !ok { return; }
      if 0xD800 <= unicode <= 0xDBFF {
        if end - next < 6 {
          ok := AddError(SurrogateLength, token, Some(next));
          return;
        }
        next := next + 1;
        var isEscape := document[next - 1] == '\\';
        if isEscape {
          next := next + 1;
          isEscape := document[next - 1] == 'u';
        }
        if !isEscape {
          ok := AddError(SurrogateEscape, token, Some(next));
          return;
        }
        var surrogatePair;
        ok, next, surrogatePair := DecodeUnicodeEscapeSequence(token, next, end);
        if !ok { return; }
        unicode := 0x10000 + unicode % 0x400 * 0x400 + surrogatePair % 0x400;
      }
    }

    /** One character or escape of `decodeString`; `last` at an unescaped quote. */
    method DecodePiece(token: L.Token, start: nat, end: nat) returns (ok: bool, last: bool, piece: string, next: nat)
      requires start < end <= |document|
      modifies this`errors
      ensures match DecodeOne(document, start, end)
        case Stop(Text(s)) => ok && last && s == "" && errors == old(errors)
        case Stop(Bad(kind, extra)) => !ok && errors == old(errors) + [Error(kind, token, Some(extra))]
        case Emit(s, q) => ok && !last && piece == s && next == q && errors == old(errors)
    {
      hide UnicodeCodePoint, CodePointToUTF8, ShortEscape;
      ok, last, piece, next := true, false, "", start + 1;
      var c := document[start];
      if c == '"' {
        last := true;
      } else if c == '\\' {
        if next == end {
          ok := AddError(EmptyEscape, token, Some(next));
          return;
        }
        var escape := document[next];
        next := next + 1;
        if ShortEscape(escape) != "" {
          piece := ShortEscape(escape);
        } else if escape == 'u' {
          var unicode;
          ok, next, unicode := DecodeUnicodeCodePoint(token, next, end);
          if !ok { return; }
          piece := CodePointToUTF8(unicode);
        } else {
          ok := AddError(BadEscape, token, Some(next));
        }
      } else {
        piece := [c];
      }
    }

    method DecodeString(token: L.Token) returns (ok: bool, decoded: string)
      requires token.start + 2 <= token.end <= |document|
      modifies this`errors
      ensures match StringValue(document, token)
        case Text(s) => ok && decoded == s && errors == old(errors)
        case Bad(kind, extra) => !ok && errors == old(errors) + [Error(kind, token, Some(extra))]
    {
      hide DecodeOne;
      decoded := "";
      var p := token.start + 1;
      var end := token.end - 1;
      while p != end
        invariant token.start < p <= end && errors == old(errors)
        invariant Prepend(decoded, DecodeFrom(document, p, end)) == StringValue(document, token)
        decreases end - p
      {
        var last, piece, next;
        ok, last, piece, next := DecodePiece(token, p, end);
        if !ok { return; }
        if last { break; }
        decoded := decoded + piece;
        p := next;
      }
      ok := true;
    }

    // ---- values ----

    method ReadValue() returns (status: Status, value: Value)
      requires current <= |document|
      modifies this`current, this`errors, this`stackDepth
      ensures Agrees(JsonParser.ReadValue(document, old(current), old(stackDepth), isDouble), status, value,
                old(errors), old(stackDepth))
      ensures old(current) <= current <= |document|
      decreases |document| - current, 0
    {
      hide L.NextToken, NumberValue, StringValue, ReadMembers, ReadElements, JsonParser.ReadArray;
      value := Null;
      if stackDepth >= STACK_LIMIT { return Exception, value; }
      stackDepth := stackDepth + 1;
      var token := SkipCommentTokens();
      var ok := true;
      if token.kind == L.ObjectBegin {
        status, value := ReadObject();
        if status == Exception { return; }
        ok := status == Success;
      } else if token.kind == L.ArrayBegin {
        status, value := ReadArray();
        if status == Exception { return; }
        ok := status == Success;
      } else if token.kind == L.Number {
        ok, value := DecodeNumber(token);
      } else if token.kind == L.String {
        var s;
        ok, s := DecodeString(token);
        value := Str(s);
      } else if token.kind == L.True {
        value := Bool(true);
      } else if token.kind == L.False {
        value := Bool(false);
      } else if token.kind == L.NullToken {
        value := Null;
      } else {
        ok := AddError(ValueExpected, token, None);
        return Failure, value;
      }
      stackDepth := stackDepth - 1;
      status := if ok then Success else Failure;
    }

    method ReadArray() returns (status: Status, value: Value)
      requires current <= |document|
      modifies this`current, this`errors, this`stackDepth
      ensures Agrees(JsonParser.ReadArray(document, old(current), old(stackDepth), isDouble), status, value,
                old(errors), old(stackDepth))
      ensures old(current) <= current <= |document|
      decreases |document| - current, 2
    {
      hide L.NextToken, L.ReadToken, L.SpacesEnd, L.RecoveryEnd, JsonParser.ReadValue;
      var elems: seq<Value> := [];
      value := Arr(elems);
      SkipSpaces();
      if L.At(document, current) == ']' {
        var endArray := ReadToken();
        return Success, value;
      }
      ghost var start := current;
      while true
        invariant start <= current <= |document|
        invariant errors == old(errors) && stackDepth == old(stackDepth)
        invariant ReadElements(document, current, stackDepth, isDouble, elems) ==
                  JsonParser.ReadArray(document, old(current), old(stackDepth), isDouble)
        decreases |document| - current
      {
        var element;
        status, element := ReadValue();
        if status == Exception { return; }
        if status == Failure {
          var bad := RecoverFromError(L.ArrayEnd);
          return;
        }
        elems := elems + [element];
        var token := SkipCommentTokens();
        if token.kind != L.ArraySeparator && token.kind != L.ArrayEnd {
          var bad := AddErrorAndRecover(ArrayCommaExpected, token, L.ArrayEnd);
          return Failure, value;
        }
        if token.kind == L.ArrayEnd {
          break;
        }
      }
      return Success, Arr(elems);
    }

    /** The part of the loop of `readObject` up to the colon; `done` at a closing brace. */
    method ReadMemberName(lastName: string) returns (ok: bool, done: bool, name: string)
      requires current <= |document|
      modifies this`current, this`errors
      ensures match ReadName(document, old(current), lastName)
        case Close(q) => ok && done && current == q && errors == old(errors)
        case Name(n, q) => ok && !done && name == n && current == q && errors == old(errors)
        case BadName(e, q) => !ok && current == L.RecoveryEnd(document, q, L.ObjectEnd) && errors == old(errors) + [e]
    {
      hide L.NextToken, L.ReadToken, StringValue, L.RecoveryEnd;
      ok, done, name := true, false, "";
      var tokenName := SkipCommentTokens();
      if tokenName.kind == L.ObjectEnd && lastName == "" {
        done := true;
        return;
      }
      if tokenName.kind != L.String {
        ok := AddErrorAndRecover(MemberNameExpected, tokenName, L.ObjectEnd);
        return;
      }
      ok, name := DecodeString(tokenName);
      if !ok {
        ok := RecoverFromError(L.ObjectEnd);
        return;
      }
      var colon := ReadToken();
      if colon.kind != L.MemberSeparator {
        ok := AddErrorAndRecover(ColonExpected, colon, L.ObjectEnd);
      }
    }

    /** The part of the loop of `readObject` after the value; `done` at a closing brace. */
    method ReadMemberEnd() returns (ok: bool, done: bool)
      requires current <= |document|
      modifies this`current, this`errors
      ensures match ReadComma(document, old(current))
        case Last(q) => ok && done && current == q && errors == old(errors)
        case More(q) => ok && !done && current == q && errors == old(errors)
        case BadComma(e, q) => !ok && current == L.RecoveryEnd(document, q, L.ObjectEnd) && errors == old(errors) + [e]
    {
      hide L.ReadToken, L.RecoveryEnd;
      ok, done := true, false;
      var comma := ReadToken();
      if comma.kind != L.ObjectEnd && comma.kind != L.ArraySeparator && comma.kind != L.Comment {
        ok := AddErrorAndRecover(ObjectCommaExpected, comma, L.ObjectEnd);
        return;
      }
      if comma.kind == L.Comment { comma := SkipCommentTokens(); }
      done := comma.kind == L.ObjectEnd;
    }

    method ReadObject() returns (status: Status, value: Value)
      requires current <= |document|
      modifies this`current, this`errors, this`stackDepth
      ensures Agrees(ReadMembers(document, old(current), old(stackDepth), isDouble, [], ""), status, value, old(errors),
                old(stackDepth))
      ensures old(current) <= current <= |document|
      decreases |document| - current, 1
    {
      hide JsonParser.ReadValue, ReadName, ReadComma, Put, L.RecoveryEnd;
      var members: seq<Member> := [];
      value := Obj(members);
      var name := "";
      while true
        invariant old(current) <= current <= |document|
        invariant errors == old(errors) && stackDepth == old(stackDepth)
        invariant ReadMembers(document, current, stackDepth, isDouble, members, name) ==
                  ReadMembers(document, old(current), old(stackDepth), isDouble, [], "")
        decreases |document| - current
      {
        var ok, done;
        ok, done, name := ReadMemberName(name);
        if !ok { return Failure, value; }
        if done { return Success, Obj(members); }
        var element;
        status, element := ReadValue();
        if status == Exception { return; }
        if status == Failure {
          var bad := RecoverFromError(L.ObjectEnd);
          return;
        }
        members := Put(members, name, element);
        ok, done := ReadMemberEnd();
        if !ok { return Failure, value; }
        if done { return Success, Obj(members); }
      }
    }

    /** `parse`: the value is found iff no error was recorded; otherwise exactly
        one was, unless the document nests too deeply. */
    method Parse(doc: string) returns (status: Status, root: Value)
      modifies this
      ensures document == doc && current <= |document|
      ensures match JsonParser.Parse(doc, isDouble)
        case Done(v, _) => status == Success && root == v && errors == []
        case Failed(e, _) => status == Failure && errors == [e]
        case Threw => status == Exception && errors == []
    {
      document := doc;
      current := 0;
      errors := [];
      stackDepth := 0;
      status, root := ReadValue();
      if status == Exception { return; }
      var token := SkipCommentTokens();
    }
  }
}
