/** What each token function of `Json::Reader` consumes, as functions of the
    document and a position. Reading at the end of the document yields NUL, as
    the C string does. */
module JsonLexer {
  import opened JsonNumber

  datatype TokenType =
    | EndOfStream | ObjectBegin | ObjectEnd | ArrayBegin | ArrayEnd | String | Number
    | True | False | NullToken | ArraySeparator | MemberSeparator | Comment | Error

  datatype Token = Token(kind: TokenType, start: nat, end: nat)

  function At(doc: string, p: nat): char { if p < |doc| then doc[p] else '\0' }

  /** Position after `getNextChar`. */
  function Next(doc: string, p: nat): nat { if p < |doc| then p + 1 else p }

  predicate IsSpace(c: char) { c == ' ' || c == '\t' || c == '\r' || c == '\n' }

  function SpacesEnd(doc: string, p: nat): (q: nat)
    requires p <= |doc|
    ensures p <= q <= |doc|
    decreases |doc| - p
  {
    if p < |doc| && IsSpace(doc[p]) then SpacesEnd(doc, p + 1) else p
  }

  function DigitsEnd(doc: string, p: nat): (q: nat)
    requires p <= |doc|
    ensures p <= q <= |doc|
    decreases |doc| - p
  {
    if p < |doc| && IsDigit(doc[p]) then DigitsEnd(doc, p + 1) else p
  }

  function FractionEnd(doc: string, p: nat): (q: nat)
    requires p <= |doc|
    ensures p <= q <= |doc|
  {
    if At(doc, p) == '.' then DigitsEnd(doc, p + 1) else p
  }

  function ExponentEnd(doc: string, p: nat): (q: nat)
    requires p <= |doc|
    ensures p <= q <= |doc|
  {
    if At(doc, p) == 'e' || At(doc, p) == 'E' then
      if At(doc, p + 1) == '+' || At(doc, p + 1) == '-' then DigitsEnd(doc, p + 2) else DigitsEnd(doc, p + 1)
    else p
  }

  /** Where `readNumber` stops after the first character of a numeral. */
  function NumberEnd(doc: string, p: nat): (q: nat)
    requires p <= |doc|
    ensures p <= q <= |doc|
  {
    ExponentEnd(doc, FractionEnd(doc, DigitsEnd(doc, p)))
  }

  /** Where `readString` stops after the opening quote, and whether it found the
      closing one. A backslash hides the next character. */
  function StringEnd(doc: string, p: nat): (r: (nat, bool))
    requires p <= |doc|
    ensures p <= r.0 <= |doc|
    ensures r.1 ==> p < r.0 && doc[r.0 - 1] == '"'
    decreases |doc| - p
  {
    if p == |doc| then (p, false)
    else if doc[p] == '\\' then StringEnd(doc, Next(doc, p + 1))
    else if doc[p] == '"' then (p + 1, true)
    else StringEnd(doc, p + 1)
  }

  /** After a slash and a star: up to and including the closing star and slash. */
  function CStyleEnd(doc: string, p: nat): (r: (nat, bool))
    requires p <= |doc|
    ensures p <= r.0 <= |doc|
    decreases |doc| - p
  {
    if p == |doc| then (p, false)
    else if doc[p] == '*' && At(doc, p + 1) == '/' then (p + 2, true)
    else if p + 1 == |doc| then (p + 1, false)
    else CStyleEnd(doc, p + 1)
  }

  /** After two slashes: up to and including the end of the line. */
  function LineEnd(doc: string, p: nat): (q: nat)
    requires p <= |doc|
    ensures p <= q <= |doc|
    decreases |doc| - p
  {
    if p == |doc| then p
    else if doc[p] == '\n' then p + 1
    else if doc[p] == '\r' then if At(doc, p + 1) == '\n' then p + 2 else p + 1
    else LineEnd(doc, p + 1)
  }

  function CommentEnd(doc: string, p: nat): (r: (nat, bool))
    requires p <= |doc|
    ensures p <= r.0 <= |doc|
  {
    if At(doc, p) == '*' then CStyleEnd(doc, p + 1)
    else if At(doc, p) == '/' then (LineEnd(doc, p + 1), true)
    else (Next(doc, p), false)
  }

  predicate Matches(doc: string, p: nat, pattern: string)
    requires p <= |doc|
  {
    |doc| - p >= |pattern| && doc[p..p + |pattern|] == pattern
  }

  function Keyword(doc: string, start: nat, rest: string, kind: TokenType): (t: Token)
    requires start < |doc|
    ensures t.start == start < t.end <= |doc|
  {
    if Matches(doc, start + 1, rest) then Token(kind, start, start + 1 + |rest|)
    else Token(Error, start, start + 1)
  }

  function Punctuation(c: char): TokenType {
    match c
    case '{' => ObjectBegin
    case '}' => ObjectEnd
    case '[' => ArrayBegin
    case ']' => ArrayEnd
    case ',' => ArraySeparator
    case ':' => MemberSeparator
    case '\0' => EndOfStream
    case _ => Error
  }

  /** `readToken`: the next token at or after `p`. Its end is where the reader
      stands afterwards; only at the end of the document is nothing consumed. */
  function ReadToken(doc: string, p: nat): (t: Token)
    requires p <= |doc|
    ensures p <= t.start <= t.end <= |doc|
    ensures t.end == t.start ==> t.start == |doc| && t.kind == EndOfStream
    ensures t.kind == String ==> t.start + 2 <= t.end
  {
    var start := SpacesEnd(doc, p);
    if start == |doc| then Token(EndOfStream, start, start)
    else
      var c := doc[start];
      if c == '"' then
        var r := StringEnd(doc, start + 1);
        Token(if r.1 then String else Error, start, r.0)
      else if c == '/' then
        var r := CommentEnd(doc, start + 1);
        Token(if r.1 then Comment else Error, start, r.0)
      else if IsDigit(c) || c == '-' then Token(Number, start, NumberEnd(doc, start + 1))
      else if c == 't' then Keyword(doc, start, "rue", True)
      else if c == 'f' then Keyword(doc, start, "alse", False)
      else if c == 'n' then Keyword(doc, start, "ull", NullToken)
      else Token(Punctuation(c), start, start + 1)
  }

  /** `skipCommentTokens`: the next token that is not a comment. */
  function NextToken(doc: string, p: nat): (t: Token)
    requires p <= |doc|
    ensures p <= t.start <= t.end <= |doc|
    ensures t.kind != Comment
    ensures t.kind != EndOfStream ==> t.start < t.end
    ensures t.kind == String ==> t.start + 2 <= t.end
    decreases |doc| - p
  {
    var t := ReadToken(doc, p);
    if t.kind == Comment then NextToken(doc, t.end) else t
  }

  /** `recoverFromError`: after the first token of the given kind, or at the end. */
  function RecoveryEnd(doc: string, p: nat, kind: TokenType): (q: nat)
    requires p <= |doc|
    ensures p <= q <= |doc|
    decreases |doc| - p
  {
    var t := ReadToken(doc, p);
    if t.kind == kind || t.kind == EndOfStream then t.end else RecoveryEnd(doc, t.end, kind)
  }

  // ---- where a comment ends ----

  /** A star and a slash. */
  predicate Closes(doc: string, p: nat) { p + 1 < |doc| && doc[p] == '*' && doc[p + 1] == '/' }

  /** A comment in stars ends behind the first closing pair; without one it is not
      closed and takes the rest of the document. */
  lemma {:induction false} CStyleEnds(doc: string, p: nat)
    requires p <= |doc|
    ensures CStyleEnd(doc, p).1 <==> exists k :: p <= k && Closes(doc, k)
    ensures
      var r := CStyleEnd(doc, p);
      if r.1 then p + 2 <= r.0 && Closes(doc, r.0 - 2) && forall k | p <= k < r.0 - 2 :: !Closes(doc, k)
      else r.0 == |doc|
    decreases |doc| - p
  {
    if p + 1 < |doc| && !Closes(doc, p) { CStyleEnds(doc, p + 1); }
  }

  predicate Breaks(c: char) { c == '\n' || c == '\r' }

  /** A comment behind two slashes ends behind the first line break, which may be a
      carriage return and a line feed, or else with the document. */
  lemma {:induction false} LineEnds(doc: string, p: nat) returns (k: nat)
    requires p <= |doc|
    ensures p <= k <= |doc| && (forall i | p <= i < k :: !Breaks(doc[i]))
    ensures k < |doc| ==> Breaks(doc[k])
    ensures
      LineEnd(doc, p) == if k == |doc| then k else if k + 1 < |doc| && doc[k..k + 2] == "\r\n" then k + 2 else k + 1
    decreases |doc| - p
  {
    if p == |doc| || Breaks(doc[p]) { k := p; } else { k := LineEnds(doc, p + 1); }
  }

  /** A comment is skipped as a whole: the next token is the one behind it, and a
      slash that starts no comment, or one that is not closed, is an error. */
  lemma CommentSkipped(doc: string, p: nat)
    requires p < |doc| && doc[p] == '/'
    ensures
      var star, line := At(doc, p + 1) == '*', At(doc, p + 1) == '/';
      if line || (star && exists k :: p + 2 <= k && Closes(doc, k))
      then NextToken(doc, p) == NextToken(doc, if star then CStyleEnd(doc, p + 2).0 else LineEnd(doc, p + 2))
      else NextToken(doc, p).kind == Error && NextToken(doc, p).start == p
  {
    hide StringEnd, NumberEnd, Keyword, CStyleEnd, LineEnd, Closes;
    assert SpacesEnd(doc, p) == p;
    if At(doc, p + 1) == '*' { CStyleEnds(doc, p + 2); }
  }
}
