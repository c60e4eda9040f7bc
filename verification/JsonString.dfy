/** JSON string literals: what `Reader::decodeString` makes of them, what
    `valueToQuotedString` writes, and UTF-8 (RFC 3629). */
module JsonString {

  // ---- code points and UTF-8 ----

  /** `codePointToUTF8`; masks and shifts are written as remainders and quotients. */
  function CodePointToUTF8(cp: nat): string {
    if cp <= 0x7f then [cp as char]
    else if cp <= 0x7FF then [(0xC0 + cp / 0x40 % 0x20) as char, (0x80 + cp % 0x40) as char]
    else if cp <= 0xFFFF then
      [(0xE0 + cp / 0x1000 % 0x10) as char, (0x80 + cp / 0x40 % 0x40) as char, (0x80 + cp % 0x40) as char]
    else if cp <= 0x10FFFF then
      [(0xF0 + cp / 0x40000 % 0x8) as char, (0x80 + cp / 0x1000 % 0x40) as char,
       (0x80 + cp / 0x40 % 0x40) as char, (0x80 + cp % 0x40) as char]
    else ""
  }

  /** A Unicode scalar value: any code point except the surrogates. */
  predicate IsScalar(cp: nat) { cp < 0xD800 || 0xE000 <= cp <= 0x10FFFF }

  predicate IsTail(c: char) { 0x80 <= c as int <= 0xBF }

  datatype Char = Char(cp: nat, length: nat) | NoChar

  /** The first character of a text by the grammar of section 4 of RFC 3629 and
      the value that section 3 gives it. */
  function FirstChar(t: string): Char {
    if t == "" then NoChar
    else
      var a := t[0] as int;
      if a <= 0x7F then Char(a, 1)
      else if 0xC2 <= a <= 0xDF && |t| >= 2 && IsTail(t[1]) then
        Char((a - 0xC0) * 0x40 + (t[1] as int - 0x80), 2)
      else if 0xE0 <= a <= 0xEF && |t| >= 3 && IsTail(t[1]) && IsTail(t[2])
              && (a == 0xE0 ==> 0xA0 <= t[1] as int) && (a == 0xED ==> t[1] as int <= 0x9F) then
        Char((a - 0xE0) * 0x1000 + (t[1] as int - 0x80) * 0x40 + (t[2] as int - 0x80), 3)
      else if 0xF0 <= a <= 0xF4 && |t| >= 4 && IsTail(t[1]) && IsTail(t[2]) && IsTail(t[3])
              && (a == 0xF0 ==> 0x90 <= t[1] as int) && (a == 0xF4 ==> t[1] as int <= 0x8F) then
        Char((a - 0xF0) * 0x40000 + (t[1] as int - 0x80) * 0x1000
             + (t[2] as int - 0x80) * 0x40 + (t[3] as int - 0x80), 4)
      else NoChar
  }

  /** What `codePointToUTF8` writes is the character's UTF-8 form, followed by anything. */
  lemma Utf8OfScalar(cp: nat, rest: string)
    requires IsScalar(cp)
    ensures FirstChar(CodePointToUTF8(cp) + rest) == Char(cp, |CodePointToUTF8(cp)|)
  {
    hide FirstChar;
    var d0, d1, d2, d3 := SixBits(cp);
    var u := CodePointToUTF8(cp);
    if cp <= 0x7f {
      OneByte(cp, u + rest);
    } else if cp <= 0x7FF {
      assert u == [(0xC0 + d1) as char, (0x80 + d0) as char];
      TwoBytes(cp, d1, d0, u + rest);
    } else if cp <= 0xFFFF {
      assert u == [(0xE0 + d2) as char, (0x80 + d1) as char, (0x80 + d0) as char];
      ThreeBytes(cp, d2, d1, d0, u + rest);
    } else {
      assert u == [(0xF0 + d3) as char, (0x80 + d2) as char, (0x80 + d1) as char, (0x80 + d0) as char];
      FourBytes(cp, d3, d2, d1, d0, u + rest);
    }
  }

  lemma OneByte(cp: nat, t: string)
    requires cp <= 0x7F && |t| >= 1 && t[0] == cp as char
    ensures FirstChar(t) == Char(cp, 1)
  {
  }

  lemma TwoBytes(cp: nat, a: nat, b: nat, t: string)
    requires a < 0x20 && b < 0x40 && cp == a * 0x40 + b && 0x80 <= cp
    requires |t| >= 2 && t[0] == (0xC0 + a) as char && t[1] == (0x80 + b) as char
    ensures FirstChar(t) == Char(cp, 2)
  {
  }

  lemma ThreeBytes(cp: nat, a: nat, b: nat, c: nat, t: string)
    requires a < 0x10 && b < 0x40 && c < 0x40 && cp == a * 0x1000 + b * 0x40 + c && 0x800 <= cp && IsScalar(cp)
    requires |t| >= 3 && t[0] == (0xE0 + a) as char && t[1] == (0x80 + b) as char && t[2] == (0x80 + c) as char
    ensures FirstChar(t) == Char(cp, 3)
  {
  }

  lemma FourBytes(cp: nat, a: nat, b: nat, c: nat, d: nat, t: string)
    requires a < 0x8 && b < 0x40 && c < 0x40 && d < 0x40 && cp == a * 0x40000 + b * 0x1000 + c * 0x40 + d
    requires 0x10000 <= cp <= 0x10FFFF && |t| >= 4
    requires t[0] == (0xF0 + a) as char && t[1] == (0x80 + b) as char
    requires t[2] == (0x80 + c) as char && t[3] == (0x80 + d) as char
    ensures FirstChar(t) == Char(cp, 4)
  {
  }

  /** The digits of a code point to base 64. */
  lemma SixBits(cp: nat) returns (d0: nat, d1: nat, d2: nat, d3: nat)
    requires cp <= 0x10FFFF
    ensures d0 < 0x40 && d1 < 0x40 && d2 < 0x40 && d3 < 0x8
    ensures cp == d3 * 0x40000 + d2 * 0x1000 + d1 * 0x40 + d0
    ensures d0 == cp % 0x40 && d1 == cp / 0x40 % 0x40 && d2 == cp / 0x1000 % 0x40 && d3 == cp / 0x40000 % 0x8
    ensures cp <= 0x7FF ==> d1 == cp / 0x40 % 0x20
    ensures cp <= 0xFFFF ==> d2 == cp / 0x1000 % 0x10
  {
    var q1, q2, q3 := cp / 0x40, cp / 0x40 / 0x40, cp / 0x40 / 0x40 / 0x40;
    d0, d1, d2, d3 := cp % 0x40, q1 % 0x40, q2 % 0x40, q3;
    assert q2 == cp / 0x1000;
    assert q3 == cp / 0x40000;
  }

  // ---- escapes ----

  datatype ErrorKind =
    | ValueExpected | MemberNameExpected | ColonExpected | ObjectCommaExpected | ArrayCommaExpected
    | NotANumber | EmptyEscape | BadEscape | SurrogateLength | SurrogateEscape | FourDigits | HexDigitExpected

  datatype Decoded = Text(s: string) | Bad(kind: ErrorKind, extra: nat)

  datatype CodePoint = Unit(cp: nat, next: nat) | BadUnit(kind: ErrorKind, extra: nat)

  /** The characters after a backslash that stand for one character. */
  function ShortEscape(c: char): string {
    match c
    case '"' => "\""
    case '/' => "/"
    case '\\' => "\\"
    case 'b' => "\U{08}"
    case 'f' => "\U{0c}"
    case 'n' => "\n"
    case 'r' => "\r"
    case 't' => "\t"
    case _ => ""
  }

  predicate IsHex(c: char) { '0' <= c <= '9' || 'a' <= c <= 'f' || 'A' <= c <= 'F' }

  function HexValue(c: char): nat
    requires IsHex(c)
    ensures HexValue(c) < 16
  {
    if c <= '9' then c as int - '0' as int
    else if 'a' <= c then c as int - 'a' as int + 10
    else c as int - 'A' as int + 10
  }

  /** `decodeUnicodeEscapeSequence`, `n` digits before its end. */
  function HexDigits(doc: string, p: nat, n: nat, unicode: nat): (r: CodePoint)
    requires p + n <= |doc|
    ensures r.Unit? ==> r.next == p + n
    decreases n
  {
    if n == 0 then Unit(unicode, p)
    else if IsHex(doc[p]) then HexDigits(doc, p + 1, n - 1, unicode * 16 + HexValue(doc[p]))
    else BadUnit(HexDigitExpected, p + 1)
  }

  function EscapeSequence(doc: string, p: nat, end: nat): (r: CodePoint)
    requires p <= end <= |doc|
    ensures r.Unit? ==> r.next == p + 4 <= end
  {
    if end - p < 4 then BadUnit(FourDigits, p) else HexDigits(doc, p, 4, 0)
  }

  /** `decodeUnicodeCodePoint`: one escape, or two when the first is a high surrogate. */
  function UnicodeCodePoint(doc: string, p: nat, end: nat): (r: CodePoint)
    requires p <= end <= |doc|
    ensures r.Unit? ==> p < r.next <= end
  {
    var first := EscapeSequence(doc, p, end);
    if first.BadUnit? || !(0xD800 <= first.cp <= 0xDBFF) then first
    else
      var q := first.next;
      if end - q < 6 then BadUnit(SurrogateLength, q)
      else if doc[q] != '\\' then BadUnit(SurrogateEscape, q + 1)
      else if doc[q + 1] != 'u' then BadUnit(SurrogateEscape, q + 2)
      else
        var second := EscapeSequence(doc, q + 2, end);
        if second.BadUnit? then second
        else Unit(0x10000 + first.cp % 0x400 * 0x400 + second.cp % 0x400, second.next)
  }

  function Prepend(s: string, d: Decoded): Decoded {
    if d.Text? then Text(s + d.s) else d
  }

  /** `decodeString` from `p` up to the closing quote at `end`. */
  function DecodeFrom(doc: string, p: nat, end: nat): Decoded
    requires p <= end <= |doc|
    decreases end - p
  {
    if p == end then Text("")
    else
      match DecodeOne(doc, p, end)
      case Stop(d) => d
      case Emit(s, next) => Prepend(s, DecodeFrom(doc, next, end))
  }

  datatype Step = Stop(decoded: Decoded) | Emit(s: string, next: nat)

  /** One round of the loop of `decodeString`. */
  function DecodeOne(doc: string, p: nat, end: nat): (r: Step)
    requires p < end <= |doc|
    ensures r.Emit? ==> p < r.next <= end
  {
    if doc[p] == '"' then Stop(Text(""))
    else if doc[p] != '\\' then Emit([doc[p]], p + 1)
    else if p + 1 == end then Stop(Bad(EmptyEscape, p + 1))
    else if ShortEscape(doc[p + 1]) != "" then Emit(ShortEscape(doc[p + 1]), p + 2)
    else if doc[p + 1] == 'u' then
      match UnicodeCodePoint(doc, p + 2, end)
      case BadUnit(kind, extra) => Stop(Bad(kind, extra))
      case Unit(cp, next) => Emit(CodePointToUTF8(cp), next)
    else Stop(Bad(BadEscape, p + 2))
  }

  // ---- spellings ----

  function HexChar(n: nat, upper: bool): char
    requires n < 16
  {
    if n < 10 then ('0' as int + n) as char
    else if upper then ('A' as int + n - 10) as char
    else ('a' as int + n - 10) as char
  }

  /** The sixteen digits, in either case, and what each of them counts. */
  lemma HexDigitsAre(n: nat, c: char)
    requires n < 16
    ensures HexChar(n, false) == "0123456789abcdef"[n] && HexChar(n, true) == "0123456789ABCDEF"[n]
    ensures IsHex(c) <==> c in "0123456789abcdefABCDEF"
    ensures c == "0123456789abcdef"[n] || c == "0123456789ABCDEF"[n] ==> HexValue(c) == n
  {
  }

  /** The low `n` hexadecimal digits of a number; bit `k` of `caps` says whether
      the digit in the place of sixteen to the `k` is in upper case. */
  function Hex(u: nat, n: nat, caps: nat): (t: string)
    ensures |t| == n
  {
    if n == 0 then "" else Hex(u / 16, n - 1, caps / 2) + [HexChar(u % 16, caps % 2 == 1)]
  }

  /** `\uXXXX` for a 16-bit unit. */
  function EscapeUnit(u: nat, caps: nat): (t: string)
    requires u <= 0xFFFF
    ensures |t| == 6
  {
    ['\\', 'u'] + Hex(u, 4, caps)
  }

  /** One element of a string literal by section 7 of RFC 8259: a character that
      stands for itself, a two-character escape, or a code point as one escape
      or as a surrogate pair. */
  datatype Piece = Raw(c: char) | Short(e: char) | Code(cp: nat, caps: nat)

  /** The two-character escapes of section 7 of RFC 8259: quotation mark, reverse solidus,
      solidus, backspace, form feed, line feed, carriage return, tab; and the code
      points that they stand for. */
  const SHORT_ESCAPES: string := ['"', '\\', '/', 'b', 'f', 'n', 'r', 't']
  const SHORT_MEANINGS: seq<nat> := [0x22, 0x5C, 0x2F, 0x08, 0x0C, 0x0A, 0x0D, 0x09]

  /** The character whose escape stands at some place of the list. */
  function ShortMeaning(e: char): string { MeaningFrom(e, 0) }

  function MeaningFrom(e: char, k: nat): string
    requires k <= |SHORT_ESCAPES|
    decreases |SHORT_ESCAPES| - k
  {
    if k == |SHORT_ESCAPES| then ""
    else if SHORT_ESCAPES[k] == e then [SHORT_MEANINGS[k] as char]
    else MeaningFrom(e, k + 1)
  }

  /** The decoder knows exactly these escapes, and their meanings. */
  lemma ShortEscapeMeans(e: char)
    ensures ShortEscape(e) != "" <==> e in SHORT_ESCAPES
    ensures ShortEscape(e) == ShortMeaning(e)
    ensures forall k | 0 <= k < 8 && SHORT_ESCAPES[k] == e :: ShortEscape(e) == [SHORT_MEANINGS[k] as char]
  {
    assert MeaningFrom(e, 8) == "";
    assert MeaningFrom(e, 6) == if e == 'r' then [0x0D as char] else if e == 't' then [0x09 as char] else "";
    assert MeaningFrom(e, 4)
           == if e == 'f' then [0x0C as char] else if e == 'n' then [0x0A as char] else MeaningFrom(e, 6);
    assert MeaningFrom(e, 2)
           == if e == '/' then [0x2F as char] else if e == 'b' then [0x08 as char] else MeaningFrom(e, 4);
  }

  predicate LegalPiece(x: Piece) {
    match x
    case Raw(c) => c != '"' && c != '\\'
    case Short(e) => e in SHORT_ESCAPES
    case Code(cp, _) => IsScalar(cp)
  }

  predicate LegalPieces(xs: seq<Piece>) { forall i | 0 <= i < |xs| :: LegalPiece(xs[i]) }

  function Spell(x: Piece): (t: string)
    requires LegalPiece(x)
    ensures t != ""
  {
    match x
    case Raw(c) => [c]
    case Short(e) => ['\\', e]
    case Code(cp, caps) =>
      if cp <= 0xFFFF then EscapeUnit(cp, caps)
      else EscapeUnit(0xD800 + (cp - 0x10000) / 0x400, caps / 16) + EscapeUnit(0xDC00 + (cp - 0x10000) % 0x400, caps)
  }

  function Meaning(x: Piece): string {
    match x
    case Raw(c) => [c]
    case Short(e) => ShortMeaning(e)
    case Code(cp, _) => CodePointToUTF8(cp)
  }

  function SpellAll(xs: seq<Piece>): string
    requires LegalPieces(xs)
  {
    if xs == [] then "" else Spell(xs[0]) + SpellAll(xs[1..])
  }

  function MeaningAll(xs: seq<Piece>): string {
    if xs == [] then "" else Meaning(xs[0]) + MeaningAll(xs[1..])
  }

  /** The text `w` stands in the document at position `p`. */
  predicate Occurs(doc: string, p: nat, w: string) {
    p + |w| <= |doc| && forall i | 0 <= i < |w| :: doc[p + i] == w[i]
  }

  lemma OccursSplit(doc: string, p: nat, a: string, b: string)
    requires Occurs(doc, p, a + b)
    ensures Occurs(doc, p, a) && Occurs(doc, p + |a|, b)
  {
    assert forall i | 0 <= i < |a| :: (a + b)[i] == a[i];
    assert forall i | 0 <= i < |b| :: (a + b)[|a| + i] == b[i];
  }

  lemma UnitDecodes(doc: string, p: nat, u: nat, caps: nat, end: nat)
    requires u <= 0xFFFF && Occurs(doc, p, EscapeUnit(u, caps)) && p + 6 <= end <= |doc|
    ensures EscapeSequence(doc, p + 2, end) == Unit(u, p + 6)
    ensures doc[p] == '\\' && doc[p + 1] == 'u'
  {
    OccursSplit(doc, p, ['\\', 'u'], Hex(u, 4, caps));
    assert doc[p] == ['\\', 'u'][0] && doc[p + 1] == ['\\', 'u'][1];
    HexDecodes(doc, p + 2, u, 4, caps);
    assert Pow16(4) == 0x10000 by { assert Pow16(2) == 0x100; }
    LowIsAll(u, 4);
  }

  /** The low `n` hexadecimal digits as a number. */
  function Low(u: nat, n: nat): nat { if n == 0 then 0 else Low(u / 16, n - 1) * 16 + u % 16 }

  function Pow16(n: nat): nat { if n == 0 then 1 else 16 * Pow16(n - 1) }

  lemma {:induction false} LowIsAll(u: nat, n: nat)
    requires u < Pow16(n)
    ensures Low(u, n) == u
  {
    if n > 0 { LowIsAll(u / 16, n - 1); }
  }

  lemma {:induction false} HexDecodes(doc: string, p: nat, u: nat, n: nat, caps: nat)
    requires Occurs(doc, p, Hex(u, n, caps))
    ensures HexDigits(doc, p, n, 0) == Unit(Low(u, n), p + n)
  {
    if n > 0 {
      OccursSplit(doc, p, Hex(u / 16, n - 1, caps / 2), [HexChar(u % 16, caps % 2 == 1)]);
      HexDecodes(doc, p, u / 16, n - 1, caps / 2);
      assert doc[p + n - 1] == [HexChar(u % 16, caps % 2 == 1)][0];
      HexCharValue(u % 16, caps % 2 == 1);
      HexLast(doc, p, n, 0);
    }
  }

  /** Reading `n` digits is reading all but the last and then the last. */
  lemma {:induction false} HexLast(doc: string, p: nat, n: nat, unicode: nat)
    requires 0 < n && p + n <= |doc| && HexDigits(doc, p, n - 1, unicode).Unit? && IsHex(doc[p + n - 1])
    ensures HexDigits(doc, p, n, unicode) ==
            Unit(HexDigits(doc, p, n - 1, unicode).cp * 16 + HexValue(doc[p + n - 1]), p + n)
    decreases n
  {
    if n > 1 { HexLast(doc, p + 1, n - 1, unicode * 16 + HexValue(doc[p])); }
  }

  lemma HexCharValue(n: nat, upper: bool)
    requires n < 16
    ensures IsHex(HexChar(n, upper)) && HexValue(HexChar(n, upper)) == n
  {
  }

  lemma CodeDecodes(doc: string, p: nat, cp: nat, caps: nat, end: nat)
    requires IsScalar(cp) && Occurs(doc, p, Spell(Code(cp, caps)))
    requires p + |Spell(Code(cp, caps))| <= end <= |doc|
    ensures doc[p] == '\\' && doc[p + 1] == 'u'
    ensures UnicodeCodePoint(doc, p + 2, end) == Unit(cp, p + |Spell(Code(cp, caps))|)
  {
    hide EscapeUnit, EscapeSequence;
    if cp <= 0xFFFF {
      UnitDecodes(doc, p, cp, caps, end);
    } else {
      var high, low := Surrogates(cp);
      OccursSplit(doc, p, EscapeUnit(high, caps / 16), EscapeUnit(low, caps));
      UnitDecodes(doc, p, high, caps / 16, end);
      UnitDecodes(doc, p + 6, low, caps, end);
    }
  }

  lemma Surrogates(cp: nat) returns (high: nat, low: nat)
    requires 0x10000 <= cp <= 0x10FFFF
    ensures high == 0xD800 + (cp - 0x10000) / 0x400 <= 0xDBFF && low == 0xDC00 + (cp - 0x10000) % 0x400 <= 0xDFFF
    ensures 0x10000 + high % 0x400 * 0x400 + low % 0x400 == cp
  {
    high, low := 0xD800 + (cp - 0x10000) / 0x400, 0xDC00 + (cp - 0x10000) % 0x400;
    assert high % 0x400 == (cp - 0x10000) / 0x400 && low % 0x400 == (cp - 0x10000) % 0x400;
  }

  lemma PieceDecodes(doc: string, p: nat, x: Piece, end: nat)
    requires LegalPiece(x) && Occurs(doc, p, Spell(x)) && p + |Spell(x)| <= end <= |doc|
    ensures DecodeFrom(doc, p, end) == Prepend(Meaning(x), DecodeFrom(doc, p + |Spell(x)|, end))
  {
    hide DecodeFrom, DecodeOne, UnicodeCodePoint, Hex, CodePointToUTF8, EscapeUnit;
    match x
    case Raw(c) => RawDecodes(doc, p, c, end);
    case Short(e) => ShortDecodes(doc, p, e, end);
    case Code(cp, caps) =>
      CodeDecodes(doc, p, cp, caps, end);
      EscapeDecodes(doc, p, cp, p + |Spell(x)|, end);
  }

  lemma EscapeDecodes(doc: string, p: nat, cp: nat, next: nat, end: nat)
    requires p + 2 <= end <= |doc| && doc[p] == '\\' && doc[p + 1] == 'u'
    requires UnicodeCodePoint(doc, p + 2, end) == Unit(cp, next)
    ensures next <= end && DecodeFrom(doc, p, end) == Prepend(CodePointToUTF8(cp), DecodeFrom(doc, next, end))
  {
  }

  lemma RawDecodes(doc: string, p: nat, c: char, end: nat)
    requires c != '"' && c != '\\' && Occurs(doc, p, [c]) && p + 1 <= end <= |doc|
    ensures DecodeFrom(doc, p, end) == Prepend([c], DecodeFrom(doc, p + 1, end))
  {
    assert doc[p] == [c][0];
  }

  lemma ShortDecodes(doc: string, p: nat, e: char, end: nat)
    requires ShortEscape(e) != "" && Occurs(doc, p, ['\\', e]) && p + 2 <= end <= |doc|
    ensures DecodeFrom(doc, p, end) == Prepend(ShortEscape(e), DecodeFrom(doc, p + 2, end))
  {
    assert doc[p] == ['\\', e][0] && doc[p + 1] == ['\\', e][1];
  }

  lemma DecodeNothing(doc: string, p: nat)
    requires p <= |doc|
    ensures DecodeFrom(doc, p, p) == Text("")
  {
  }

  lemma PrependTwice(a: string, b: string, d: Decoded)
    ensures Prepend(a, Prepend(b, d)) == Prepend(a + b, d) && Prepend("", d) == d
  {
    if d.Text? { assert a + (b + d.s) == a + b + d.s; }
  }

  /** A spelling in front of anything else contributes what it means. */
  lemma {:induction false} SpellingInFront(doc: string, p: nat, xs: seq<Piece>, end: nat)
    requires LegalPieces(xs) && Occurs(doc, p, SpellAll(xs)) && p + |SpellAll(xs)| <= end <= |doc|
    ensures DecodeFrom(doc, p, end) == Prepend(MeaningAll(xs), DecodeFrom(doc, p + |SpellAll(xs)|, end))
    decreases |xs|
  {
    hide Spell, Meaning, LegalPiece, DecodeFrom, Prepend, Occurs;
    PrependTwice(if xs == [] then "" else Meaning(xs[0]), MeaningAll(if xs == [] then [] else xs[1..]),
                 DecodeFrom(doc, p + |SpellAll(xs)|, end));
    if xs != [] {
      var first := Spell(xs[0]);
      OccursSplit(doc, p, first, SpellAll(xs[1..]));
      SpellingInFront(doc, p + |first|, xs[1..], end);
      PieceDecodes(doc, p, xs[0], end);
    }
  }

  /** However a string is spelled, `decodeString` yields what the spelling means. */
  lemma SpellingDecodes(doc: string, p: nat, xs: seq<Piece>)
    requires LegalPieces(xs) && Occurs(doc, p, SpellAll(xs))
    ensures DecodeFrom(doc, p, p + |SpellAll(xs)|) == Text(MeaningAll(xs))
  {
    hide SpellAll, MeaningAll, LegalPieces, DecodeFrom;
    SpellingInFront(doc, p, xs, p + |SpellAll(xs)|);
    DecodeNothing(doc, p + |SpellAll(xs)|);
  }

  // ---- escapes that are refused ----

  /** A backslash, the letter and four hexadecimal digits. */
  predicate UnitAt(doc: string, p: nat, end: nat)
    requires end <= |doc|
  {
    p + 6 <= end && doc[p..p + 2] == "\\u" && forall i | p + 2 <= i < p + 6 :: IsHex(doc[i])
  }

  /** The escape of a character by section 7 of RFC 8259, except that the second half
      of a pair may be any unit, and may stand alone. */
  predicate EscapeAt(doc: string, p: nat, end: nat)
    requires p < end <= |doc|
  {
    || (p + 2 <= end && doc[p + 1] in SHORT_ESCAPES)
    || (UnitAt(doc, p, end) && (doc[p + 2] in "dD" && doc[p + 3] in "89abAB" ==> UnitAt(doc, p + 6, end)))
  }

  lemma SequenceIff(doc: string, p: nat, end: nat)
    requires p + 2 <= end <= |doc| && doc[p] == '\\' && doc[p + 1] == 'u'
    ensures EscapeSequence(doc, p + 2, end).Unit? <==> UnitAt(doc, p, end)
    ensures EscapeSequence(doc, p + 2, end).Unit? ==>
              (0xD800 <= EscapeSequence(doc, p + 2, end).cp <= 0xDBFF
               <==> doc[p + 2] in "dD" && doc[p + 3] in "89abAB")
  {
    if p + 6 <= end {
      FourDigitsRead(doc, p + 2);
      if UnitAt(doc, p, end) { HighDigits(doc[p + 2], doc[p + 3], doc[p + 4], doc[p + 5]); }
    }
  }

  lemma FourDigitsRead(doc: string, p: nat)
    requires p + 4 <= |doc|
    ensures HexDigits(doc, p, 4, 0).Unit? <==> forall i | p <= i < p + 4 :: IsHex(doc[i])
    ensures HexDigits(doc, p, 4, 0).Unit? ==>
              HexDigits(doc, p, 4, 0).cp == FourHex(doc[p], doc[p + 1], doc[p + 2], doc[p + 3])
  {
    hide HexValue;
  }

  function FourHex(a: char, b: char, c: char, d: char): nat
    requires IsHex(a) && IsHex(b) && IsHex(c) && IsHex(d)
  {
    ((HexValue(a) * 16 + HexValue(b)) * 16 + HexValue(c)) * 16 + HexValue(d)
  }

  lemma HighDigits(a: char, b: char, c: char, d: char)
    requires IsHex(a) && IsHex(b) && IsHex(c) && IsHex(d)
    ensures 0xD800 <= FourHex(a, b, c, d) <= 0xDBFF <==> a in "dD" && b in "89abAB"
  {
    hide HexValue;
    HighDigit(a);
    HighDigit(b);
  }

  lemma HighDigit(c: char)
    requires IsHex(c)
    ensures HexValue(c) == 13 <==> c in "dD"
    ensures 8 <= HexValue(c) <= 11 <==> c in "89abAB"
  {
  }

  /** A backslash is refused exactly if it starts no escape. */
  lemma EscapeIff(doc: string, p: nat, end: nat)
    requires p < end <= |doc| && doc[p] == '\\'
    ensures DecodeOne(doc, p, end).Emit? <==> EscapeAt(doc, p, end)
    ensures !EscapeAt(doc, p, end) ==> DecodeFrom(doc, p, end).Bad?
  {
    hide EscapeSequence, IsHex;
    if p + 2 <= end {
      ShortEscapeMeans(doc[p + 1]);
      if doc[p + 1] == 'u' {
        SequenceIff(doc, p, end);
        var q := p + 6;
        if q + 2 <= end && doc[q] == '\\' && doc[q + 1] == 'u' { SequenceIff(doc, q, end); }
      }
    }
  }

  /** A string with such a backslash behind good characters is refused as a whole. */
  lemma BadEscapeRefused(doc: string, p: nat, xs: seq<Piece>, end: nat)
    requires LegalPieces(xs) && Occurs(doc, p, SpellAll(xs)) && p + |SpellAll(xs)| < end <= |doc|
    requires doc[p + |SpellAll(xs)|] == '\\' && !EscapeAt(doc, p + |SpellAll(xs)|, end)
    ensures DecodeFrom(doc, p, end).Bad?
  {
    hide SpellAll, MeaningAll, LegalPieces, DecodeFrom, EscapeAt;
    SpellingInFront(doc, p, xs, end);
    EscapeIff(doc, p + |SpellAll(xs)|, end);
  }

  // ---- code points through escapes ----

  /** Code points as escapes, each in its own spelling of the digits. */
  function Escapes(cps: seq<nat>, caps: seq<nat>): seq<Piece>
    requires |caps| == |cps|
  {
    seq(|cps|, i requires 0 <= i < |cps| => Code(cps[i], caps[i]))
  }

  function Utf8(cps: seq<nat>): string {
    if cps == [] then "" else CodePointToUTF8(cps[0]) + Utf8(cps[1..])
  }

  /** All characters of a UTF-8 text, if it is well formed throughout. */
  function FromUtf8(t: string): (r: seq<Char>)
    decreases |t|
  {
    match FirstChar(t)
    case NoChar => if t == "" then [] else [NoChar]
    case Char(cp, n) => [Char(cp, n)] + FromUtf8(t[n..])
  }

  lemma {:induction false} EscapesMeanUtf8(cps: seq<nat>, caps: seq<nat>)
    requires |caps| == |cps|
    ensures MeaningAll(Escapes(cps, caps)) == Utf8(cps)
  {
    if cps != [] {
      EscapesMeanUtf8(cps[1..], caps[1..]);
      assert Escapes(cps, caps)[1..] == Escapes(cps[1..], caps[1..]);
    }
  }

  lemma {:induction false} Utf8Decodes(cps: seq<nat>)
    requires forall i | 0 <= i < |cps| :: IsScalar(cps[i])
    ensures |FromUtf8(Utf8(cps))| == |cps|
    ensures forall i | 0 <= i < |cps| ::
      FromUtf8(Utf8(cps))[i] == Char(cps[i], |CodePointToUTF8(cps[i])|)
  {
    if cps != [] {
      var rest := Utf8(cps[1..]);
      Utf8OfScalar(cps[0], rest);
      Utf8Decodes(cps[1..]);
      var n := |CodePointToUTF8(cps[0])|;
      assert Utf8(cps)[n..] == rest;
      assert FromUtf8(Utf8(cps)) == [Char(cps[0], n)] + FromUtf8(rest);
    }
  }

  /** A string of scalar values written as escapes, with surrogate pairs above
      U+FFFF, decodes to well-formed UTF-8 that reads back as the same values. */
  lemma EscapedTextIsUtf8(doc: string, p: nat, cps: seq<nat>, caps: seq<nat>)
    requires |caps| == |cps| && forall i | 0 <= i < |cps| :: IsScalar(cps[i])
    requires Occurs(doc, p, SpellAll(Escapes(cps, caps)))
    ensures
      var d := DecodeFrom(doc, p, p + |SpellAll(Escapes(cps, caps))|);
      && d == Text(Utf8(cps))
      && |FromUtf8(d.s)| == |cps|
      && forall i | 0 <= i < |cps| :: FromUtf8(d.s)[i] == Char(cps[i], |CodePointToUTF8(cps[i])|)
  {
    hide SpellAll, MeaningAll, DecodeFrom, Utf8, FromUtf8, CodePointToUTF8;
    SpellingDecodes(doc, p, Escapes(cps, caps));
    EscapesMeanUtf8(cps, caps);
    Utf8Decodes(cps);
  }

  // ---- quoting ----

  /** `isControlCharacter`. */
  predicate IsControl(c: char) { '\0' < c <= 0x1F as char }

  /** How `valueToQuotedString` spells one character. */
  function QuotePiece(c: char): (x: Piece)
    ensures LegalPiece(x) && Meaning(x) == [c]
  {
    match c
    case '"' => Short('"')
    case '\\' => Short('\\')
    case '\n' => Short('n')
    case '\r' => Short('r')
    case '\t' => Short('t')
    case _ =>
      if c == 8 as char then Short('b')
      else if c == 12 as char then Short('f')
      else if IsControl(c) || c == '\0' then Code(c as int, 15)
      else Raw(c)
  }

  function QuotePieces(s: string): (xs: seq<Piece>)
    ensures LegalPieces(xs)
  {
    if s == "" then [] else [QuotePiece(s[0])] + QuotePieces(s[1..])
  }

  function Escaped(s: string): string { SpellAll(QuotePieces(s)) }

  /** The quoted form of a string. */
  function Quoted(s: string): string { "\"" + Escaped(s) + "\"" }

  lemma {:induction false} QuotedMeans(s: string)
    ensures MeaningAll(QuotePieces(s)) == s
  {
    if s != "" { QuotedMeans(s[1..]); }
  }

  /** Nothing below a blank is written as it is, and what needs no escape stands for itself. */
  lemma {:induction false} QuotedIsClean(s: string)
    ensures forall c | c in Escaped(s) :: c >= ' '
    ensures (forall c | c in s :: c >= ' ' && c != '"' && c != '\\') ==> Escaped(s) == s
  {
    hide SpellAll, QuotePieces, QuotePiece, Spell;
    if s == "" {
      EscapedEmpty();
    } else {
      QuotedIsClean(s[1..]);
      PieceIsClean(s[0]);
      assert s == [s[0]] + s[1..] && forall c | c in s[1..] :: c in s;
      EscapedCons(s[0], s[1..]);
      if forall c | c in s :: c >= ' ' && c != '"' && c != '\\' {
        assert s[0] in s;
        assert Escaped(s) == [s[0]] + s[1..];
      }
    }
  }

  lemma PieceIsClean(c: char)
    ensures forall d | d in Spell(QuotePiece(c)) :: d >= ' '
    ensures c >= ' ' && c != '"' && c != '\\' ==> Spell(QuotePiece(c)) == [c]
  {
    if QuotePiece(c).Code? { ControlSpelling(c); }
  }

  lemma {:induction false} EscapedAppend(s: string, c: char)
    ensures Escaped(s + [c]) == Escaped(s) + Spell(QuotePiece(c))
  {
    hide Spell, QuotePiece;
    if s == "" {
      SpellSingle(QuotePiece(c));
      assert QuotePieces([c]) == [QuotePiece(c)];
      assert s + [c] == [c];
    } else {
      EscapedAppend(s[1..], c);
      assert (s + [c])[1..] == s[1..] + [c];
      EscapedCons(s[0], s[1..] + [c]);
      EscapedCons(s[0], s[1..]);
      assert s + [c] == [s[0]] + (s[1..] + [c]) && s == [s[0]] + s[1..];
    }
  }

  lemma SpellSingle(x: Piece)
    requires LegalPiece(x)
    ensures SpellAll([x]) == Spell(x)
  {
    assert SpellAll([x]) == Spell(x) + SpellAll([]);
  }

  lemma EscapedCons(c: char, s: string)
    ensures Escaped([c] + s) == Spell(QuotePiece(c)) + Escaped(s)
  {
    assert ([c] + s)[1..] == s;
    assert QuotePieces([c] + s) == [QuotePiece(c)] + QuotePieces(s);
    assert ([QuotePiece(c)] + QuotePieces(s))[1..] == QuotePieces(s);
  }

  lemma ControlSpelling(c: char)
    requires IsControl(c) || c == '\0'
    requires QuotePiece(c).Code?
    ensures Spell(QuotePiece(c)) == ['\\', 'u', '0', '0', HexChar(c as int / 16, true), HexChar(c as int % 16, true)]
  {
    hide HexChar;
    ZeroChar();
    var n := c as int;
    assert Hex(n, 4, 15) == Hex(n / 16, 3, 7) + [HexChar(n % 16, true)];
    assert Hex(n / 16, 3, 7) == Hex(n / 16 / 16, 2, 3) + [HexChar(n / 16 % 16, true)];
    assert Hex(0, 2, 3) == Hex(0, 1, 1) + ['0'] && Hex(0, 1, 1) == ['0'];
  }

  lemma ZeroChar()
    ensures HexChar(0, true) == '0'
  {
  }

  predicate Plain(c: char) { QuotePiece(c) == Raw(c) }

  lemma {:induction false} PlainIsUnchanged(s: string)
    requires forall i | 0 <= i < |s| :: Plain(s[i])
    ensures Escaped(s) == s
  {
    if s != "" { PlainIsUnchanged(s[1..]); }
  }

  /** The part of a string before its first NUL. */
  function CStr(s: string): (t: string)
    ensures |t| <= |s| && t == s[..|t|]
    ensures forall i | 0 <= i < |t| :: t[i] != '\0'
    ensures |t| < |s| ==> s[|t|] == '\0'
  {
    if s == "" || s[0] == '\0' then "" else [s[0]] + CStr(s[1..])
  }

  /** `valueToQuotedStringN`: a shortcut for plain text, else character by character. */
  method ValueToQuotedStringN(value: string) returns (result: string)
    ensures result == Quoted(value)
  {
    var special := false;
    var i := 0;
    while i < |value| && !special
      invariant 0 <= i <= |value|
      invariant !special ==> forall j | 0 <= j < i :: Plain(value[j])
      invariant special ==> 0 < i && !Plain(value[i - 1])
    {
      var c := value[i];
      special := c in "\"\\\U{08}\U{0c}\n\r\t" || IsControl(c) || c == '\0';
      i := i + 1;
    }
    if !special {
      PlainIsUnchanged(value);
      return "\"" + value + "\"";
    }
    result := EscapeLoop(value);
  }

  /** `valueToQuotedString` on a C string. */
  method ValueToQuotedString(value: string) returns (result: string)
    ensures result == Quoted(CStr(value))
  {
    var length := 0;
    while length < |value| && value[length] != '\0'
      invariant 0 <= length <= |value|
      invariant forall j | 0 <= j < length :: value[j] != '\0'
    {
      length := length + 1;
    }
    CStrIs(value, length);
    result := ValueToQuotedStringN(value[..length]);
  }

  lemma {:induction false} CStrIs(s: string, n: nat)
    requires n <= |s| && (forall i | 0 <= i < n :: s[i] != '\0') && (n < |s| ==> s[n] == '\0')
    ensures CStr(s) == s[..n]
  {
    if n > 0 {
      CStrIs(s[1..], n - 1);
      assert s[..n] == [s[0]] + s[1..][..n - 1];
    }
  }

  lemma EscapedEmpty()
    ensures Escaped("") == ""
  {
  }

  /** The `switch` of the quoting loop. */
  method EscapeOne(c: char) returns (escape: string)
    ensures escape == Spell(QuotePiece(c))
  {
    if c == '"' { return "\\\""; }
    if c == '\\' { return "\\\\"; }
    if c == 8 as char { return "\\b"; }
    if c == 12 as char { return "\\f"; }
    if c == '\n' { return "\\n"; }
    if c == '\r' { return "\\r"; }
    if c == '\t' { return "\\t"; }
    if IsControl(c) || c == '\0' {
      ControlSpelling(c);
      return ['\\', 'u', '0', '0', HexChar(c as int / 16, true), HexChar(c as int % 16, true)];
    }
    return [c];
  }

  method EscapeLoop(value: string) returns (result: string)
    ensures result == Quoted(value)
  {
    hide Spell, QuotePiece, SpellAll, QuotePieces;
    EscapedEmpty();
    result := "\"";
    var i := 0;
    while i < |value|
      invariant 0 <= i <= |value|
      invariant result == "\"" + Escaped(value[..i])
    {
      var c := value[i];
      EscapedAppend(value[..i], c);
      assert value[..i + 1] == value[..i] + [c];
      var escape := EscapeOne(c);
      result := result + escape;
      i := i + 1;
    }
    assert value[..i] == value;
    result := result + "\"";
  }
}
