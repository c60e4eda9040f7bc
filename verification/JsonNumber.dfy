/** Integers as text: `uintToString`, `valueToString` and the integer part of
    `Reader::decodeNumber`, all exact at the 64-bit edge. */
module JsonNumber {
  import opened JsonValue

  // ---- decimal notation ----

  predicate IsDigit(c: char) { '0' <= c <= '9' }

  predicate AllDigits(t: string) { forall i | 0 <= i < |t| :: IsDigit(t[i]) }

  function DigitChar(d: nat): char requires d < 10 { ('0' as int + d) as char }

  function DigitValue(c: char): nat requires IsDigit(c) { c as int - '0' as int }

  lemma DigitsAre(d: nat)
    requires d < 10
    ensures DigitChar(d) == "0123456789"[d] && IsDigit(DigitChar(d)) && DigitValue(DigitChar(d)) == d
  {
    var digits := "0123456789";
    assert digits[d] as int == '0' as int + d;
  }

  /** Decimal notation without leading zeros. */
  function Decimal(n: nat): string {
    if n < 10 then [DigitChar(n)] else Decimal(n / 10) + [DigitChar(n % 10)]
  }

  /** The number a string of digits denotes; leading zeros are allowed. */
  function Denotes(t: string): nat
    requires AllDigits(t)
  {
    if t == "" then 0 else Denotes(t[..|t| - 1]) * 10 + DigitValue(t[|t| - 1])
  }

  /** `n` is printed in `k` characters when it is below ten to the `k`. */
  function Pow10(k: nat): nat { if k == 0 then 1 else 10 * Pow10(k - 1) }

  lemma {:induction false} DecimalDenotes(n: nat)
    ensures Decimal(n) != "" && AllDigits(Decimal(n)) && Denotes(Decimal(n)) == n
    ensures n != 0 ==> Decimal(n)[0] != '0'
  {
    if n < 10 {
      assert Denotes([DigitChar(n)][..0]) == 0;
    } else {
      DecimalDenotes(n / 10);
      var t := Decimal(n);
      assert t[..|t| - 1] == Decimal(n / 10);
    }
  }

  lemma {:induction false} DecimalLength(n: nat, k: nat)
    requires n < Pow10(k) && k > 0
    ensures |Decimal(n)| <= k
  {
    if n >= 10 { DecimalLength(n / 10, k - 1); }
  }

  lemma DecimalLength64(n: nat)
    requires n <= MAX_LARGEST_UINT
    ensures |Decimal(n)| <= 20
  {
    assert Pow10(20) == 100_000_000_000_000_000_000 by {
      assert Pow10(5) == 100_000;
      assert Pow10(10) == 10_000_000_000;
      assert Pow10(15) == 1_000_000_000_000_000;
    }
    DecimalLength(n, 20);
  }

  // ---- printing ----

  /** `uintToStringBufferSize`. */
  const BUFFER_SIZE: nat := 3 * 8 + 1

  /** `uintToString`: fills the buffer backwards, ending with a NUL. */
  method UintToString(value: LargestUInt, buffer: array<char>, start: nat) returns (current: nat)
    requires 21 <= start <= buffer.Length
    modifies buffer
    ensures current == start - 1 - |Decimal(value)| && start - 21 <= current
    ensures buffer[current..start - 1] == Decimal(value) && buffer[start - 1] == '\0'
    ensures forall k | 0 <= k < current || start <= k < buffer.Length :: buffer[k] == old(buffer[k])
  {
    hide Decimal, Pow10;
    DecimalLength64(value);
    DecimalStep(value);
    current := start - 1;
    buffer[current] := '\0';
    var v: nat := value;
    current := current - 1;
    buffer[current] := DigitChar(v % 10);
    v := v / 10;
    ghost var rest := if v == 0 then "" else Decimal(v);
    while v != 0
      invariant start - 21 <= current <= start - 2
      invariant rest == if v == 0 then "" else Decimal(v)
      invariant rest + buffer[current..start - 1] == Decimal(value)
      invariant buffer[start - 1] == '\0'
      invariant forall k | 0 <= k < current || start <= k < buffer.Length :: buffer[k] == old(buffer[k])
      decreases v
    {
      DecimalStep(v);
      ghost var tail := buffer[current..start - 1];
      assert |rest| + |tail| == |rest + tail| <= 20;
      current := current - 1;
      buffer[current] := DigitChar(v % 10);
      assert buffer[current..start - 1] == [DigitChar(v % 10)] + tail;
      v := v / 10;
      ghost var shorter := if v == 0 then "" else Decimal(v);
      DigitMoves(shorter, buffer[current], tail);
      rest := shorter;
    }
  }

  lemma DigitMoves(shorter: string, digit: char, tail: string)
    ensures shorter + ([digit] + tail) == shorter + [digit] + tail
  {
  }

  lemma DecimalStep(n: nat)
    ensures Decimal(n) == (if n / 10 == 0 then "" else Decimal(n / 10)) + [DigitChar(n % 10)]
  {
  }

  /** The text of a signed integer. */
  function IntText(value: int): string {
    if value < 0 then "-" + Decimal(-value) else Decimal(value)
  }

  /** `valueToString(LargestInt)`; `current` never runs below the buffer, and
      no intermediate value leaves the 64-bit ranges. */
  method IntToString(value: LargestInt) returns (text: string)
    ensures text == IntText(value)
  {
    hide Decimal, Pow10, NulAt;
    var buffer := new char[BUFFER_SIZE];
    var current := buffer.Length;
    var magnitude: LargestUInt;
    if value == MIN_LARGEST_INT {
      magnitude := MAX_LARGEST_INT + 1;
      current := UintToString(magnitude, buffer, current);
      current := current - 1;
      buffer[current] := '-';
    } else if value < 0 {
      var negated: LargestInt := -value;
      magnitude := negated;
      current := UintToString(magnitude, buffer, current);
      current := current - 1;
      buffer[current] := '-';
    } else {
      magnitude := value;
      current := UintToString(magnitude, buffer, current);
    }
    text := CString(buffer, current);
    ghost var end := buffer.Length - 1;
    if value < 0 {
      assert buffer[current..end] == ['-'] + buffer[current + 1..end];
    }
    TextIsDigitsOrMinus(value);
    assert buffer[..][current..end] == IntText(value);
    CStringEnds(buffer[..], current, end);
  }

  /** `valueToString(LargestUInt)`. */
  method UIntToString(value: LargestUInt) returns (text: string)
    ensures text == Decimal(value)
  {
    var buffer := new char[BUFFER_SIZE];
    var current := UintToString(value, buffer, buffer.Length);
    text := CString(buffer, current);
    DecimalDenotes(value);
    assert buffer[..][current..buffer.Length - 1] == Decimal(value);
    CStringEnds(buffer[..], current, buffer.Length - 1);
  }

  /** Position of the first NUL at or after `p`. */
  function NulAt(s: string, p: nat): (q: nat)
    requires p <= |s|
    ensures p <= q <= |s|
    decreases |s| - p
  {
    if p == |s| || s[p] == '\0' then p else NulAt(s, p + 1)
  }

  /** A C string read from a buffer: everything up to the first NUL. */
  method CString(buffer: array<char>, start: nat) returns (text: string)
    requires start <= buffer.Length
    ensures text == buffer[start..NulAt(buffer[..], start)]
  {
    var p := start;
    while p < buffer.Length && buffer[p] != '\0'
      invariant start <= p <= buffer.Length
      invariant NulAt(buffer[..], start) == NulAt(buffer[..], p)
    {
      p := p + 1;
    }
    text := buffer[start..p];
  }

  lemma {:induction false} CStringEnds(s: string, p: nat, end: nat)
    requires p <= end < |s| && s[end] == '\0'
    requires forall i | 0 <= i < end - p :: s[p..end][i] != '\0'
    ensures NulAt(s, p) == end
    decreases end - p
  {
    if p < end {
      assert s[p] == s[p..end][0];
      assert s[p + 1..end] == s[p..end][1..];
      CStringEnds(s, p + 1, end);
    }
  }

  lemma TextIsDigitsOrMinus(value: int)
    ensures forall i | 0 <= i < |IntText(value)| :: IntText(value)[i] != '\0'
  {
    DecimalDenotes(if value < 0 then -value else value);
  }

  // ---- reading ----

  /** The digits of a numeral, without its sign. */
  function Magnitude(text: string): string {
    if text != "" && text[0] == '-' then text[1..] else text
  }

  function MaxIntegerValue(text: string): nat {
    if text != "" && text[0] == '-' then MAX_LARGEST_INT + 1 else MAX_LARGEST_UINT
  }

  /** The value a numeral has when it fits 64 bits. A lone minus sign has no
      digits and reads as zero. Values above 2^31-1 get the unsigned tag. */
  function DecodedInteger(text: string): (r: Option<Value>)
    ensures r.Some? ==> r.value.Int? || r.value.UInt?
  {
    var digits := Magnitude(text);
    if !AllDigits(digits) || Denotes(digits) > MaxIntegerValue(text) then None
    else
      var n: int := Denotes(digits);
      if text != "" && text[0] == '-' then Some(Int(-n))
      else if n <= MAX_INT then Some(Int(n))
      else Some(UInt(n))
  }

  /** The integer part of `decodeNumber`; `None` means that the code goes on to
      `decodeDouble`. The accumulator is a 64-bit unsigned integer and never
      exceeds the bound it is compared with. */
  method DecodeInteger(text: string) returns (decoded: Option<Value>)
    requires text != ""
    ensures decoded == DecodedInteger(text)
  {
    hide Denotes;
    var current := 0;
    DenotesNothing();
    var isNegative := text[0] == '-';
    if isNegative { current := current + 1; }
    var maxIntegerValue: LargestUInt := if isNegative then MAX_LARGEST_INT + 1 else MAX_LARGEST_UINT;
    var threshold := maxIntegerValue / 10;
    var value: LargestUInt := 0;
    ghost var first := current;
    assert text[first..current] == "";
    ghost var digits := Magnitude(text);
    while current < |text|
      invariant first <= current <= |text|
      invariant AllDigits(text[first..current]) && Denotes(text[first..current]) == value
      invariant value <= maxIntegerValue
    {
      var c := text[current];
      current := current + 1;
      if !IsDigit(c) {
        assert digits[current - 1 - first] == c;
        return None;
      }
      var digit := DigitValue(c);
      ghost var next := text[first..current];
      assert next == text[first..current - 1] + [c];
      DenotesAppend(text[first..current - 1], c);
      if value >= threshold {
        if value > threshold || current != |text| || digit > maxIntegerValue % 10 {
          assert digits[..current - first] == next;
          TooLarge(digits, current - first, maxIntegerValue);
          return None;
        }
      }
      value := value * 10 + digit;
    }
    assert digits == text[first..current];
    if isNegative && value == maxIntegerValue {
      decoded := Some(Int(MIN_LARGEST_INT));
    } else if isNegative {
      decoded := Some(Int(0 - value));
    } else if value <= MAX_INT {
      decoded := Some(Int(value));
    } else {
      decoded := Some(UInt(value));
    }
  }

  lemma DenotesNothing()
    ensures Denotes("") == 0
  {
  }

  lemma DenotesAppend(t: string, c: char)
    requires AllDigits(t) && IsDigit(c)
    ensures AllDigits(t + [c]) && Denotes(t + [c]) == Denotes(t) * 10 + DigitValue(c)
  {
    assert (t + [c])[..|t|] == t;
  }

  /** Once the digits read so far exceed the bound, or fill it with more to
      come, the whole numeral is not a 64-bit integer. */
  lemma {:induction false} TooLarge(digits: string, k: nat, bound: nat)
    requires 0 < k <= |digits| && AllDigits(digits[..k])
    requires Denotes(digits[..k]) > bound || (k < |digits| && Denotes(digits[..k]) * 10 > bound)
    ensures !AllDigits(digits) || Denotes(digits) > bound
    decreases |digits| - k
  {
    if k == |digits| {
      assert digits[..k] == digits;
    } else if IsDigit(digits[k]) {
      var next := digits[..k + 1];
      assert next[..k] == digits[..k];
      assert Denotes(next) == Denotes(digits[..k]) * 10 + DigitValue(digits[k]);
      TooLarge(digits, k + 1, bound);
    }
  }

  // ---- properties of the specification ----

  /** Signed and unsigned tags apart, two integers are the same number. */
  function Number(v: Value): int requires v.Int? || v.UInt? { if v.Int? then v.i else v.u }

  /** What reading makes of an integer: the same number, with the tag that
      `decodeNumber` chooses from its size. */
  function Retag(v: Value): (r: Value)
    ensures v.Int? || v.UInt? ==> (r.Int? || r.UInt?) && Number(r) == Number(v)
  {
    if v.UInt? && v.u <= MAX_INT then Int(v.u)
    else if v.Int? && v.i > MAX_INT then UInt(v.i)
    else v
  }

  function IntegerText(v: Value): string requires v.Int? || v.UInt? {
    if v.Int? then IntText(v.i) else Decimal(v.u)
  }

  /** Reading inverts printing on all 64-bit integers, signed and unsigned. */
  lemma DecodeInvertsPrint(v: Value)
    requires v.Int? || v.UInt?
    ensures DecodedInteger(IntegerText(v)) == Some(Retag(v))
  {
    var n := Number(v);
    DecimalDenotes(if n < 0 then -n else n);
    var text := IntegerText(v);
    if n < 0 {
      assert text[1..] == Decimal(-n);
    } else {
      assert IsDigit(text[0]);
    }
  }

  /** A numeral of digits reads as an integer iff it is at most 2^64-1, or 2^63
      behind a minus sign; leading zeros make no difference. */
  lemma IntegerIffFits(digits: string, zeros: nat)
    requires AllDigits(digits) && digits != ""
    ensures DecodedInteger(digits).Some? <==> Denotes(digits) <= 0xFFFF_FFFF_FFFF_FFFF
    ensures DecodedInteger("-" + digits).Some? <==> Denotes(digits) <= 0x8000_0000_0000_0000
    ensures DecodedInteger(seq(zeros, _ => '0') + digits) == DecodedInteger(digits)
  {
    assert ("-" + digits)[1..] == digits;
    assert IsDigit(digits[0]);
    var z := seq(zeros, _ => '0');
    LeadingZeros(z, digits);
    assert IsDigit((z + digits)[0]);
  }

  lemma {:induction false} LeadingZeros(z: string, digits: string)
    requires forall i | 0 <= i < |z| :: z[i] == '0'
    requires AllDigits(digits)
    ensures AllDigits(z + digits) && Denotes(z + digits) == Denotes(digits)
    decreases |z| + |digits|
  {
    if digits == "" {
      assert z + digits == z;
      if z != "" {
        LeadingZeros(z[..|z| - 1], "");
        assert z[..|z| - 1] + "" == z[..|z| - 1];
      }
    } else {
      var d := digits[..|digits| - 1];
      LeadingZeros(z, d);
      assert (z + digits)[..|z + digits| - 1] == z + d;
    }
  }
}
