/** Numerals as the assembler reads them and the disassembler prints them
    (`parse_numeric` of `src/soc/isa/machine/assembly.rs`, the number formats of `format.rs`). */
module Numerals {
  import opened Words
  import opened Results

  datatype NumeralError = NoDigits | BadDigit | OutOfRange

  type Base = b: nat | b in {2, 8, 10, 16} witness 10

  // ---- Reading ----

  /** `char::is_whitespace` */
  predicate IsSpace(c: char) {
    '\t' <= c <= '\r' || c == ' ' || c == '\U{85}' || c == '\U{A0}' || c == '\U{1680}'
    || '\U{2000}' <= c <= '\U{200A}' || c == '\U{2028}' || c == '\U{2029}' || c == '\U{202F}'
    || c == '\U{205F}' || c == '\U{3000}'
  }

  function TrimStart(text: string): string {
    if text != [] && IsSpace(text[0]) then TrimStart(text[1..]) else text
  }

  function TrimEnd(text: string): string {
    if text != [] && IsSpace(text[|text| - 1]) then TrimEnd(text[..|text| - 1]) else text
  }

  function Trim(text: string): string {
    TrimEnd(TrimStart(text))
  }

  function TrimSigns(text: string): string {
    if text != [] && (text[0] == '-' || text[0] == '+') then TrimSigns(text[1..]) else text
  }

  function DropUnderscores(text: string): string {
    if text == [] then []
    else if text[0] == '_' then DropUnderscores(text[1..])
    else [text[0]] + DropUnderscores(text[1..])
  }

  /** `char::to_digit` */
  function DigitValue(c: char, base: Base): Option<nat> {
    var value := if '0' <= c <= '9' then c as int - '0' as int
                 else if 'a' <= c <= 'z' then c as int - 'a' as int + 10
                 else if 'A' <= c <= 'Z' then c as int - 'A' as int + 10
                 else base;
    if value < base then Some(value) else None
  }

  function Weigh(high: nat, base: Base, last: nat): nat {
    high * base + last
  }

  function Positional(text: string, base: Base): Option<nat> {
    if text == [] then Some(0)
    else
      var high, last := Positional(text[..|text| - 1], base), DigitValue(text[|text| - 1], base);
      if high.Some? && last.Some? then Some(Weigh(high.value, base, last.value)) else None
  }

  /** `i64::from_str_radix`: one sign of its own, then digits, within range. */
  function FromStrRadix(text: string, base: Base): Result<I64, NumeralError> {
    if text == [] then Err(NoDigits)
    else
      var signed := text[0] == '-' || text[0] == '+';
      var digits := if signed then text[1..] else text;
      if digits == [] then Err(BadDigit)
      else
        var magnitude := Positional(digits, base);
        if magnitude.None? then Err(BadDigit)
        else
          var value: int := if text[0] == '-' then -1 * (magnitude.value as int) else magnitude.value as int;
          if -(WORD / 2) <= value < WORD / 2 then Ok(value) else Err(OutOfRange)
  }

  function Prefixed(text: string, lower: char, upper: char): bool {
    |text| >= 2 && text[0] == '0' && (text[1] == lower || text[1] == upper)
  }

  /** `parse_numeric`; the sign is applied with wrapping. */
  function ParseNumeric(raw: string): Result<I64, NumeralError> {
    var trimmed := Trim(raw);
    var sign := if trimmed != [] && trimmed[0] == '-' then -1 else 1;
    var token := DropUnderscores(TrimSigns(trimmed));
    var value: Result<I64, NumeralError> :=
                 if Prefixed(token, 'x', 'X') then FromStrRadix(token[2..], 16)
                 else if Prefixed(token, 'b', 'B') then FromStrRadix(token[2..], 2)
                 else if Prefixed(token, 'o', 'O') then FromStrRadix(token[2..], 8)
                 else FromStrRadix(token, 10);
    if value.Ok? then Ok(WrapI64(sign * (value.value as int))) else value
  }

  // ---- Printing ----

  function DigitChar(d: nat): (c: char)
    requires d < 16
    ensures '0' <= c <= '9' || 'A' <= c <= 'F'
    ensures d < 10 ==> '0' <= c <= '9'
  {
    if d < 10 then ('0' as int + d) as char else ('A' as int + (d - 10)) as char
  }

  /** `{:0width$X}` and, in base ten, `{:0width$}`: as many digits as the value needs, at least `width`. */
  function Numeral(value: nat, base: Base, width: nat): (r: string)
    ensures r != []
    decreases value + width
  {
    Smaller(value, base);
    if value < base && width <= 1 then [DigitChar(value)]
    else Numeral(Quotient(value, base), base, Narrower(width)) + [DigitChar(LastDigit(value, base))]
  }

  function Narrower(width: nat): nat {
    if width > 0 then width - 1 else 0
  }

  function LastDigit(value: nat, base: Base): (d: nat)
    ensures d < base
  {
    value % base
  }

  lemma Smaller(value: nat, base: Base)
    ensures Quotient(value, base) <= value
    ensures value > 0 ==> Quotient(value, base) < value
    ensures Weigh(Quotient(value, base), base, LastDigit(value, base)) == value
  {}

  function Decimal(value: nat): string {
    Numeral(value, 10, 1)
  }

  function HexLiteral(value: nat, width: nat): string {
    "0x" + Numeral(value, 16, width)
  }

  // ---- Reading what was printed ----

  /** Characters that no step before the digits takes away. */
  predicate IsPlain(c: char) {
    !IsSpace(c) && c != '_' && c != '-' && c != '+' && c != ','
  }

  predicate AllPlain(text: string) {
    forall k | 0 <= k < |text| :: IsPlain(text[k])
  }

  predicate AllDecimal(text: string) {
    forall k | 0 <= k < |text| :: '0' <= text[k] <= '9'
  }

  lemma {:induction false} NumeralChars(value: nat, base: Base, width: nat)
    ensures AllPlain(Numeral(value, base, width))
    ensures base <= 10 ==> AllDecimal(Numeral(value, base, width))
    decreases value + width
  {
    Smaller(value, base);
    if !(value < base && width <= 1) { NumeralChars(Quotient(value, base), base, Narrower(width)); }
  }

  lemma DigitRead(d: nat, base: Base)
    requires d < base
    ensures DigitValue(DigitChar(d), base) == Some(d)
  {}

  /** How a numeral is put together. */
  lemma NumeralSplit(value: nat, base: Base, width: nat)
    ensures value < base && width <= 1 ==> Numeral(value, base, width) == [DigitChar(value)]
    ensures !(value < base && width <= 1) ==>
      && Numeral(value, base, width) == Numeral(Quotient(value, base), base, Narrower(width)) + [DigitChar(LastDigit(value, base))]
      && Quotient(value, base) + Narrower(width) < value + width
  {
    Smaller(value, base);
  }

  /** A printed numeral denotes its value, padding included. */
  lemma {:induction false} PositionalOfNumeral(value: nat, base: Base, width: nat)
    ensures Positional(Numeral(value, base, width), base) == Some(value)
    decreases value + width
  {
    NumeralSplit(value, base, width);
    if value < base && width <= 1 {
      SingleDigit(value, base);
    } else {
      PositionalOfNumeral(Quotient(value, base), base, Narrower(width));
      DigitAppended(Numeral(Quotient(value, base), base, Narrower(width)), value, base);
    }
  }

  lemma SingleDigit(value: nat, base: Base)
    requires value < base
    ensures Positional([DigitChar(value)], base) == Some(value)
  {
    DigitRead(value, base);
    assert [DigitChar(value)][..0] == [];
    assert Positional([], base) == Some(0);
  }

  lemma DigitAppended(high: string, value: nat, base: Base)
    requires Positional(high, base) == Some(Quotient(value, base))
    ensures Positional(high + [DigitChar(LastDigit(value, base))], base) == Some(value)
  {
    Smaller(value, base);
    DigitRead(LastDigit(value, base), base);
    PositionalAppend(high, DigitChar(LastDigit(value, base)), base);
  }

  lemma PositionalAppend(text: string, c: char, base: Base)
    ensures Positional(text + [c], base)
      == if Positional(text, base).Some? && DigitValue(c, base).Some?
         then Some(Weigh(Positional(text, base).value, base, DigitValue(c, base).value)) else None
  {
    assert (text + [c])[..|text|] == text;
  }

  lemma {:induction false} UnderscoresStay(text: string)
    requires AllPlain(text)
    ensures DropUnderscores(text) == text
  {
    if text != [] { UnderscoresStay(text[1..]); }
  }

  /** Plain text reaches the choice of base unchanged. */
  lemma PlainToken(text: string)
    requires AllPlain(text)
    ensures Trim(text) == text && TrimSigns(text) == text && DropUnderscores(text) == text
  {
    UnderscoresStay(text);
  }

  lemma RadixOfNumeral(value: nat, base: Base, width: nat)
    ensures FromStrRadix(Numeral(value, base, width), base) == if value < WORD / 2 then Ok(value) else Err(OutOfRange)
  {
    PositionalOfNumeral(value, base, width);
    NumeralChars(value, base, width);
  }

  /** A printed decimal reads back exactly when it fits a signed 64-bit number. */
  lemma DecimalReadsBack(value: nat)
    ensures ParseNumeric(Decimal(value)) == if value < WORD / 2 then Ok(value) else Err(OutOfRange)
  {
    var text := Decimal(value);
    NumeralChars(value, 10, 1);
    PlainToken(text);
    assert !Prefixed(text, 'x', 'X') && !Prefixed(text, 'b', 'B') && !Prefixed(text, 'o', 'O');
    RadixOfNumeral(value, 10, 1);
    if value < WORD / 2 { WrapI64Small(value); }
  }

  lemma HexChars(value: nat, width: nat)
    ensures AllPlain(HexLiteral(value, width))
  {
    NumeralChars(value, 16, width);
  }

  /** So does a printed hexadecimal literal, whatever its padding. */
  lemma HexReadsBack(value: nat, width: nat)
    ensures ParseNumeric(HexLiteral(value, width)) == if value < WORD / 2 then Ok(value) else Err(OutOfRange)
  {
    HexChars(value, width);
    PlainToken(HexLiteral(value, width));
    RadixOfNumeral(value, 16, width);
    assert HexLiteral(value, width)[2..] == Numeral(value, 16, width);
    if value < WORD / 2 { WrapI64Small(value); }
  }

  /** Distinct numbers have distinct numerals. */
  lemma NumeralsDistinct(a: nat, b: nat, base: Base, width: nat)
    requires Numeral(a, base, width) == Numeral(b, base, width)
    ensures a == b
  {
    PositionalOfNumeral(a, base, width);
    PositionalOfNumeral(b, base, width);
  }

  /** The front of a decimal numeral is a decimal numeral. */
  lemma {:induction false} DecimalPrefix(value: nat, n: nat) returns (front: nat)
    requires 0 < n <= |Decimal(value)|
    ensures front <= value && Decimal(value)[..n] == Decimal(front)
    decreases value
  {
    front := value;
    if n == |Decimal(value)| {
      assert Decimal(value)[..n] == Decimal(value);
    } else {
      NumeralSplit(value, 10, 1);
      Smaller(value, 10);
      FewerDigits(Quotient(value, 10));
      front := DecimalPrefix(Quotient(value, 10), n);
      assert Decimal(value)[..n] == Decimal(Quotient(value, 10))[..n];
    }
  }

  /** The width only matters when there are fewer digits. */
  lemma FewerDigits(value: nat)
    ensures Numeral(value, 10, 0) == Numeral(value, 10, 1)
  {}

  /** Text that starts with a letter is not a number. */
  lemma LetterIsNoNumeral(text: string)
    requires AllPlain(text) && text != [] && DigitValue(text[0], 10).None?
    ensures ParseNumeric(text).Err?
  {
    PlainToken(text);
    FirstDigitBad(text);
  }

  lemma {:induction false} FirstDigitBad(text: string)
    requires text != [] && DigitValue(text[0], 10).None?
    ensures Positional(text, 10).None?
    decreases |text|
  {
    if |text| > 1 { FirstDigitBad(text[..|text| - 1]); }
  }

  // ---- The other spellings ----

  /** Letters stand for the digits from ten on, in both cases. */
  lemma LetterMeans(k: nat)
    requires k < 26
    ensures DigitValue('a' + k as char, 16) == DigitValue('A' + k as char, 16) == if k < 6 then Some(10 + k) else None
  {}

  /** A prefix, in either case, chooses the base of the digits after it. */
  lemma PrefixedReads(value: nat, base: Base, width: nat, mark: char)
    requires (mark in "xX" && base == 16) || (mark in "bB" && base == 2) || (mark in "oO" && base == 8)
    ensures ParseNumeric(['0', mark] + Numeral(value, base, width)) == if value < WORD / 2 then Ok(value) else Err(OutOfRange)
  {
    NumeralChars(value, base, width);
    PrefixChooses(Numeral(value, base, width), base, mark);
    RadixOfNumeral(value, base, width);
    if value < WORD / 2 { WrapI64Small(value); }
  }

  lemma PrefixChooses(digits: string, base: Base, mark: char)
    requires AllPlain(digits)
    requires (mark in "xX" && base == 16) || (mark in "bB" && base == 2) || (mark in "oO" && base == 8)
    ensures var value := FromStrRadix(digits, base);
      ParseNumeric(['0', mark] + digits) == if value.Ok? then Ok(WrapI64(value.value)) else value
  {
    var text := ['0', mark] + digits;
    PlainToken(text);
    assert text[2..] == digits && text[1] == mark;
  }

  /** Plain text is read by the base that its prefix chooses. */
  function BaseAndDigits(text: string): (Base, string) {
    if Prefixed(text, 'x', 'X') then (16, text[2..])
    else if Prefixed(text, 'b', 'B') then (2, text[2..])
    else if Prefixed(text, 'o', 'O') then (8, text[2..])
    else (10, text)
  }

  lemma PlainReads(text: string)
    requires AllPlain(text)
    ensures ParseNumeric(text) == FromStrRadix(BaseAndDigits(text).1, BaseAndDigits(text).0)
  {
    PlainToken(text);
    var value := FromStrRadix(BaseAndDigits(text).1, BaseAndDigits(text).0);
    if value.Ok? { WrapI64Small(value.value); }
  }

  lemma SignedToken(text: string)
    requires AllPlain(text)
    ensures Trim(['-'] + text) == ['-'] + text && DropUnderscores(TrimSigns(['-'] + text)) == text
  {
    var signed := ['-'] + text;
    PlainToken(text);
    assert signed[1..] == text;
    assert text != [] ==> signed[|signed| - 1] == text[|text| - 1];
    assert TrimSigns(signed) == TrimSigns(text);
  }

  /** A minus sign negates what follows. */
  lemma MinusNegates(text: string)
    requires AllPlain(text)
    ensures var r := ParseNumeric(text);
      ParseNumeric(['-'] + text) == if r.Ok? then Ok(WrapI64(-(r.value as int))) else r
  {
    PlainReads(text);
    SignedToken(text);
    var value := FromStrRadix(BaseAndDigits(text).1, BaseAndDigits(text).0);
    assert ParseNumeric(['-'] + text) == if value.Ok? then Ok(WrapI64(-1 * (value.value as int))) else value;
  }

  /** Underscores between plain characters are passed over. */
  lemma UnderscorePassed(a: string, b: string)
    requires AllPlain(a) && AllPlain(b) && a != [] && b != []
    ensures ParseNumeric(a + ['_'] + b) == ParseNumeric(a + b)
  {
    PlainToken(a + b);
    var text := a + ['_'] + b;
    assert text[0] == a[0] && text[|text| - 1] == b[|b| - 1];
    assert Trim(text) == text && TrimSigns(text) == text;
    UnderscoreDropped(a, b);
  }

  lemma {:induction false} UnderscoreDropped(a: string, b: string)
    requires AllPlain(a) && AllPlain(b)
    ensures DropUnderscores(a + ['_'] + b) == a + b
  {
    if a == [] {
      assert (a + ['_'] + b)[1..] == b;
      UnderscoresStay(b);
    } else {
      assert (a + ['_'] + b)[1..] == a[1..] + ['_'] + b;
      UnderscoreDropped(a[1..], b);
    }
  }

  /** A number of so many digits is padded to no more. */
  lemma {:induction false} PaddedLength(value: nat, width: nat)
    requires width > 0 && value < Pow2(4 * width)
    ensures |Numeral(value, 16, width)| == width
  {
    NumeralSplit(value, 16, width);
    if width == 1 {
      assert Pow2(4) == 16;
    } else {
      Pow2Add(4, 4 * (width - 1));
      assert Pow2(4) == 16;
      Sixteenth(value, Pow2(4 * (width - 1)));
      PaddedLength(Quotient(value, 16), width - 1);
    }
  }

  lemma Sixteenth(value: nat, p: nat)
    requires value < 16 * p
    ensures Quotient(value, 16) < p
  {}
}
