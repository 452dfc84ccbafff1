/**
 The `--bwlimit` argument: an optional sign in front of a size argument with
 default unit `K`, rounded to whole KiB.
 */
module BandwidthArg {
  import opened Prelude
  import opened Powers
  import opened SizeArg

  datatype BandwidthError = Malformed | TooSmall | OutOfSupportedRange

  predicate IsAsciiWhitespace(c: char) {
    c == ' ' || c == '\t' || c == '\n' || c as int == 12 || c == '\r'
  }

  predicate AllWhitespace(text: string) {
    forall i :: 0 <= i < |text| ==> IsAsciiWhitespace(text[i])
  }

  predicate Signed(text: string) {
    text != "" && IsSign(text[0])
  }

  function Magnitude(text: string): string {
    if Signed(text) then text[1..] else text
  }

  /** Half up to the nearest multiple of 1024. */
  function RoundedToKib(bytes: nat): nat {
    (bytes + 512) / 1024 * 1024
  }

  /** `Ok(None)` stands for an unlimited rate. */
  ghost function Limit(text: string): Result<Option<nat>, BandwidthError> {
    if AllWhitespace(text) || Magnitude(text) == "" then Err(Malformed)
    else Judged(Meaning(Magnitude(text), 'K'), text[0] == '-')
  }

  /** The policy on top of the parsed size. */
  function Judged(parsed: Result<ParsedSize, SizeArgError>, negative: bool): Result<Option<nat>, BandwidthError> {
    match parsed
    case Err(Invalid) => Err(Malformed)
    case Err(TooLarge) => Err(OutOfSupportedRange)
    case Ok(size) =>
      if negative then Err(Malformed)
      else if size.bytes == 0 then Ok(None)
      else if size.bytes < 512 then Err(TooSmall)
      else if RoundedToKib(size.bytes) > U64_MAX then Err(OutOfSupportedRange)
      else Ok(Some(RoundedToKib(size.bytes)))
  }

  method ParseBandwidthArgument(text: string) returns (r: Result<Option<nat>, BandwidthError>)
    ensures r == Limit(text)
  {
    if AllWhitespace(text) { return Err(Malformed); }
    var start, negative := 0, false;
    if text != "" {
      if text[0] == '+' {
        start := 1;
      } else if text[0] == '-' {
        negative := true;
        start := 1;
      }
    }
    assert text[start..] == Magnitude(text);
    if start == |text| { return Err(Malformed); }
    var parsed := ParseSizeArg(text[start..], 'K');
    if parsed.Err? {
      return Err(if parsed.error.Invalid? then Malformed else OutOfSupportedRange);
    }
    if negative { return Err(Malformed); }
    var bytes := parsed.value.bytes;
    if bytes == 0 { return Ok(None); }
    if bytes < 512 { return Err(TooSmall); }
    if bytes + 512 > U128_MAX { return Err(OutOfSupportedRange); }
    var kib := (bytes + 512) / 1024;
    var roundedBytes := kib * 1024;
    if roundedBytes > U128_MAX { return Err(OutOfSupportedRange); }
    if roundedBytes > U64_MAX { return Err(OutOfSupportedRange); }
    if roundedBytes == 0 { return Err(TooSmall); }
    return Ok(Some(roundedBytes));
  }

  /**
   A limit is granted exactly for an unsigned or `+` text whose byte count is at least
   512 and rounds into 64 bits; it is a positive multiple of 1024 next to that count.
   */
  lemma LimitGranted(text: string, limit: nat)
    ensures Limit(text) == Ok(Some(limit)) <==>
      && text != "" && text[0] != '-' && !AllWhitespace(text)
      && Meaning(Magnitude(text), 'K').Ok?
      && var bytes := Meaning(Magnitude(text), 'K').value.bytes;
         512 <= bytes && limit % 1024 == 0 && 0 < limit <= U64_MAX && -511 <= limit - bytes <= 512
  {
    if Meaning(Magnitude(text), 'K').Ok? {
      var bytes := Meaning(Magnitude(text), 'K').value.bytes;
      NearestMultiple(bytes, limit);
    }
    EmptyIsInvalid('K');
  }

  predicate BlankChar(c: char) {
    c == ' ' || c == '\t' || c == '\n' || c == '\r' || c as int == 12
  }

  predicate Blank(text: string) {
    forall i :: 0 <= i < |text| ==> BlankChar(text[i])
  }

  /** The text after its sign, if it has one. */
  function Unsigned(text: string): string {
    if text != "" && (text[0] == '+' || text[0] == '-') then text[1..] else text
  }

  lemma EmptyIsInvalid(defSuf: char)
    ensures Meaning("", defSuf) == Err(Invalid)
  {
    assert ScanEnd("") == 0;
  }

  /**
   Every verdict that grants no limit. Zero is unlimited; 1 to 511 bytes are too
   small; a minus sign makes any size malformed, unless it is too large to read.
   */
  lemma LimitVerdicts(text: string)
    ensures
      var size := Meaning(Unsigned(text), 'K');
      var minus := text != "" && text[0] == '-';
      && (Limit(text) == Ok(None) <==> !Blank(text) && !minus && size.Ok? && size.value.bytes == 0)
      && (Limit(text) == Err(TooSmall) <==> !Blank(text) && !minus && size.Ok? && 1 <= size.value.bytes <= 511)
      && (Limit(text) == Err(Malformed) <==> Blank(text) || size == Err(Invalid) || (minus && size.Ok?))
      && (Limit(text) == Err(OutOfSupportedRange) <==>
           !Blank(text) && (size == Err(TooLarge) ||
             (!minus && size.Ok? && (size.value.bytes + 512) / 1024 * 1024 > 0xFFFF_FFFF_FFFF_FFFF)))
  {
    assert AllWhitespace(text) <==> Blank(text);
    assert Magnitude(text) == Unsigned(text);
    EmptyIsInvalid('K');
  }

  lemma NearestMultiple(bytes: nat, limit: int)
    ensures limit == RoundedToKib(bytes) <==> limit % 1024 == 0 && -511 <= limit - bytes <= 512
  {
  }

  lemma RoundingMonotone(a: nat, b: nat)
    requires a <= b
    ensures RoundedToKib(a) <= RoundedToKib(b)
  {
  }

  // ------------------------------------------------------------ printing a limit

  function Digit(d: nat): (c: char)
    requires d <= 9
    ensures IsDigit(c) && DigitValue(c) == d
  {
    ('0' as int + d) as char
  }

  function DecimalText(n: nat): string {
    if n < 10 then [Digit(n)] else DecimalText(n / 10) + [Digit(n % 10)]
  }

  lemma {:induction false} DecimalDigits(n: nat)
    ensures DecimalText(n) != "" && forall i :: 0 <= i < |DecimalText(n)| ==> IsDigit(DecimalText(n)[i])
  {
    if n >= 10 { DecimalDigits(n / 10); }
  }

  lemma {:induction false} DecimalValue(n: nat)
    ensures AllDigits(DecimalText(n)) == n
  {
    if n < 10 {
      assert DecimalText(n)[..0] == "";
    } else {
      DecimalValue(n / 10);
      var front, last := DecimalText(n / 10), Digit(n % 10);
      assert DecimalText(n)[..|front|] == front && DecimalText(n)[|front|] == last;
      assert AllDigits(DecimalText(n)) == 10 * AllDigits(front) + n % 10;
    }
  }

  lemma {:induction false} DecimalLength(n: nat, k: nat)
    requires n < Pow(10, k) && 1 <= k
    ensures |DecimalText(n)| <= k
  {
    if n >= 10 {
      assert Pow(10, 1) == 10;
      DecimalLength(n / 10, k - 1);
    }
  }

  lemma {:induction false} CountOfDigits(m: string)
    requires forall i :: 0 <= i < |m| ==> IsDigit(m[i])
    ensures DigitCount(m) == |m| && FractionDigits(m) == 0
  {
    if m != "" { CountOfDigits(m[..|m| - 1]); }
  }

  lemma U64Digits(n: nat)
    requires n <= U64_MAX
    ensures |DecimalText(n)| <= 23
  {
    TenTo23();
    DecimalLength(n, 23);
  }

  lemma BytesTree(m: string)
    requires m != "" && forall i :: 0 <= i < |m| ==> IsDigit(m[i])
    ensures ParseTree(m + "B", 'K') == Some(Syntax(m, Some('B'), "", ""))
  {
    var s := Syntax(m, Some('B'), "", "");
    assert IsDigit(m[0]);
    assert Text(s) == m + "B";
    ParseTreeExact(m + "B", 'K', s);
  }

  lemma FloorByOne(n: nat)
    ensures FloorDiv(n * 1, 1) == n
  {
  }

  /** A byte count printed with a `B` reads back as itself. */
  lemma BytesReadBack(n: nat)
    requires n <= U64_MAX
    ensures Meaning(DecimalText(n) + "B", 'K') == Ok(ParsedSize(n, 1))
  {
    var s := Syntax(DecimalText(n), Some('B'), "", "");
    DecimalDigits(n);
    DecimalValue(n);
    CountOfDigits(DecimalText(n));
    U64Digits(n);
    BytesTree(DecimalText(n));
    ShortMantissaFits(DecimalText(n) + "B", 'K', s);
    GrammaticalMeaning(DecimalText(n) + "B", 'K', s);
    assert Scale(s, 'K') == 1 && TenPower(s.mantissa) == 1;
    FloorByOne(n);
  }

  lemma UnsignedLimit(text: string, limit: nat)
    requires text != "" && IsDigit(text[0]) && Meaning(text, 'K') == Ok(ParsedSize(limit, 1))
    requires limit % 1024 == 0 && 0 < limit <= U64_MAX
    ensures Limit(text) == Ok(Some(limit))
  {
    assert !IsAsciiWhitespace(text[0]) && Magnitude(text) == text;
    WholeKibGranted(limit);
  }

  lemma WholeKibGranted(limit: nat)
    requires limit % 1024 == 0 && 0 < limit <= U64_MAX
    ensures Judged(Ok(ParsedSize(limit, 1)), false) == Ok(Some(limit))
  {
    assert RoundedToKib(limit) == limit;
  }

  /** Every limit the parser returns is a fixed point of printing it in bytes and parsing it again. */
  lemma LimitReadBack(text: string, limit: nat)
    requires Limit(text) == Ok(Some(limit))
    ensures Limit(DecimalText(limit) + "B") == Ok(Some(limit))
  {
    LimitGranted(text, limit);
    BytesReadBack(limit);
    DecimalDigits(limit);
    UnsignedLimit(DecimalText(limit) + "B", limit);
  }
}
