/**
 The size-argument parser behind `--bwlimit`, `--max-size` and their relatives.

 A grammatical text is a decimal mantissa, an optional unit letter, an optional
 `B` or `iB`, and an optional `+1` or `-1`. `Syntax` is its parse tree, `Text`
 prints it, and `Shape` reads it back; `ShapeSound` and `ShapeComplete` make the
 two inverse to each other. The meaning of a mantissa is given independently of
 the code, as the rational number its digits spell.
 */
module SizeArg {
  import opened Prelude
  import opened Powers

  datatype SizeArgError = Invalid | TooLarge

  datatype ParsedSize = ParsedSize(bytes: nat, unit: nat)

  /** Answers exactly when the power fits 128 bits: no intermediate square overflows on its own. */
  method PowU128(base: nat, exponent: nat) returns (r: Result<nat, SizeArgError>)
    ensures r == if Pow(base, exponent) <= U128_MAX then Ok(Pow(base, exponent)) else Err(TooLarge)
  {
    var result: nat, factor: nat, exp := 1, base, exponent;
    ghost var want := Pow(base, exponent);
    while exp > 0
      invariant result * Pow(factor, exp) == want
      invariant result <= U128_MAX
      invariant factor >= 1 ==> result >= 1
    {
      var half := exp / 2;
      if factor >= 1 { FactorBound(result, factor, exp); }
      if exp % 2 == 1 {
        PowOdd(result, factor, exp);
        if result * factor > U128_MAX { return Err(TooLarge); }
        result := result * factor;
      }
      assert result * Pow(factor, 2 * half) == want;
      PowSquare(factor, half);
      exp := half;
      if exp > 0 {
        if factor >= 1 { FactorBound(result, factor * factor, exp); }
        if factor * factor > U128_MAX { return Err(TooLarge); }
        factor := factor * factor;
      }
    }
    return Ok(result);
  }

  // ------------------------------------------------------------ the mantissa

  predicate IsDigit(c: char) {
    '0' <= c <= '9'
  }

  predicate IsSeparator(c: char) {
    c == '.' || c == ','
  }

  function DigitValue(c: char): (d: nat)
    requires IsDigit(c)
    ensures d <= 9
  {
    c as int - '0' as int
  }

  predicate HasSeparator(m: string) {
    exists i :: 0 <= i < |m| && IsSeparator(m[i])
  }

  predicate HasDigit(m: string) {
    exists i :: 0 <= i < |m| && IsDigit(m[i])
  }

  /** Digits with at most one separator: what the scan accepts. */
  ghost predicate Scannable(m: string) {
    && (forall i :: 0 <= i < |m| ==> IsDigit(m[i]) || IsSeparator(m[i]))
    && (forall i, j :: 0 <= i < j < |m| ==> !(IsSeparator(m[i]) && IsSeparator(m[j])))
  }

  ghost predicate IsMantissa(m: string) {
    Scannable(m) && HasDigit(m)
  }

  /** `c` may follow the scannable prefix `m`. */
  predicate Continues(m: string, c: char) {
    IsDigit(c) || (IsSeparator(c) && !HasSeparator(m))
  }

  /** `n` is where the scan stops: the longest scannable prefix. */
  ghost predicate IsScanEnd(text: string, n: nat) {
    n <= |text| && Scannable(text[..n]) && (n < |text| ==> !Continues(text[..n], text[n]))
  }

  lemma ScanEndUnique(text: string, a: nat, b: nat)
    requires IsScanEnd(text, a) && IsScanEnd(text, b)
    ensures a == b
  {
    if a < b { ScanEndOrder(text, a, b); }
    if b < a { ScanEndOrder(text, b, a); }
  }

  /** Anything before the end of a scannable prefix continues it. */
  lemma ScanEndOrder(text: string, a: nat, b: nat)
    requires a < b <= |text| && Scannable(text[..b])
    ensures Continues(text[..a], text[a])
  {
    assert text[..b][a] == text[a];
    if IsSeparator(text[a]) {
      forall i | 0 <= i < a ensures !IsSeparator(text[..a][i]) {
        assert text[..b][i] == text[i];
      }
    }
  }

  method Scan(text: string) returns (numericEnd: nat, digitsSeen: bool)
    ensures IsScanEnd(text, numericEnd)
    ensures digitsSeen <==> HasDigit(text[..numericEnd])
  {
    digitsSeen := false;
    var decimalSeen := false;
    numericEnd := |text|;
    for index := 0 to |text|
      invariant numericEnd == |text|
      invariant Scannable(text[..index])
      invariant digitsSeen <==> HasDigit(text[..index])
      invariant decimalSeen <==> HasSeparator(text[..index])
    {
      ghost var next := text[..index + 1];
      assert forall i :: 0 <= i < index ==> next[i] == text[..index][i];
      assert next[index] == text[index];
      if IsDigit(text[index]) {
        digitsSeen := true;
      } else if IsSeparator(text[index]) && !decimalSeen {
        decimalSeen := true;
      } else {
        numericEnd := index;
        break;
      }
    }
    assert numericEnd == |text| ==> text[..numericEnd] == text[..|text|];
  }

  /** The three accumulators of the decimal reader, without their 128-bit limit. */
  datatype Decimal = Decimal(integer: nat, fraction: nat, denominator: nat, sawDecimal: bool)

  function Feed(d: Decimal, c: char): Decimal {
    if !IsDigit(c) then d.(sawDecimal := true)
    else if d.sawDecimal then d.(fraction := d.fraction * 10 + DigitValue(c), denominator := d.denominator * 10)
    else d.(integer := d.integer * 10 + DigitValue(c))
  }

  function DecimalOf(m: string): Decimal {
    if m == "" then Decimal(0, 0, 1, false) else Feed(DecimalOf(m[..|m| - 1]), m[|m| - 1])
  }

  predicate FitsU128(d: Decimal) {
    d.integer <= U128_MAX && d.denominator <= U128_MAX
  }

  function Numerator(d: Decimal): nat {
    d.integer * d.denominator + d.fraction
  }

  lemma {:induction false} DecimalShape(m: string)
    ensures DecimalOf(m).fraction < DecimalOf(m).denominator
    ensures DecimalOf(m).sawDecimal ==> exists i :: 0 <= i < |m| && !IsDigit(m[i])
    ensures Scannable(m) ==> (DecimalOf(m).sawDecimal <==> HasSeparator(m))
    ensures !DecimalOf(m).sawDecimal ==> DecimalOf(m).fraction == 0 && DecimalOf(m).denominator == 1
  {
    if m != "" {
      var front, last := m[..|m| - 1], m[|m| - 1];
      DecimalShape(front);
      assert m == front + [last];
    }
  }

  lemma {:induction false} DecimalGrows(m: string, n: nat)
    requires n <= |m|
    ensures DecimalOf(m[..n]).integer <= DecimalOf(m).integer
    ensures DecimalOf(m[..n]).denominator <= DecimalOf(m).denominator
  {
    if n == |m| {
      assert m[..n] == m;
    } else {
      DecimalGrows(m[..|m| - 1], n);
      assert m[..|m| - 1][..n] == m[..n];
    }
  }

  lemma ScannablePrefix(m: string, n: nat)
    requires n <= |m| && Scannable(m)
    ensures Scannable(m[..n])
    ensures n < |m| ==> Continues(m[..n], m[n])
  {
    assert forall i :: 0 <= i < n ==> m[..n][i] == m[i];
    if n < |m| {
      assert m[..|m|] == m;
      ScanEndOrder(m, n, |m|);
    }
  }

  /** One turn of the reader's loop, with every check it makes. */
  method FeedChecked(d: Decimal, c: char) returns (r: Result<Decimal, SizeArgError>)
    requires FitsU128(d) && d.fraction < d.denominator
    ensures r == if IsDigit(c) || (IsSeparator(c) && !d.sawDecimal)
                 then if FitsU128(Feed(d, c)) then Ok(Feed(d, c)) else Err(TooLarge)
                 else Err(Invalid)
  {
    if IsDigit(c) {
      var digit := DigitValue(c);
      if d.sawDecimal {
        if d.denominator * 10 > U128_MAX { return Err(TooLarge); }
        if d.fraction * 10 + digit > U128_MAX { return Err(TooLarge); }
        return Ok(d.(denominator := d.denominator * 10, fraction := d.fraction * 10 + digit));
      } else {
        if d.integer * 10 + digit > U128_MAX { return Err(TooLarge); }
        return Ok(d.(integer := d.integer * 10 + digit));
      }
    } else if IsSeparator(c) {
      if d.sawDecimal { return Err(Invalid); }
      return Ok(d.(sawDecimal := true));
    } else {
      return Err(Invalid);
    }
  }

  lemma ScannableExtend(text: string, i: nat)
    requires i < |text| && Scannable(text[..i])
    ensures Scannable(text[..i + 1]) <==> Continues(text[..i], text[i])
    ensures Scannable(text) ==> Scannable(text[..i + 1])
    ensures DecimalOf(text[..i + 1]) == Feed(DecimalOf(text[..i]), text[i])
  {
    var next := text[..i + 1];
    assert next[..i] == text[..i] && next[i] == text[i];
    if Scannable(text) { ScannablePrefix(text, i + 1); }
    if Scannable(next) { ScannablePrefix(next, i); }
    if Continues(text[..i], text[i]) {
      assert forall k :: 0 <= k < i ==> next[k] == text[..i][k];
    }
  }

  /** On anything the scan hands over, the reader answers exactly, or reports overflow; never a syntax error. */
  method ParseDecimal(text: string) returns (r: Result<Decimal, SizeArgError>)
    ensures Scannable(text) ==> r == if FitsU128(DecimalOf(text)) then Ok(DecimalOf(text)) else Err(TooLarge)
    ensures !Scannable(text) ==> r.Err?
  {
    var d := Decimal(0, 0, 1, false);
    for i := 0 to |text|
      invariant Scannable(text[..i])
      invariant d == DecimalOf(text[..i]) && FitsU128(d)
    {
      DecimalShape(text[..i]);
      ScannableExtend(text, i);
      DecimalGrows(text, i + 1);
      var fed := FeedChecked(d, text[i]);
      if fed.Err? { return Err(fed.error); }
      d := fed.value;
    }
    assert text[..|text|] == text;
    return Ok(d);
  }

  // ------------------------------------------------------------ what a mantissa means

  /** The mantissa's digits read as one integer, the separator skipped. */
  function AllDigits(m: string): nat {
    if m == "" then 0
    else
      var before, last := AllDigits(m[..|m| - 1]), m[|m| - 1];
      if IsDigit(last) then 10 * before + DigitValue(last) else before
  }

  /** How many digits follow the separator: the mantissa is `AllDigits / 10^FractionDigits`. */
  function FractionDigits(m: string): nat {
    if m == "" || !HasSeparator(m[..|m| - 1]) then 0
    else 1 + FractionDigits(m[..|m| - 1])
  }

  lemma FeedNumerator(d: Decimal, c: char)
    requires d.sawDecimal || (d.denominator == 1 && d.fraction == 0)
    ensures Numerator(Feed(d, c)) == if IsDigit(c) then 10 * Numerator(d) + DigitValue(c) else Numerator(d)
  {
    if d.sawDecimal {
      assert d.integer * (d.denominator * 10) == 10 * (d.integer * d.denominator);
    }
  }

  lemma {:induction false} NumeratorExact(m: string)
    ensures Numerator(DecimalOf(m)) == AllDigits(m)
  {
    if m != "" {
      var front := m[..|m| - 1];
      NumeratorExact(front);
      DecimalShape(front);
      FeedNumerator(DecimalOf(front), m[|m| - 1]);
    }
  }

  lemma {:induction false} DenominatorExact(m: string)
    requires Scannable(m)
    ensures DecimalOf(m).denominator == Pow(10, FractionDigits(m))
  {
    if m != "" {
      var front := m[..|m| - 1];
      ScannablePrefix(m, |m| - 1);
      DenominatorExact(front);
      DecimalShape(front);
    }
  }

  /** The accumulators hold the mantissa exactly. */
  lemma MantissaExact(m: string)
    requires Scannable(m)
    ensures Numerator(DecimalOf(m)) == AllDigits(m)
    ensures DecimalOf(m).denominator == Pow(10, FractionDigits(m))
  {
    NumeratorExact(m);
    DenominatorExact(m);
  }

  // ------------------------------------------------------------ the grammar

  datatype Syntax = Syntax(mantissa: string, suffix: Option<char>, tail: string, adjust: string)

  /** The power of the base that a unit letter stands for. */
  function Reps(c: char): Option<nat> {
    if c == 'b' || c == 'B' then Some(0)
    else if c == 'k' || c == 'K' then Some(1)
    else if c == 'm' || c == 'M' then Some(2)
    else if c == 'g' || c == 'G' then Some(3)
    else if c == 't' || c == 'T' then Some(4)
    else if c == 'p' || c == 'P' then Some(5)
    else None
  }

  predicate IsB(c: char) { c == 'b' || c == 'B' }

  predicate IsI(c: char) { c == 'i' || c == 'I' }

  predicate IsSign(c: char) { c == '+' || c == '-' }

  predicate IsTail(t: string) {
    t == "" || (|t| == 1 && IsB(t[0])) || (|t| == 2 && IsI(t[0]) && IsB(t[1]))
  }

  predicate IsAdjust(a: string) {
    a == "" || a == "+1" || a == "-1"
  }

  function Listed(c: Option<char>): string {
    if c.Some? then [c.value] else ""
  }

  function Text(s: Syntax): string {
    s.mantissa + (Listed(s.suffix) + (s.tail + s.adjust))
  }

  function Letter(suffix: Option<char>, defSuf: char): char {
    if suffix.Some? then suffix.value else defSuf
  }

  ghost predicate WellFormed(s: Syntax, defSuf: char) {
    && IsMantissa(s.mantissa) && IsTail(s.tail) && IsAdjust(s.adjust)
    && (s.suffix.None? ==> s.tail == "")
    && Reps(Letter(s.suffix, defSuf)).Some?
  }

  ghost predicate Grammatical(text: string, defSuf: char) {
    exists s :: WellFormed(s, defSuf) && Text(s) == text
  }

  // ------------------------------------------------------------ reading the grammar back

  ghost function ScanFrom(text: string, n: nat): (end: nat)
    requires n <= |text| && Scannable(text[..n])
    ensures IsScanEnd(text, end)
    decreases |text| - n
  {
    if n < |text| && Continues(text[..n], text[n]) then
      ScannableExtend(text, n);
      ScanFrom(text, n + 1)
    else n
  }

  ghost function ScanEnd(text: string): (end: nat)
    ensures IsScanEnd(text, end)
  {
    ScanFrom(text, 0)
  }

  function SuffixOf(rem: string): Option<char> {
    if rem == "" || IsSign(rem[0]) then None else Some(rem[0])
  }

  function AfterSuffix(rem: string): string {
    if rem == "" || IsSign(rem[0]) then rem else rem[1..]
  }

  /** The `B`/`iB` at the start of what follows the letter, and `None` when something else stands there. */
  function TailOf(rest: string): Option<string> {
    if rest == "" || IsSign(rest[0]) then Some("")
    else if IsB(rest[0]) then Some(rest[..1])
    else if IsI(rest[0]) && |rest| >= 2 && IsB(rest[1]) then Some(rest[..2])
    else None
  }

  /** The parts of a remainder, as the source peels them off from the left. */
  function Shape(mantissa: string, rem: string, defSuf: char): Option<Syntax> {
    var suffix, rest := SuffixOf(rem), AfterSuffix(rem);
    var tail := TailOf(rest);
    if Reps(Letter(suffix, defSuf)).None? || tail.None? then None
    else
      TailIsPrefix(rest);
      var adjust := rest[|tail.value|..];
      if IsAdjust(adjust) then Some(Syntax(mantissa, suffix, tail.value, adjust)) else None
  }

  lemma TailIsPrefix(rest: string)
    ensures TailOf(rest).Some? ==> |TailOf(rest).value| <= |rest| && rest[..|TailOf(rest).value|] == TailOf(rest).value
    ensures TailOf(rest).Some? ==> IsTail(TailOf(rest).value)
  {
  }

  /** What is read was there. */
  lemma ShapeSound(mantissa: string, rem: string, defSuf: char)
    requires IsMantissa(mantissa) && Shape(mantissa, rem, defSuf).Some?
    ensures
      var s := Shape(mantissa, rem, defSuf).value;
      WellFormed(s, defSuf) && Text(s) == mantissa + rem
  {
    var s := Shape(mantissa, rem, defSuf).value;
    var rest := AfterSuffix(rem);
    TailIsPrefix(rest);
    assert s.tail + s.adjust == rest;
    assert Listed(s.suffix) + rest == rem;
  }

  lemma TailRecovered(tail: string, adjust: string)
    requires IsTail(tail) && IsAdjust(adjust)
    ensures TailOf(tail + adjust) == Some(tail)
    ensures (tail + adjust)[|tail|..] == adjust
  {
    var rest := tail + adjust;
    if |tail| == 1 {
      assert rest[0] == tail[0] && rest[..1] == tail;
    } else if |tail| == 2 {
      assert rest[0] == tail[0] && rest[1] == tail[1] && rest[..2] == tail;
    } else {
      assert rest == adjust;
    }
  }

  lemma ShapeOfParts(s: Syntax, defSuf: char)
    requires WellFormed(s, defSuf)
    ensures Shape(s.mantissa, Listed(s.suffix) + (s.tail + s.adjust), defSuf) == Some(s)
  {
    var rest := s.tail + s.adjust;
    TailRecovered(s.tail, s.adjust);
    assert s.suffix.None? ==> rest == s.adjust;
    SuffixRecovered(s.suffix, rest);
  }

  lemma SuffixRecovered(suffix: Option<char>, rest: string)
    requires suffix.Some? ==> !IsSign(suffix.value)
    requires suffix.None? ==> rest == "" || IsSign(rest[0])
    ensures SuffixOf(Listed(suffix) + rest) == suffix && AfterSuffix(Listed(suffix) + rest) == rest
  {
    var rem := Listed(suffix) + rest;
    if suffix.Some? {
      assert rem[0] == suffix.value && rem[1..] == rest;
    } else {
      assert rem == rest;
    }
  }

  lemma ScanStopsAt(m: string, rem: string)
    requires Scannable(m) && (rem != "" ==> !IsDigit(rem[0]) && !IsSeparator(rem[0]))
    ensures ScanEnd(m + rem) == |m|
  {
    var text := m + rem;
    assert text[..|m|] == m;
    ScanEndUnique(text, ScanEnd(text), |m|);
  }

  /** What is there is read, and in only one way. */
  lemma ShapeComplete(s: Syntax, defSuf: char)
    requires WellFormed(s, defSuf)
    ensures
      var text := Text(s);
      && text[..ScanEnd(text)] == s.mantissa
      && Shape(s.mantissa, text[ScanEnd(text)..], defSuf) == Some(s)
  {
    var rem := Listed(s.suffix) + (s.tail + s.adjust);
    assert rem != "" ==> !IsDigit(rem[0]) && !IsSeparator(rem[0]);
    ScanStopsAt(s.mantissa, rem);
    ShapeOfParts(s, defSuf);
    assert Text(s)[..|s.mantissa|] == s.mantissa && Text(s)[|s.mantissa|..] == rem;
  }

  /** The parse tree of a text, if it has one. */
  ghost function ParseTree(text: string, defSuf: char): Option<Syntax> {
    var n := ScanEnd(text);
    if HasDigit(text[..n]) then Shape(text[..n], text[n..], defSuf) else None
  }

  /** The grammar is unambiguous, and `ParseTree` decides it. */
  lemma ParseTreeExact(text: string, defSuf: char, s: Syntax)
    ensures ParseTree(text, defSuf) == Some(s) <==> WellFormed(s, defSuf) && Text(s) == text
  {
    var n := ScanEnd(text);
    if ParseTree(text, defSuf) == Some(s) {
      ShapeSound(text[..n], text[n..], defSuf);
      assert text[..n] + text[n..] == text;
    }
    if WellFormed(s, defSuf) && Text(s) == text {
      ShapeComplete(s, defSuf);
    }
  }

  lemma GrammaticalIff(text: string, defSuf: char)
    ensures Grammatical(text, defSuf) <==> ParseTree(text, defSuf).Some?
  {
    if ParseTree(text, defSuf).Some? {
      ParseTreeExact(text, defSuf, ParseTree(text, defSuf).value);
    }
    if s :| WellFormed(s, defSuf) && Text(s) == text {
      ParseTreeExact(text, defSuf, s);
    }
  }

  // ------------------------------------------------------------ evaluation

  function Base(tail: string): nat {
    if |tail| == 1 then 1000 else 1024
  }

  function Unit(letter: char, tail: string): nat {
    if |tail| == 1 then 1000 else if IsB(letter) then 1 else 1024
  }

  function Scale(s: Syntax, defSuf: char): nat
    requires Reps(Letter(s.suffix, defSuf)).Some?
  {
    Pow(Base(s.tail), Reps(Letter(s.suffix, defSuf)).value)
  }

  lemma ScaleBounds(s: Syntax, defSuf: char)
    requires Reps(Letter(s.suffix, defSuf)).Some?
    ensures 1 <= Scale(s, defSuf) <= 0x4_0000_0000_0000
  {
    var reps := Reps(Letter(s.suffix, defSuf)).value;
    SmallPowers(1000);
    SmallPowers(1024);
    PowPositive(Base(s.tail), reps);
    PowMonotone(Base(s.tail), reps, 5);
  }

  lemma SmallPowers(base: nat)
    ensures Pow(base, 5) == base * (base * (base * (base * base)))
  {
    assert Pow(base, 1) == base;
    assert Pow(base, 2) == base * base;
    assert Pow(base, 3) == base * (base * base);
    assert Pow(base, 4) == base * (base * (base * base));
  }

  function FloorDiv(x: nat, d: nat): (q: nat)
    requires 0 < d
    ensures q * d <= x < q * d + d
  {
    x / d
  }

  /** The ways `numerator / denominator * scale` plus the adjustment can be out of range. */
  ghost predicate OutOfRange(numerator: nat, denominator: nat, scale: nat, adjust: string)
    requires 0 < denominator
  {
    || denominator > U128_MAX
    || numerator * scale > U128_MAX
    || (adjust == "+1" && FloorDiv(numerator * scale, denominator) == U128_MAX)
    || (adjust == "-1" && FloorDiv(numerator * scale, denominator) == 0)
  }

  function Delta(adjust: string): int {
    if adjust == "+1" then 1 else if adjust == "-1" then -1 else 0
  }

  lemma OverflowPropagates(d: Decimal, scale: nat)
    requires 1 <= d.denominator && 1 <= scale
    ensures d.integer <= Numerator(d) <= Numerator(d) * scale
  {
    AtLeast(d.integer, d.denominator);
    AtLeast(Numerator(d), scale);
  }

  lemma FloorAtMost(x: nat, d: nat)
    requires 0 < d
    ensures FloorDiv(x, d) <= x
  {
    var q := FloorDiv(x, d);
    AtLeast(q, d);
  }

  /** The exact value: the floor of numerator times scale over the denominator, adjusted, where that is in range. */
  ghost function Evaluated(d: Decimal, scale: nat, adjust: string): Result<nat, SizeArgError>
    requires 0 < d.denominator
  {
    if OutOfRange(Numerator(d), d.denominator, scale, adjust) then Err(TooLarge)
    else Ok(FloorDiv(Numerator(d) * scale, d.denominator) + Delta(adjust))
  }

  /** The source's chain of checked steps fails exactly when the exact value is out of range. */
  method Evaluate(d: Decimal, scale: nat, adjust: string) returns (r: Result<nat, SizeArgError>)
    requires 0 < d.denominator && FitsU128(d) && 0 < scale && IsAdjust(adjust)
    ensures r == Evaluated(d, scale, adjust)
  {
    OverflowPropagates(d, scale);
    FloorAtMost(Numerator(d) * scale, d.denominator);
    var numerator := d.integer * d.denominator + d.fraction;
    if numerator > U128_MAX { return Err(TooLarge); }
    var product := numerator * scale;
    if product > U128_MAX { return Err(TooLarge); }
    var value := FloorDiv(product, d.denominator);
    if adjust == "+1" {
      if value + 1 > U128_MAX { return Err(TooLarge); }
      return Ok(value + 1);
    } else if adjust == "-1" {
      if value < 1 { return Err(TooLarge); }
      return Ok(value - 1);
    } else {
      return Ok(value);
    }
  }

  ghost function Answer(d: Decimal, s: Syntax, defSuf: char): Result<ParsedSize, SizeArgError>
    requires 0 < d.denominator && Reps(Letter(s.suffix, defSuf)).Some?
  {
    match Evaluated(d, Scale(s, defSuf), s.adjust)
    case Err(e) => Err(e)
    case Ok(bytes) => Ok(ParsedSize(bytes, Unit(Letter(s.suffix, defSuf), s.tail)))
  }

  ghost function Meaning(text: string, defSuf: char): Result<ParsedSize, SizeArgError> {
    var n := ScanEnd(text);
    var m := text[..n];
    var d := DecimalOf(m);
    DecimalShape(m);
    if !HasDigit(m) then Err(Invalid)
    else if !FitsU128(d) then Err(TooLarge)
    else match Shape(m, text[n..], defSuf)
      case None => Err(Invalid)
      case Some(s) => Answer(d, s, defSuf)
  }

  /** Everything after the mantissa, in the order the source looks at it. */
  method ParseRemainder(mantissa: string, remainder: string, defSuf: char)
      returns (ok: bool, reps: nat, base: nat, unit: nat, adjust: string)
    ensures ok <==> Shape(mantissa, remainder, defSuf).Some?
    ensures ok ==>
      var s := Shape(mantissa, remainder, defSuf).value;
      && Some(reps) == Reps(Letter(s.suffix, defSuf)) && base == Base(s.tail)
      && unit == Unit(Letter(s.suffix, defSuf), s.tail) && adjust == s.adjust
  {
    ok, reps, base, unit, adjust := false, 0, 1024, 0, "";
    var suffix, rest := defSuf, remainder;
    if !(remainder == "" || IsSign(remainder[0])) {
      suffix, rest := remainder[0], remainder[1..];
    }
    var r := Reps(suffix);
    if r.None? { return; }
    reps := r.value;
    unit := if IsB(suffix) then 1 else 1024;
    if rest != "" {
      if IsB(rest[0]) {
        base, unit, rest := 1000, 1000, rest[1..];
      } else if IsI(rest[0]) {
        if |rest| < 2 || !IsB(rest[1]) { return; }
        rest := rest[2..];
      } else if !IsSign(rest[0]) {
        return;
      }
    }
    adjust := rest;
    ok := rest == "" || rest == "+1" || rest == "-1";
  }

  method ParseSizeArg(text: string, defSuf: char) returns (r: Result<ParsedSize, SizeArgError>)
    ensures r == Meaning(text, defSuf)
  {
    var numericEnd, digitsSeen := Scan(text);
    ScanEndUnique(text, numericEnd, ScanEnd(text));
    var numericPart, remainder := text[..numericEnd], text[numericEnd..];
    if !digitsSeen { return Err(Invalid); }
    var decimal := ParseDecimal(numericPart);
    if decimal.Err? { return Err(decimal.error); }
    var d := decimal.value;
    var ok, reps, base, unit, adjust := ParseRemainder(numericPart, remainder, defSuf);
    if !ok { return Err(Invalid); }
    ScaleBounds(Shape(numericPart, remainder, defSuf).value, defSuf);
    var scale := PowU128(base, reps);
    if scale.Err? { return Err(TooLarge); }
    DecimalShape(numericPart);
    var bytes := Evaluate(d, scale.value, adjust);
    if bytes.Err? { return Err(bytes.error); }
    return Ok(ParsedSize(bytes.value, unit));
  }

  // ------------------------------------------------------------ what the answer means

  function TenPower(m: string): (p: nat)
    ensures 0 < p
  {
    PowPositive(10, FractionDigits(m));
    Pow(10, FractionDigits(m))
  }

  /** The exact value before the adjustment: the floor of mantissa times scale. */
  function ExactFloor(s: Syntax, defSuf: char): nat
    requires Reps(Letter(s.suffix, defSuf)).Some?
  {
    FloorDiv(AllDigits(s.mantissa) * Scale(s, defSuf), TenPower(s.mantissa))
  }

  /** The only ways a grammatical text is too large. */
  ghost predicate TooBig(s: Syntax, defSuf: char)
    requires Reps(Letter(s.suffix, defSuf)).Some?
  {
    OutOfRange(AllDigits(s.mantissa), TenPower(s.mantissa), Scale(s, defSuf), s.adjust)
  }

  /** An overflow in the accumulators is an overflow of the exact value. */
  lemma OverflowIsOutOfRange(d: Decimal, scale: nat, adjust: string)
    requires 0 < d.denominator && 0 < scale && !FitsU128(d)
    ensures Evaluated(d, scale, adjust) == Err(TooLarge)
  {
    OverflowPropagates(d, scale);
  }

  ghost function ExactAnswer(s: Syntax, defSuf: char): Result<ParsedSize, SizeArgError>
    requires Reps(Letter(s.suffix, defSuf)).Some? && !TooBig(s, defSuf)
  {
    Ok(ParsedSize(ExactFloor(s, defSuf) + Delta(s.adjust), Unit(Letter(s.suffix, defSuf), s.tail)))
  }

  lemma AnswerExact(d: Decimal, s: Syntax, defSuf: char)
    requires WellFormed(s, defSuf)
    requires Numerator(d) == AllDigits(s.mantissa) && d.denominator == TenPower(s.mantissa)
    ensures (if FitsU128(d) then Answer(d, s, defSuf) else Err(TooLarge))
         == (if TooBig(s, defSuf) then Err(TooLarge) else ExactAnswer(s, defSuf))
  {
    ScaleBounds(s, defSuf);
    if !FitsU128(d) { OverflowIsOutOfRange(d, Scale(s, defSuf), s.adjust); }
  }

  lemma MeaningOfTree(text: string, defSuf: char, s: Syntax)
    requires ParseTree(text, defSuf) == Some(s)
    ensures WellFormed(s, defSuf) && 0 < DecimalOf(s.mantissa).denominator
    ensures Meaning(text, defSuf) ==
      if FitsU128(DecimalOf(s.mantissa)) then Answer(DecimalOf(s.mantissa), s, defSuf) else Err(TooLarge)
  {
    ParseTreeExact(text, defSuf, s);
    DecimalShape(s.mantissa);
    assert s.mantissa == text[..ScanEnd(text)];
  }

  /** A grammatical text is never rejected as malformed, and is answered exactly unless it is too big. */
  lemma GrammaticalMeaning(text: string, defSuf: char, s: Syntax)
    requires ParseTree(text, defSuf) == Some(s)
    ensures WellFormed(s, defSuf)
    ensures Meaning(text, defSuf) == if TooBig(s, defSuf) then Err(TooLarge) else ExactAnswer(s, defSuf)
  {
    MeaningOfTree(text, defSuf, s);
    MantissaExact(s.mantissa);
    AnswerExact(DecimalOf(s.mantissa), s, defSuf);
  }

  /** The answer is the floor of the rational number the text spells, plus the adjustment. */
  lemma AnswerIsFloor(text: string, defSuf: char, s: Syntax)
    requires ParseTree(text, defSuf) == Some(s) && Meaning(text, defSuf).Ok?
    ensures WellFormed(s, defSuf)
    ensures
      var floor := Meaning(text, defSuf).value.bytes - Delta(s.adjust);
      var ten := Pow(10, FractionDigits(s.mantissa));
      floor * ten <= AllDigits(s.mantissa) * Scale(s, defSuf) < floor * ten + ten
  {
    GrammaticalMeaning(text, defSuf, s);
  }

  /** The numeric prefix alone exceeds 128 bits, in front of or behind the separator. */
  ghost predicate PrefixOverflows(text: string) {
    var m := text[..ScanEnd(text)];
    HasDigit(m) && !FitsU128(DecimalOf(m))
  }

  /**
   `Invalid` means malformed; the converse fails only for a malformed text whose
   numeric prefix already overflows, which is reported as `TooLarge`.
   */
  lemma VerdictExact(text: string, defSuf: char)
    ensures Meaning(text, defSuf).Ok? ==> Grammatical(text, defSuf)
    ensures Meaning(text, defSuf) == Err(Invalid) <==> !Grammatical(text, defSuf) && !PrefixOverflows(text)
  {
    GrammaticalIff(text, defSuf);
    if ParseTree(text, defSuf).Some? {
      GrammaticalMeaning(text, defSuf, ParseTree(text, defSuf).value);
    }
  }

  function DigitCount(m: string): nat {
    if m == "" then 0 else DigitCount(m[..|m| - 1]) + if IsDigit(m[|m| - 1]) then 1 else 0
  }

  lemma {:induction false} DigitsBound(m: string)
    requires Scannable(m)
    ensures AllDigits(m) < Pow(10, DigitCount(m)) && FractionDigits(m) <= DigitCount(m)
  {
    if m != "" {
      ScannablePrefix(m, |m| - 1);
      DigitsBound(m[..|m| - 1]);
    }
  }

  lemma TenTo23()
    ensures Pow(10, 23) == 100_000_000_000_000_000_000_000
  {
    assert Pow(10, 1) == 10;
    PowAdd(10, 1, 1);
    PowAdd(10, 2, 1);
    PowAdd(10, 3, 2);
    PowAdd(10, 5, 5);
    PowAdd(10, 10, 10);
    PowAdd(10, 20, 3);
  }

  lemma Products(a: nat, b: nat, x: nat, y: nat)
    requires a <= x && b <= y
    ensures a * b <= x * y
  {
    assert a * b <= x * b;
    assert x * b <= x * y;
  }

  lemma SmallInRange(numerator: nat, denominator: nat, scale: nat, adjust: string)
    requires numerator < Pow(10, 23) && 0 < denominator <= Pow(10, 23) && scale <= 0x4_0000_0000_0000
    ensures OutOfRange(numerator, denominator, scale, adjust)
       <==> adjust == "-1" && FloorDiv(numerator * scale, denominator) == 0
  {
    TenTo23();
    Products(numerator, scale, Pow(10, 23), 0x4_0000_0000_0000);
    FloorAtMost(numerator * scale, denominator);
  }

  /** With at most 23 mantissa digits, the only value too large is the one below zero. */
  lemma ShortMantissaFits(text: string, defSuf: char, s: Syntax)
    requires ParseTree(text, defSuf) == Some(s) && DigitCount(s.mantissa) <= 23
    ensures WellFormed(s, defSuf)
    ensures Meaning(text, defSuf).Err? <==> s.adjust == "-1" && ExactFloor(s, defSuf) == 0
  {
    ParseTreeExact(text, defSuf, s);
    DigitsBound(s.mantissa);
    PowMonotone(10, DigitCount(s.mantissa), 23);
    PowMonotone(10, FractionDigits(s.mantissa), 23);
    ScaleBounds(s, defSuf);
    SmallInRange(AllDigits(s.mantissa), TenPower(s.mantissa), Scale(s, defSuf), s.adjust);
    GrammaticalMeaning(text, defSuf, s);
  }

  function Nines(n: nat): (m: string)
    ensures |m| == n && forall i :: 0 <= i < n ==> m[i] == '9'
  {
    if n == 0 then "" else Nines(n - 1) + "9"
  }

  lemma {:induction false} NinesValue(n: nat)
    ensures DecimalOf(Nines(n)).integer + 1 == Pow(10, n) && !DecimalOf(Nines(n)).sawDecimal
  {
    if n != 0 {
      NinesValue(n - 1);
      assert Nines(n)[..n - 1] == Nines(n - 1);
    }
  }

  lemma TenTo40()
    ensures Pow(10, 40) > U128_MAX + 1
  {
    TenTo23();
    PowAdd(10, 23, 17);
    assert Pow(10, 2) == 100;
    PowAdd(10, 2, 2);
    PowAdd(10, 4, 4);
    PowAdd(10, 8, 8);
    assert Pow(10, 17) == 10 * Pow(10, 16);
  }

  /** A mantissa that overflows decides the verdict before the rest of the text is looked at. */
  lemma OverflowComesFirst(m: string, rem: string, defSuf: char)
    requires IsMantissa(m) && !FitsU128(DecimalOf(m))
    requires rem != "" ==> !IsDigit(rem[0]) && !IsSeparator(rem[0])
    ensures Meaning(m + rem, defSuf) == Err(TooLarge)
  {
    ScanStopsAt(m, rem);
    assert (m + rem)[..|m|] == m;
  }

  lemma UnknownLetter(m: string, c: char, defSuf: char)
    requires IsMantissa(m) && Reps(c).None? && !IsSign(c) && !IsDigit(c) && !IsSeparator(c)
    ensures !Grammatical(m + [c], defSuf)
  {
    ScanStopsAt(m, [c]);
    assert (m + [c])[..|m|] == m && (m + [c])[|m|..] == [c];
    GrammaticalIff(m + [c], defSuf);
  }

  /** Forty nines and an unknown letter: malformed, yet reported as too large. */
  lemma MalformedButTooLarge(defSuf: char)
    ensures !Grammatical(Nines(40) + ['X'], defSuf)
    ensures Meaning(Nines(40) + ['X'], defSuf) == Err(TooLarge)
  {
    NinesValue(40);
    TenTo40();
    assert IsDigit(Nines(40)[0]);
    OverflowComesFirst(Nines(40), ['X'], defSuf);
    UnknownLetter(Nines(40), 'X', defSuf);
  }
}
