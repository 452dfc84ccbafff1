/**
 Size arguments, text by text: the grammar and the value of every text in literal
 characters and numbers. Nothing here is used by the parser; `SizeAnswer` and
 `InvalidIff` say that together they are what the parser does.
 */
module SizeTexts {
  import opened Prelude
  import opened Powers
  import opened SizeArg

  const LARGEST := 340282366920938463463374607431768211455  // 2^128 - 1

  predicate DigitChar(c: char) {
    '0' <= c <= '9'
  }

  predicate PointChar(c: char) {
    c == '.' || c == ','
  }

  /** Digits with at most one point or comma. */
  ghost predicate Numeric(m: string) {
    && (forall i :: 0 <= i < |m| ==> DigitChar(m[i]) || PointChar(m[i]))
    && (forall i, j :: 0 <= i < j < |m| ==> !PointChar(m[i]) || !PointChar(m[j]))
  }

  predicate SomeDigit(m: string) {
    exists i :: 0 <= i < |m| && DigitChar(m[i])
  }

  predicate SomePoint(m: string) {
    exists i :: 0 <= i < |m| && PointChar(m[i])
  }

  /** The digits read as one decimal number, the point skipped. */
  function Value(m: string): nat {
    if m == "" then 0
    else
      var c := m[|m| - 1];
      if '0' <= c <= '9' then 10 * Value(m[..|m| - 1]) + (c as int - 48) else Value(m[..|m| - 1])
  }

  /** The digits after the point. */
  function Places(m: string): nat {
    if m == "" || PointChar(m[|m| - 1]) || !SomePoint(m) then 0 else Places(m[..|m| - 1]) + 1
  }

  function TenTo(k: nat): (p: nat)
    ensures 0 < p
  {
    if k == 0 then 1 else 10 * TenTo(k - 1)
  }

  /** What a unit letter multiplies by: powers of 1024, or of 1000 when a `B` follows. */
  function Multiplier(letter: char, thousands: bool): Option<nat> {
    if letter == 'b' || letter == 'B' then Some(1)
    else if letter == 'k' || letter == 'K' then Some(if thousands then 1000 else 1024)
    else if letter == 'm' || letter == 'M' then Some(if thousands then 1000000 else 1048576)
    else if letter == 'g' || letter == 'G' then Some(if thousands then 1000000000 else 1073741824)
    else if letter == 't' || letter == 'T' then Some(if thousands then 1000000000000 else 1099511627776)
    else if letter == 'p' || letter == 'P' then Some(if thousands then 1000000000000000 else 1125899906842624)
    else None
  }

  predicate Thousands(tail: string) {
    tail == "b" || tail == "B"
  }

  predicate Binary(tail: string) {
    tail == "ib" || tail == "iB" || tail == "Ib" || tail == "IB"
  }

  function UnitOf(letter: char, tail: string): nat {
    if Thousands(tail) then 1000 else if letter == 'b' || letter == 'B' then 1 else 1024
  }

  /** `text` is a mantissa, perhaps a letter with perhaps `B` or `iB`, and perhaps `+1` or `-1`. */
  ghost predicate Spells(text: string, s: Syntax, defSuf: char) {
    && Numeric(s.mantissa) && SomeDigit(s.mantissa)
    && (s.tail == "" || Thousands(s.tail) || Binary(s.tail))
    && (s.adjust == "" || s.adjust == "+1" || s.adjust == "-1")
    && Multiplier(if s.suffix.Some? then s.suffix.value else defSuf, false).Some?
    && match s.suffix
       case Some(letter) => text == s.mantissa + ([letter] + (s.tail + s.adjust))
       case None => s.tail == "" && text == s.mantissa + s.adjust
  }

  // ------------------------------------------------------------ the parser's own notions

  lemma NumericIff(m: string)
    ensures Numeric(m) <==> Scannable(m)
    ensures SomeDigit(m) <==> HasDigit(m)
    ensures SomePoint(m) <==> HasSeparator(m)
  {
    assert forall c: char :: DigitChar(c) == IsDigit(c);
    assert forall c: char :: PointChar(c) == IsSeparator(c);
  }

  lemma {:induction false} ValueIs(m: string)
    ensures AllDigits(m) == Value(m)
  {
    if m != "" { ValueIs(m[..|m| - 1]); }
  }

  lemma {:induction false} PlacesIs(m: string)
    requires Numeric(m)
    ensures FractionDigits(m) == Places(m)
  {
    if m != "" {
      var front, last := m[..|m| - 1], m[|m| - 1];
      PlacesIs(front);
      NumericIff(front);
      NumericIff(m);
      LastPoint(m);
    }
  }

  lemma LastPoint(m: string)
    requires Numeric(m) && m != ""
    ensures SomePoint(m) <==> SomePoint(m[..|m| - 1]) || PointChar(m[|m| - 1])
    ensures PointChar(m[|m| - 1]) ==> !SomePoint(m[..|m| - 1])
  {
    var front := m[..|m| - 1];
    assert forall i :: 0 <= i < |front| ==> front[i] == m[i];
  }

  lemma {:induction false} TenToIs(k: nat)
    ensures Pow(10, k) == TenTo(k)
  {
    if k != 0 { TenToIs(k - 1); }
  }

  lemma PowersOf(base: nat)
    ensures Pow(base, 0) == 1 && Pow(base, 1) == base && Pow(base, 2) == base * base
    ensures Pow(base, 3) == base * Pow(base, 2) && Pow(base, 4) == base * Pow(base, 3)
    ensures Pow(base, 5) == base * Pow(base, 4)
  {
  }

  lemma LetterTable(letter: char, tail: string)
    requires IsTail(tail)
    ensures Reps(letter).Some? <==> Multiplier(letter, |tail| == 1).Some?
    ensures Reps(letter).Some? ==> Pow(Base(tail), Reps(letter).value) == Multiplier(letter, |tail| == 1).value
    ensures Multiplier(letter, true).Some? <==> Multiplier(letter, false).Some?
  {
    PowersOf(1000);
    PowersOf(1024);
  }

  lemma TailIff(t: string)
    ensures IsTail(t) <==> t == "" || Thousands(t) || Binary(t)
    ensures IsTail(t) ==> (|t| == 1 <==> Thousands(t))
  {
    if |t| == 1 { assert t == [t[0]]; }
    if |t| == 2 { assert t == [t[0], t[1]]; }
  }

  /** The two grammars are one. */
  lemma SpellsIff(text: string, s: Syntax, defSuf: char)
    ensures Spells(text, s, defSuf) <==> WellFormed(s, defSuf) && Text(s) == text
  {
    NumericIff(s.mantissa);
    TailIff(s.tail);
    if IsTail(s.tail) { LetterTable(Letter(s.suffix, defSuf), s.tail); }
    assert "" + (s.tail + s.adjust) == s.tail + s.adjust;
    assert "" + s.adjust == s.adjust;
  }

  // ------------------------------------------------------------ the answer

  /** The floor of `product / ten`, adjusted, if everything fits 128 bits. */
  ghost function Rounded(product: nat, ten: nat, adjust: string, unit: nat): Result<ParsedSize, SizeArgError>
    requires 0 < ten
  {
    var floor := product / ten;
    if product > LARGEST || ten > LARGEST then Err(TooLarge)
    else if adjust == "+1" then if floor == LARGEST then Err(TooLarge) else Ok(ParsedSize(floor + 1, unit))
    else if adjust == "-1" then if floor == 0 then Err(TooLarge) else Ok(ParsedSize(floor - 1, unit))
    else Ok(ParsedSize(floor, unit))
  }

  /** Every text that is spelled is answered with the value of its number times its unit. */
  lemma SizeAnswer(text: string, s: Syntax, defSuf: char)
    requires Spells(text, s, defSuf)
    ensures
      var letter := if s.suffix.Some? then s.suffix.value else defSuf;
      var unit := Multiplier(letter, Thousands(s.tail));
      && unit.Some?
      && Meaning(text, defSuf) ==
        Rounded(Value(s.mantissa) * unit.value, TenTo(Places(s.mantissa)), s.adjust, UnitOf(letter, s.tail))
  {
    SpellsIff(text, s, defSuf);
    ParseTreeExact(text, defSuf, s);
    GrammaticalMeaning(text, defSuf, s);
    SpelledValue(s, defSuf);
    RoundedIs(AllDigits(s.mantissa), TenPower(s.mantissa), Scale(s, defSuf), s, defSuf);
  }

  lemma SpelledValue(s: Syntax, defSuf: char)
    requires WellFormed(s, defSuf)
    ensures
      var letter := if s.suffix.Some? then s.suffix.value else defSuf;
      && Multiplier(letter, Thousands(s.tail)) == Some(Scale(s, defSuf))
      && AllDigits(s.mantissa) == Value(s.mantissa) && TenPower(s.mantissa) == TenTo(Places(s.mantissa))
      && Unit(letter, s.tail) == UnitOf(letter, s.tail)
  {
    TailIff(s.tail);
    LetterTable(Letter(s.suffix, defSuf), s.tail);
    NumericIff(s.mantissa);
    ValueIs(s.mantissa);
    PlacesIs(s.mantissa);
    TenToIs(Places(s.mantissa));
  }

  lemma RoundedIs(numerator: nat, ten: nat, scale: nat, s: Syntax, defSuf: char)
    requires WellFormed(s, defSuf) && numerator == AllDigits(s.mantissa) && ten == TenPower(s.mantissa)
    requires scale == Scale(s, defSuf)
    ensures (if TooBig(s, defSuf) then Err(TooLarge) else ExactAnswer(s, defSuf)) ==
      Rounded(numerator * scale, ten, s.adjust, Unit(Letter(s.suffix, defSuf), s.tail))
  {
  }

  // ------------------------------------------------------------ what is refused

  /** `text[..n]` is the longest numeric prefix. */
  ghost predicate LongestNumeric(text: string, n: nat) {
    n <= |text| && Numeric(text[..n]) && (n < |text| ==> !Numeric(text[..n + 1]))
  }

  lemma LongestIsScanEnd(text: string, n: nat)
    requires LongestNumeric(text, n)
    ensures n == ScanEnd(text)
  {
    NumericIff(text[..n]);
    if n < |text| {
      NumericIff(text[..n + 1]);
      ScannableExtend(text, n);
    }
    ScanEndUnique(text, n, ScanEnd(text));
  }

  /** The number is too large for 128 bits, in front of or behind its point. */
  predicate NumberOverflows(m: string) {
    Value(m) / TenTo(Places(m)) > LARGEST || TenTo(Places(m)) > LARGEST
  }

  lemma QuotientIs(q: nat, d: nat, r: nat)
    requires 0 < d && r < d
    ensures (q * d + r) / d == q
  {
    var x := q * d + r;
    DivModBounds(x, d);
    OnlyQuotient(d, q, r, x / d, x % d);
  }

  lemma DivModBounds(x: nat, d: nat)
    requires 0 < d
    ensures x == x / d * d + x % d && 0 <= x % d < d
  {
  }

  lemma OnlyQuotient(d: nat, q: int, r: int, q': int, r': int)
    requires 0 <= r < d && 0 <= r' < d && q * d + r == q' * d + r'
    ensures q == q'
  {
    assert (q - q') * d == r' - r;
    if q > q' { AtLeastOnce(q - q', d); }
    if q < q' { AtLeastOnce(q' - q, d); }
  }

  lemma AtLeastOnce(k: int, d: nat)
    requires k >= 1
    ensures k * d >= d
  {
  }

  lemma NumberOf(m: string)
    requires Numeric(m)
    ensures Numerator(DecimalOf(m)) == Value(m) && DecimalOf(m).denominator == TenTo(Places(m))
    ensures DecimalOf(m).fraction < DecimalOf(m).denominator
  {
    NumericIff(m);
    MantissaExact(m);
    DecimalShape(m);
    ValueIs(m);
    PlacesIs(m);
    TenToIs(Places(m));
  }

  lemma IntegerPart(d: Decimal)
    requires d.fraction < d.denominator
    ensures Numerator(d) / d.denominator == d.integer
  {
    QuotientIs(d.integer, d.denominator, d.fraction);
  }

  lemma OverflowsIff(m: string)
    requires Numeric(m)
    ensures NumberOverflows(m) <==> !FitsU128(DecimalOf(m))
  {
    NumberOf(m);
    IntegerPart(DecimalOf(m));
  }

  /**
   A text is refused as malformed exactly when no reading spells it and its longest
   numeric prefix is not a number too large to hold; no other text is answered.
   */
  lemma InvalidIff(text: string, defSuf: char, n: nat)
    requires LongestNumeric(text, n)
    ensures Meaning(text, defSuf) == Err(Invalid) <==>
      && (forall s :: !Spells(text, s, defSuf))
      && !(SomeDigit(text[..n]) && NumberOverflows(text[..n]))
    ensures Meaning(text, defSuf).Ok? ==> exists s :: Spells(text, s, defSuf)
  {
    LongestIsScanEnd(text, n);
    VerdictExact(text, defSuf);
    OverflowsIff(text[..n]);
    NumericIff(text[..n]);
    SpelledIff(text, defSuf);
  }

  lemma SpelledIff(text: string, defSuf: char)
    ensures Grammatical(text, defSuf) <==> exists s :: Spells(text, s, defSuf)
  {
    if s :| WellFormed(s, defSuf) && Text(s) == text { SpellsIff(text, s, defSuf); }
    if s :| Spells(text, s, defSuf) { SpellsIff(text, s, defSuf); }
  }

  /** Each unit on its own, for every number: a letter, the letter and `B`, the letter and `iB`, and the default. */
  lemma PlainUnits(m: string, letter: char, defSuf: char)
    requires Numeric(m) && SomeDigit(m) && Multiplier(letter, false).Some?
    ensures
      var ten, binary, decimal := TenTo(Places(m)), Multiplier(letter, false).value, Multiplier(letter, true);
      && decimal.Some?
      && Meaning(m + [letter], defSuf) == Rounded(Value(m) * binary, ten, "", UnitOf(letter, ""))
      && Meaning(m + [letter, 'B'], defSuf) == Rounded(Value(m) * decimal.value, ten, "", 1000)
      && Meaning(m + [letter, 'i', 'B'], defSuf) == Rounded(Value(m) * binary, ten, "", UnitOf(letter, ""))
      && Meaning(m, letter) == Rounded(Value(m) * binary, ten, "", UnitOf(letter, ""))
  {
    assert [letter] + ("" + "") == [letter];
    assert [letter] + ("B" + "") == [letter, 'B'];
    assert [letter] + ("iB" + "") == [letter, 'i', 'B'];
    assert m + "" == m;
    SizeAnswer(m + [letter], Syntax(m, Some(letter), "", ""), defSuf);
    SizeAnswer(m + [letter, 'B'], Syntax(m, Some(letter), "B", ""), defSuf);
    SizeAnswer(m + [letter, 'i', 'B'], Syntax(m, Some(letter), "iB", ""), defSuf);
    SizeAnswer(m, Syntax(m, None, "", ""), letter);
  }
}
