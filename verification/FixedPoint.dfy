/** Fixed-point decimals: two parsers, two printers, and the percent/token conversion. */
module FixedPoint {
  import opened Common
  import opened JsText
  import opened Digits
  import NumericInput

  datatype ParseError = InvalidDecimal | TooManyPlaces

  // ^\d+(\.\d+)?$
  predicate StrictDecimal(s: string) {
    && Before(s, '.') != "" && AllDigits(Before(s, '.'))
    && ('.' in s ==> After(s, '.') != "" && AllDigits(After(s, '.')))
  }

  // parseDecimalToBigInt
  function ParseDecimal(rawValue: string, decimals: nat): Result<nat, ParseError> {
    var raw := Trim(rawValue);
    if raw == "" then Ok(0)
    else if !StrictDecimal(raw) then Err(InvalidDecimal)
    else
      var whole, fraction := Before(raw, '.'), After(raw, '.');
      if |fraction| > decimals then Err(TooManyPlaces)
      else Ok(TextNat(StripLeadingZeros(whole + PadEnd(fraction, decimals))))
  }

  // The fraction digits kept by formatBigIntDecimal.
  function FractionText(fraction: nat, decimals: nat, maxFractionDigits: nat): string {
    StripTrailingZeros(Take(PadStart(NatText(fraction), decimals), maxFractionDigits))
  }

  // The whole part and the fraction of v at d decimal places.
  function WholePart(v: nat, d: nat): (w: nat) {
    DivModSplit(v, Pow10(d));
    v / Pow10(d)
  }

  function FractionPart(v: nat, d: nat): (f: nat) {
    v % Pow10(d)
  }

  function FormatNatural(v: nat, decimals: nat, maxFractionDigits: nat): string {
    var whole, fraction := WholePart(v, decimals), FractionPart(v, decimals);
    if fraction == 0 then NatText(whole)
    else
      var text := FractionText(fraction, decimals, maxFractionDigits);
      if text == "" then NatText(whole) else NatText(whole) + "." + text
  }

  // formatBigIntDecimal
  function FormatDecimal(value: int, decimals: nat, maxFractionDigits: nat): string {
    if value < 0 then "-" + FormatNatural(-value, decimals, maxFractionDigits)
    else FormatNatural(value, decimals, maxFractionDigits)
  }

  // parseSolDecimalToLamports
  function ParseSol(value: string): nat {
    var trimmed := Trim(value);
    if trimmed == "" then 0
    else
      var normalized := Replace(trimmed, ',', '.');
      if Count(normalized, '.') > 1 then 0
      else
        var whole := NumericInput.Lead(Before(normalized, '.'));
        var fraction := After(normalized, '.');
        if !AllDigits(whole) || !AllDigits(fraction) then 0
        else TextNat(whole) * 1_000_000_000 + TextNat(Take(Take(fraction, 9) + Zeros(9), 9))
  }

  // BigInt division and remainder, which truncate toward zero.
  function TruncDiv(a: int, b: nat): int
    requires b > 0
  {
    if a < 0 then -(-a / b) else a / b
  }

  function TruncMod(a: int, b: nat): int
    requires b > 0
  {
    if a < 0 then -(-a % b) else a % b
  }

  // formatLamportsToSolDecimal
  function FormatSol(lamports: int): string {
    var whole, fraction := TruncDiv(lamports, 1_000_000_000), TruncMod(lamports, 1_000_000_000);
    if fraction == 0 then IntText(whole)
    else IntText(whole) + "." + StripTrailingZeros(PadStart(IntText(fraction), 9))
  }

  // --- parsing -----------------------------------------------------------------------------

  // The digits of whole and fraction, the fraction filled up to `decimals` places.
  function Scaled(whole: string, fraction: string, decimals: nat): nat {
    TextNat(whole + PadEnd(fraction, decimals))
  }

  lemma ParseWhole(w: string, decimals: nat)
    requires AllDigits(w) && w != ""
    ensures ParseDecimal(w, decimals) == Ok(Scaled(w, "", decimals))
  {
    TrimKeepsInner(w);
    IndexOfAbsent(w, '.');
    TextNatStripLeading(w + PadEnd("", decimals));
  }

  lemma PointText(w: string, f: string)
    requires AllDigits(w) && w != "" && AllDigits(f)
    ensures Trim(w + "." + f) == w + "." + f
    ensures Before(w + "." + f, '.') == w && After(w + "." + f, '.') == f && '.' in w + "." + f
  {
    TrimKeepsInner(w + "." + f);
    IndexOfAt(w, '.', f);
    assert (w + "." + f)[|w|] == '.';
  }

  lemma ParsePoint(w: string, f: string, decimals: nat)
    requires AllDigits(w) && w != "" && AllDigits(f) && f != ""
    ensures ParseDecimal(w + "." + f, decimals) ==
            if |f| > decimals then Err(TooManyPlaces) else Ok(Scaled(w, f, decimals))
  {
    PointText(w, f);
    TextNatStripLeading(w + PadEnd(f, decimals));
  }

  // What the text says, canonically: no redundant zero at either end.
  function Canonical(w: string, f: string): string {
    StripLeadingZeros(w) + (if StripTrailingZeros(f) == "" then "" else "." + StripTrailingZeros(f))
  }

  // An accepted text is whole digits, or whole and fraction digits around a point.
  lemma ParseInversion(raw: string, decimals: nat) returns (w: string, f: string)
    requires ParseDecimal(raw, decimals).Ok? && Trim(raw) != ""
    ensures AllDigits(w) && w != "" && AllDigits(f) && |f| <= decimals
    ensures Trim(raw) == if f == "" then w else w + "." + f
    ensures ParseDecimal(raw, decimals).value == Scaled(w, f, decimals)
  {
    var t := Trim(raw);
    w, f := Before(t, '.'), After(t, '.');
    SplitAt(t, '.');
    TextNatStripLeading(w + PadEnd(f, decimals));
  }

  // --- printing ------------------------------------------------------------------------------

  lemma ScaledParts(w: string, f: string, decimals: nat)
    requires |f| <= decimals
    ensures WholePart(Scaled(w, f, decimals), decimals) == TextNat(w)
    ensures FractionPart(Scaled(w, f, decimals), decimals) == TextNat(PadEnd(f, decimals))
  {
    var g := PadEnd(f, decimals);
    TextNatConcat(w, g);
    TextNatBound(g);
    DivModUnique(Scaled(w, f, decimals), Pow10(decimals), TextNat(w), TextNat(g));
  }

  // Printing a number with d fraction digits and reading m of them: exact truncation.
  lemma FractionTextValue(fraction: nat, d: nat, m: nat)
    requires 0 < fraction < Pow10(d) && m <= d
    ensures var t := FractionText(fraction, d, m);
            && AllDigits(t) && |t| <= m
            && TextNat(PadEnd(t, d)) == fraction - fraction % Pow10(d - m)
  {
    hide TextNat, NatText, StripTrailingZeros;
    PaddedDigits(fraction, d);
    var digits := PadStart(NatText(fraction), d);
    var cut := digits[..m];
    var t := FractionText(fraction, d, m);
    StripTrailingShape(cut);
    assert PadEnd(t, d) == cut + Zeros(d - m);
    CutDigits(digits, m);
  }

  lemma Recombine(v: nat, d: nat, m: nat)
    requires m <= d
    ensures v == WholePart(v, d) * Pow10(d) + FractionPart(v, d)
    ensures FractionPart(v, d) < Pow10(d)
    ensures v % Pow10(d - m) == FractionPart(v, d) % Pow10(d - m)
  {
    hide Pow10;
    var p, q := Pow10(d - m), Pow10(m);
    Pow10Sum(d - m, m);
    DivModSplit(v, Pow10(d));
    var w, r := WholePart(v, d), FractionPart(v, d);
    DivModSplit(r, p);
    Regroup(w, p, q, r, r / p, r % p);
    DivModUnique(v, p, w * q + r / p, r % p);
  }

  lemma Regroup(w: nat, p: nat, q: nat, r: nat, k: nat, s: nat)
    requires r == k * p + s
    ensures w * (p * q) + r == (w * q + k) * p + s
  {
    assert w * (p * q) == (w * q) * p;
  }

  // The fraction digits printed for v, and the value of the fraction they stand for.
  lemma PrintedFraction(v: nat, d: nat, m: nat) returns (text: string)
    requires m <= d
    ensures AllDigits(text) && |text| <= d
    ensures FormatDecimal(v, d, m) ==
            if text == "" then NatText(WholePart(v, d)) else NatText(WholePart(v, d)) + "." + text
    ensures TextNat(PadEnd(text, d)) == FractionPart(v, d) - v % Pow10(d - m)
  {
    hide TextNat, Pow10, FractionText, NatText;
    Recombine(v, d, m);
    var fraction := FractionPart(v, d);
    if fraction == 0 {
      text := "";
      assert PadEnd("", d) == Zeros(d);
      TextNatZeros(d);
      DivModUnique(0, Pow10(d - m), 0, 0);
    } else {
      text := FractionText(fraction, d, m);
      FractionTextValue(fraction, d, m);
    }
  }

  // Printing with m of d fraction digits, then parsing, drops exactly the remainder
  // modulo 10^(d-m); with all digits kept, the parser inverts the printer.
  lemma ParseOfFormat(v: nat, d: nat, m: nat)
    requires m <= d
    ensures ParseDecimal(FormatDecimal(v, d, m), d) == Ok(v - v % Pow10(d - m))
  {
    hide TextNat, NatText, Pow10, FormatDecimal, ParseDecimal, WholePart, FractionPart;
    var text := PrintedFraction(v, d, m);
    var w := NatText(WholePart(v, d));
    NatTextShape(WholePart(v, d));
    assert Scaled(w, text, d) == v - v % Pow10(d - m) by {
      Recombine(v, d, m);
      TextNatConcat(w, PadEnd(text, d));
    }
    if text == "" {
      ParseWhole(w, d);
    } else {
      ParsePoint(w, text, d);
    }
  }

  // A printed value parses back to itself exactly when it is not negative.
  lemma FormatInverse(v: int, d: nat)
    ensures ParseDecimal(FormatDecimal(v, d, d), d) == Ok(v) <==> v >= 0
  {
    hide ParseDecimal, FormatDecimal;
    if v >= 0 {
      ParseOfFormat(v, d, d);
      assert v % Pow10(d - d) == 0;
    } else {
      NeverNegative(FormatDecimal(v, d, d), d);
    }
  }

  lemma NeverNegative(text: string, d: nat)
    ensures ParseDecimal(text, d).Ok? ==> ParseDecimal(text, d).value >= 0
  {
    hide ParseDecimal;
  }

  lemma AllZerosStrip(d: nat)
    ensures StripTrailingZeros(Zeros(d)) == ""
  {
    StripTrailingOfZeros("", d);
    assert "" + Zeros(d) == Zeros(d);
  }

  // The fraction digits printed for d given digits are those digits, less trailing zeros.
  lemma FractionTextOf(g: string)
    requires AllDigits(g) && TextNat(g) != 0
    ensures FractionText(TextNat(g), |g|, |g|) == StripTrailingZeros(g) != ""
  {
    TextNatBound(g);
    PaddedDigits(TextNat(g), |g|);
    DigitsInjective(PadStart(NatText(TextNat(g)), |g|), g);
    assert Take(g, |g|) == g;
    StripTrailingShape(g);
    if StripTrailingZeros(g) == "" {
      assert g == Zeros(|g|);
      TextNatZeros(|g|);
    }
  }

  // Printing a parsed text yields its canonical spelling, so the parser identifies exactly
  // the texts that differ in redundant zeros.
  lemma FormatOfParse(w: string, f: string, d: nat)
    requires AllDigits(w) && w != "" && AllDigits(f) && |f| <= d
    ensures FormatDecimal(Scaled(w, f, d), d, d) == Canonical(w, f)
  {
    hide TextNat, NatText, Pow10, ParseDecimal, FractionText, WholePart, FractionPart, Scaled, StripTrailingZeros;
    var g := PadEnd(f, d);
    ScaledParts(w, f, d);
    NatTextOfStripped(w);
    assert g == f + Zeros(d - |f|);
    StripTrailingOfZeros(f, d - |f|);
    if TextNat(g) == 0 {
      TextNatZeros(d);
      DigitsInjective(g, Zeros(d));
      AllZerosStrip(d);
    } else {
      FractionTextOf(g);
    }
  }

  // --- percent of supply and token amounts -----------------------------------------------------

  const TOTAL_SUPPLY_TOKENS: nat := 1_000_000_000

  function TokenDecimals(launchpad: string): nat {
    if launchpad == "bagsapp" then 9 else 6
  }

  // Raw token units of a percentage given in hundredths of a basis point, and back.
  function RawTokens(percentRaw: nat, launchpad: string): nat {
    (TOTAL_SUPPLY_TOKENS * Pow10(TokenDecimals(launchpad)) * percentRaw) / 1_000_000
  }

  function ScaledPercent(rawTokens: nat, launchpad: string): nat {
    DivModSplit(rawTokens * 1_000_000, TOTAL_SUPPLY_TOKENS * Pow10(TokenDecimals(launchpad)));
    (rawTokens * 1_000_000) / (TOTAL_SUPPLY_TOKENS * Pow10(TokenDecimals(launchpad)))
  }

  // percentToTokenAmount
  function PercentToTokens(percent: string, launchpad: string): Result<string, ParseError> {
    var decimals := TokenDecimals(launchpad);
    match ParseDecimal(percent, 4)
    case Err(e) => Err(e)
    case Ok(percentRaw) =>
      Ok(FormatDecimal(RawTokens(percentRaw, launchpad), decimals, decimals))
  }

  // tokenAmountToPercent
  function TokensToPercent(tokens: string, launchpad: string): string {
    var decimals := TokenDecimals(launchpad);
    var parsed := ParseDecimal(tokens, decimals);
    if parsed.Err? || parsed.value <= 0 then ""
    else FormatDecimal(ScaledPercent(parsed.value, launchpad), 4, 4)
  }

  lemma TokenScale(launchpad: string)
    ensures Pow10(TokenDecimals(launchpad)) == if launchpad == "bagsapp" then 1_000_000_000 else 1_000_000
    ensures Pow10(3 + TokenDecimals(launchpad)) == 1000 * Pow10(TokenDecimals(launchpad))
    ensures Pow10(9) == 1_000_000_000
  {
    PowersOfTen();
  }

  lemma PercentUnits(p: nat, launchpad: string)
    ensures RawTokens(p, launchpad) == p * Pow10(3 + TokenDecimals(launchpad))
    ensures ScaledPercent(p * Pow10(3 + TokenDecimals(launchpad)), launchpad) == p
  {
    TokenScale(launchpad);
    if launchpad == "bagsapp" {
      assert (1_000_000_000 * 1_000_000_000 * p) / 1_000_000 == p * 1_000_000_000_000;
    } else {
      assert (1_000_000_000 * 1_000_000 * p) / 1_000_000 == p * 1_000_000_000;
    }
  }

  lemma TokenUnits(raw: nat, launchpad: string)
    ensures ScaledPercent(raw, launchpad) == raw / Pow10(3 + TokenDecimals(launchpad))
  {
    TokenScale(launchpad);
    if launchpad == "bagsapp" {
      assert (raw * 1_000_000) / (1_000_000_000 * 1_000_000_000) == raw / 1_000_000_000_000;
    } else {
      assert (raw * 1_000_000) / (1_000_000_000 * 1_000_000) == raw / 1_000_000_000;
    }
  }

  lemma TokensOfPercent(percent: string, launchpad: string)
    requires ParseDecimal(percent, 4).Ok?
    ensures PercentToTokens(percent, launchpad).Ok?
    ensures ParseDecimal(PercentToTokens(percent, launchpad).value, TokenDecimals(launchpad)) ==
            Ok(RawTokens(ParseDecimal(percent, 4).value, launchpad))
  {
    FormatInverse(RawTokens(ParseDecimal(percent, 4).value, launchpad), TokenDecimals(launchpad));
  }

  lemma PercentBack(percent: string, launchpad: string)
    requires ParseDecimal(percent, 4).Ok?
    ensures PercentToTokens(percent, launchpad).Ok?
    ensures TokensToPercent(PercentToTokens(percent, launchpad).value, launchpad) ==
            var p := ParseDecimal(percent, 4).value; if p == 0 then "" else FormatDecimal(p, 4, 4)
  {
    var p := ParseDecimal(percent, 4).value;
    PercentUnits(p, launchpad);
    ProductZero(p, Pow10(3 + TokenDecimals(launchpad)));
    TokensOfPercent(percent, launchpad);
  }

  // A percentage survives the trip through token units exactly when it is not zero; what
  // comes back is its canonical spelling.
  lemma PercentSurvives(percent: string, launchpad: string) returns (w: string, f: string)
    requires ParseDecimal(percent, 4).Ok? && Trim(percent) != ""
    ensures AllDigits(w) && AllDigits(f) && Trim(percent) == if f == "" then w else w + "." + f
    ensures PercentToTokens(percent, launchpad).Ok?
    ensures var back := TokensToPercent(PercentToTokens(percent, launchpad).value, launchpad);
            back == Canonical(w, f) <==> TextNat(w + f) > 0
  {
    hide PercentToTokens, TokensToPercent, ParseDecimal, TextNat, Pow10, FormatDecimal;
    w, f := ParseInversion(percent, 4);
    PercentBack(percent, launchpad);
    FormatOfParse(w, f, 4);
    StripLeadingShape(w);
    var k := 4 - |f|;
    assert w + PadEnd(f, 4) == (w + f) + Zeros(k);
    TextNatZerosAfter(w + f, k);
    ProductZero(TextNat(w + f), Pow10(k));
  }

  lemma ProductZero(a: nat, p: nat)
    requires p > 0
    ensures a * p == 0 <==> a == 0
  {
    if a > 0 {
      assert a * p == p + (a - 1) * p;
    }
  }

  lemma PercentOfTokens(tokens: string, launchpad: string)
    requires ParseDecimal(tokens, TokenDecimals(launchpad)).Ok?
    ensures ParseDecimal(TokensToPercent(tokens, launchpad), 4) ==
            Ok(ScaledPercent(ParseDecimal(tokens, TokenDecimals(launchpad)).value, launchpad))
  {
    var raw := ParseDecimal(tokens, TokenDecimals(launchpad)).value;
    FormatInverse(ScaledPercent(raw, launchpad), 4);
    if raw == 0 {
      PercentUnits(0, launchpad);
    }
  }

  // Token units lose exactly the remainder modulo 10^(3+decimals) on the trip through percent.
  lemma TokensFloor(tokens: string, launchpad: string)
    requires ParseDecimal(tokens, TokenDecimals(launchpad)).Ok?
    ensures var d := TokenDecimals(launchpad);
            var raw := ParseDecimal(tokens, d).value;
            var back := PercentToTokens(TokensToPercent(tokens, launchpad), launchpad);
            back.Ok? && ParseDecimal(back.value, d) == Ok(raw - raw % Pow10(3 + d))
  {
    hide PercentToTokens, TokensToPercent, ParseDecimal, ScaledPercent, RawTokens, Pow10;
    var raw := ParseDecimal(tokens, TokenDecimals(launchpad)).value;
    PercentOfTokens(tokens, launchpad);
    TokensOfPercent(TokensToPercent(tokens, launchpad), launchpad);
    TokenUnits(raw, launchpad);
    PercentUnits(ScaledPercent(raw, launchpad), launchpad);
    DivModSplit(raw, Pow10(3 + TokenDecimals(launchpad)));
  }

  // --- the two lamport codecs --------------------------------------------------------------------

  lemma NineDigits(f: string)
    requires AllDigits(f)
    ensures Take(Take(f, 9) + Zeros(9), 9) == PadEnd(Take(f, 9), 9)
  {
  }

  // The digits before and after a point or comma: everything past the ninth place is cut.
  lemma SolPoint(w: string, c: char, f: string)
    requires AllDigits(w) && AllDigits(f) && (c == '.' || c == ',')
    ensures ParseSol(w + [c] + f) == Scaled(NumericInput.Lead(w), Take(f, 9), 9)
  {
    hide TextNat, Pow10, Trim, Count, Before, After, StripLeadingZeros, IndexOf;
    var t := w + [c] + f;
    TrimKeepsInner(t);
    NumericInput.CountDigits(w);
    NumericInput.CountDigits(f);
    assert Replace(t, ',', '.') == w + "." + f;
    NumericInput.CountAround(w, '.', f, '.');
    IndexOfAt(w, '.', f);
    NineDigits(f);
    TextNatConcat(NumericInput.Lead(w), PadEnd(Take(f, 9), 9));
    TokenScale("");
  }

  lemma SolWhole(w: string)
    requires AllDigits(w) && w != ""
    ensures ParseSol(w) == Scaled(w, "", 9)
  {
    hide TextNat, Pow10, Trim, StripLeadingZeros;
    TrimKeepsInner(w);
    NumericInput.CountDigits(w);
    assert Replace(w, ',', '.') == w;
    IndexOfAbsent(w, '.');
    NineDigits("");
    assert Take("", 9) == "";
    TextNatConcat(w, PadEnd("", 9));
    TokenScale("");
  }

  // Fractions of a lamport are floored: w.f reads as (digits of w and f) * 10^9 / 10^|f|.
  lemma SolFloors(w: string, c: char, f: string)
    requires AllDigits(w) && AllDigits(f) && w + f != "" && (c == '.' || c == ',')
    ensures ParseSol(w + [c] + f) == (TextNat(w + f) * 1_000_000_000) / Pow10(|f|)
  {
    hide ParseSol, Scaled, TextNat, Pow10;
    SolPoint(w, c, f);
    TokenScale("");
    var v := NumericInput.Lead(w);
    if w == "" {
      assert v + f == Zeros(1) + f && w + f == f;
      TextNatZerosBefore(1, f);
    }
    ScaledFloor(v, f);
  }

  lemma ScaledFloor(w: string, f: string)
    ensures Scaled(w, Take(f, 9), 9) == (TextNat(w + f) * 1_000_000_000) / Pow10(|f|)
  {
    hide TextNat, Pow10, Scaled;
    if |f| <= 9 {
      ScaledShort(w, f);
    } else {
      ScaledLong(w, f);
    }
  }

  lemma ScaledShort(w: string, f: string)
    requires |f| <= 9
    ensures Scaled(w, Take(f, 9), 9) == (TextNat(w + f) * 1_000_000_000) / Pow10(|f|)
  {
    hide TextNat, Pow10;
    var k := 9 - |f|;
    assert w + PadEnd(Take(f, 9), 9) == (w + f) + Zeros(k);
    TextNatZerosAfter(w + f, k);
    PowersOfTen();
    Pow10Sum(k, |f|);
    ExactQuotient(TextNat(w + f), Pow10(k), Pow10(|f|), 1_000_000_000);
  }

  lemma ScaledLong(w: string, f: string)
    requires |f| > 9
    ensures Scaled(w, Take(f, 9), 9) == (TextNat(w + f) * 1_000_000_000) / Pow10(|f|)
  {
    hide TextNat, Pow10;
    var k := |f| - 9;
    var s := w + f;
    assert w + PadEnd(Take(f, 9), 9) == s[..|s| - k];
    CutDigits(s, |s| - k);
    PowersOfTen();
    Pow10Sum(k, 9);
    CancelFactor(TextNat(s), Pow10(k), 1_000_000_000);
  }

  lemma ExactQuotient(n: nat, a: nat, b: nat, c: nat)
    requires b > 0 && c == a * b
    ensures (n * c) / b == n * a
  {
    assert n * (a * b) == (n * a) * b;
    DivModUnique(n * c, b, n * a, 0);
  }

  lemma CancelFactor(n: nat, a: nat, b: nat)
    requires a > 0 && b > 0
    ensures (n * b) / (a * b) == n / a
  {
    DivModSplit(n, a);
    var q, r := n / a, n % a;
    ScaleBoth(n, a, b, q, r);
    DivModUnique(n * b, a * b, q, r * b);
  }

  lemma ScaleBoth(n: nat, a: nat, b: nat, q: nat, r: nat)
    requires n == q * a + r && r < a && b > 0
    ensures n * b == q * (a * b) + r * b && r * b < a * b
  {
    assert (q * a) * b == q * (a * b);
    var k := a - r - 1;
    assert a * b == r * b + b + k * b;
  }

  // The two parsers agree on every text the strict one accepts at nine decimals.
  lemma ParsersAgree(value: string)
    requires ParseDecimal(value, 9).Ok?
    ensures ParseSol(value) == ParseDecimal(value, 9).value
  {
    if Trim(value) != "" {
      TrimIdempotent(value);
      var w, f := ParseInversion(value, 9);
      assert ParseSol(value) == ParseSol(Trim(value));
      assert Take(f, 9) == f;
      if f == "" {
        SolWhole(w);
      } else {
        SolPoint(w, '.', f);
      }
    }
  }

  lemma Associate(a: nat, b: nat, c: nat)
    ensures (a * b) * c == a * (b * c)
  {
  }

  // The value of a decimal text is exact in lamports while it has at most nine places.
  lemma ScaledExact(w: string, f: string)
    requires |f| <= 9
    ensures Scaled(w, f, 9) * Pow10(|f|) == TextNat(w + f) * 1_000_000_000
  {
    hide TextNat, Pow10;
    TokenScale("");
    var k := 9 - |f|;
    assert w + PadEnd(f, 9) == (w + f) + Zeros(k);
    TextNatZerosAfter(w + f, k);
    Pow10Sum(k, |f|);
    Associate(TextNat(w + f), Pow10(k), Pow10(|f|));
  }

  lemma TrailingPoint(w: string)
    requires AllDigits(w) && w != ""
    ensures ParseDecimal(w + "." + "", 9) == Err(InvalidDecimal)
  {
    PointText(w, "");
  }

  lemma ParsersOnDigits(w: string, point: bool, f: string)
    requires AllDigits(w) && w != "" && AllDigits(f) && |f| <= 9 && (!point ==> f == "")
    ensures var y := if point then w + "." + f else w;
            && ParseSol(y) == Scaled(w, f, 9)
            && (ParseDecimal(y, 9) == if point && f == "" then Err(InvalidDecimal) else Ok(Scaled(w, f, 9)))
            && (y[|y| - 1] == '.' <==> point && f == "")
  {
    hide ParseSol, ParseDecimal, Scaled, Trim, Before, After;
    assert Take(f, 9) == f;
    if point {
      SolPoint(w, '.', f);
      PointText(w, f);
      if f == "" {
        TrailingPoint(w);
      } else {
        ParsePoint(w, f, 9);
        assert (w + "." + f)[|w + "." + f| - 1] == f[|f| - 1];
      }
    } else {
      SolWhole(w);
      ParseWhole(w, 9);
    }
  }

  // On a normalised amount the tolerant parser is exact, and the strict parser accepts it
  // (with the same result) exactly when it does not end in its point.
  lemma ParsersOnNormalized(input: string)
    ensures var y := NumericInput.Normalize(input, NumericInput.Options(false, Some(9)));
            y != "" ==>
            && ParseSol(y) * Pow10(NumericInput.Scale(y)) == NumericInput.Mantissa(y) * 1_000_000_000
            && (ParseDecimal(y, 9) == if y[|y| - 1] == '.' then Err(InvalidDecimal) else Ok(ParseSol(y)))
  {
    hide ParseSol, ParseDecimal, Scaled, TextNat, Pow10,
         NumericInput.Normalize, NumericInput.Scale, NumericInput.Mantissa;
    var o := NumericInput.Options(false, Some(9));
    var y := NumericInput.Normalize(input, o);
    if y != "" {
      var w, point, f := NumericInput.NormalizeParts(input, o);
      var clean := StripLeadingZeros(NumericInput.Lead(w));
      StripLeadingShape(NumericInput.Lead(w));
      NumericInput.SpellReads(NumericInput.Lead(w), point, f);
      NumericInput.ReadsDenotes(y, clean, point, f);
      assert y == if point then clean + "." + f else clean;
      ParsersOnDigits(clean, point, f);
      ScaledExact(clean, f);
    }
  }

  // The two printers agree exactly on the amounts that are not negative, or are whole.
  lemma PrintersAgree(lamports: int)
    ensures FormatSol(lamports) == FormatDecimal(lamports, 9, 9) <==>
            lamports >= 0 || lamports % 1_000_000_000 == 0
  {
    hide FormatSol, FormatDecimal;
    if lamports >= 0 {
      PrintersAgreeNatural(lamports);
    } else {
      PrintersOnNegative(-lamports);
      WholeEitherSign(lamports);
    }
  }

  lemma WholeEitherSign(n: int)
    ensures n % 1_000_000_000 == 0 <==> -n % 1_000_000_000 == 0
  {
    assert n == 1_000_000_000 * (n / 1_000_000_000) + n % 1_000_000_000;
  }

  lemma PrintersOnNegative(n: int)
    requires n > 0
    ensures FormatSol(-n) == FormatDecimal(-n, 9, 9) <==> n % 1_000_000_000 == 0
  {
    TokenScale("");
    var whole, fraction := n / 1_000_000_000, n % 1_000_000_000;
    if fraction == 0 {
      assert whole > 0;
    } else {
      FractionDigits(fraction);
      assert FormatDecimal(-n, 9, 9) == "-" + (NatText(whole) + "." + FractionText(fraction, 9, 9));
      NegativeFractionDiffers(whole, fraction);
    }
  }

  lemma PrintersAgreeNatural(lamports: nat)
    ensures FormatSol(lamports) == FormatDecimal(lamports, 9, 9)
  {
    TokenScale("");
    if lamports % 1_000_000_000 != 0 {
      FractionDigits(lamports % 1_000_000_000);
    }
  }

  lemma FractionDigits(fraction: nat)
    requires 0 < fraction < 1_000_000_000
    ensures FractionText(fraction, 9, 9) == StripTrailingZeros(PadStart(NatText(fraction), 9)) != ""
  {
    TokenScale("");
    PaddedDigits(fraction, 9);
    FractionTextOf(PadStart(NatText(fraction), 9));
    assert Take(PadStart(NatText(fraction), 9), 9) == PadStart(NatText(fraction), 9);
  }

  lemma MinusInFraction(fraction: nat)
    requires 0 < fraction
    ensures '-' in StripTrailingZeros(PadStart("-" + NatText(fraction), 9))
  {
    var t := "-" + NatText(fraction);
    var s := PadStart(t, 9);
    NatTextShape(fraction);
    StripTrailingShape(s);
    var at := |s| - |t|;
    assert s[at] == '-';
    assert s == StripTrailingZeros(s) + Zeros(|s| - |StripTrailingZeros(s)|);
    assert StripTrailingZeros(s)[at] == '-';
  }

  lemma NegativeFractionDiffers(whole: int, fraction: int)
    requires 0 <= whole && 0 < fraction < 1_000_000_000
    ensures IntText(-whole) + "." + StripTrailingZeros(PadStart(IntText(-fraction), 9)) !=
            "-" + (NatText(whole) + "." + FractionText(fraction, 9, 9))
  {
    hide FractionText, StripTrailingZeros, PadStart, Pow10;
    TokenScale("");
    var minus, digits := StripTrailingZeros(PadStart(IntText(-fraction), 9)), FractionText(fraction, 9, 9);
    if whole == 0 {
      NatTextShape(0);
      assert (IntText(-whole) + "." + minus)[0] == '0';
    } else {
      MinusInFraction(fraction);
      FractionTextValue(fraction, 9, 9);
      StrayMinus("-" + NatText(whole) + ".", minus, digits);
      assert "-" + (NatText(whole) + "." + digits) == "-" + NatText(whole) + "." + digits;
    }
  }

  lemma StrayMinus(head: string, a: string, b: string)
    requires '-' in a && AllDigits(b)
    ensures head + a != head + b
  {
    var i :| 0 <= i < |a| && a[i] == '-';
    assert (head + a)[|head| + i] == '-';
  }

  // The tolerant parser inverts its printer.
  lemma SolInverse(lamports: nat)
    ensures ParseSol(FormatSol(lamports)) == lamports
  {
    PrintersAgree(lamports);
    FormatInverse(lamports, 9);
    ParsersAgree(FormatSol(lamports));
  }

  // --- what the parsers reject -----------------------------------------------------------------------

  // Space around a decimal does not matter, to either parser.
  lemma PaddedDecimal(value: string, decimals: nat)
    ensures ParseDecimal(value, decimals) == ParseDecimal(Trim(value), decimals)
    ensures ParseSol(value) == ParseSol(Trim(value))
  {
    hide TextNat, Pow10, Replace, Count, StripLeadingZeros;
    TrimIdempotent(value);
  }

  predicate IsSeparator(c: char) {
    c == '.' || c == ','
  }

  // A text with two separators, or with anything but digits and separators, is worth nothing to
  // the tolerant parser.
  lemma SolRejects(value: string, i: nat, j: nat)
    requires i < |Trim(value)|
    requires (i < j < |Trim(value)| && IsSeparator(Trim(value)[i]) && IsSeparator(Trim(value)[j]))
             || (!IsDigit(Trim(value)[i]) && !IsSeparator(Trim(value)[i]))
    ensures ParseSol(value) == 0
  {
    hide TextNat, Pow10, Trim, Count, Before, After, IndexOf;
    var t := Trim(value);
    var r := Replace(t, ',', '.');
    ReplaceAt(t, ',', '.');
    if !IsDigit(t[i]) && !IsSeparator(t[i]) {
      if AllDigits(NumericInput.Lead(Before(r, '.'))) && AllDigits(After(r, '.')) {
        CharPlaced(r, i);
      }
    } else {
      CountTwo(r, '.', i, j);
    }
  }

  lemma {:induction false} ReplaceAt(s: string, from: char, to: char)
    ensures |Replace(s, from, to)| == |s|
    ensures forall k | 0 <= k < |s| :: Replace(s, from, to)[k] == if s[k] == from then to else s[k]
  {
    if s != "" {
      ReplaceAt(s[1..], from, to);
    }
  }

  lemma {:induction false} CountTwo(s: string, c: char, i: nat, j: nat)
    requires i < j < |s| && s[i] == c && s[j] == c
    ensures Count(s, c) > 1
  {
    if i > 0 {
      CountTwo(s[1..], c, i - 1, j - 1);
    } else {
      CountOne(s[1..], c, j - 1);
    }
  }

  lemma {:induction false} CountOne(s: string, c: char, j: nat)
    requires j < |s| && s[j] == c
    ensures Count(s, c) > 0
  {
    if j > 0 {
      CountOne(s[1..], c, j - 1);
    }
  }

  // Every character is before the first point, is it, or is after it.
  lemma CharPlaced(r: string, i: nat)
    requires i < |r| && r[i] != '.'
    ensures r[i] in NumericInput.Lead(Before(r, '.')) || r[i] in After(r, '.')
  {
    var k := IndexOf(r, '.');
    if i < k {
      assert Before(r, '.')[i] == r[i];
    } else {
      assert After(r, '.')[i - k - 1] == r[i];
    }
  }

  // A negative amount is printed as a minus and the amount.
  lemma NegativePrinted(n: int, decimals: nat, maxFractionDigits: nat)
    requires n > 0
    ensures FormatDecimal(-n, decimals, maxFractionDigits) == "-" + FormatDecimal(n, decimals, maxFractionDigits)
  {
  }
}
