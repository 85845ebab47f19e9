/** Market-cap thresholds: how a saved threshold is shown, and how a typed one is read. */
module MarketCap {
  import opened Common
  import opened JsText
  import opened Digits
  import opened NumericInput
  import FixedPoint

  // --- printing a saved threshold, given in millionths of a dollar -------------------------

  function FormatWithSuffix(usd: nat, unit: nat, letter: string): string
    requires unit > 0
  {
    var whole, remainder := Quotient(usd, unit), usd % unit;
    if whole >= 100 || remainder == 0 then NatText(whole) + letter
    else
      var decimal := Quotient(remainder * 10, unit);
      if decimal == 0 then NatText(whole) + letter
      else NatText(whole) + "." + NatText(decimal) + letter
  }

  function FormatDollars(usd: nat): string {
    if usd >= 1_000_000_000_000 then FormatWithSuffix(usd, 1_000_000_000_000, "t")
    else if usd >= 1_000_000_000 then FormatWithSuffix(usd, 1_000_000_000, "b")
    else if usd >= 1_000_000 then FormatWithSuffix(usd, 1_000_000, "m")
    else if usd >= 1_000 then FormatWithSuffix(usd, 1_000, "k")
    else NatText(usd)
  }

  // formatSavedMarketCapThresholdForUi
  function FormatThreshold(value: string): string {
    var trimmed := Trim(value);
    if trimmed == "" || !AllDigits(trimmed) then trimmed
    else
      var micros := TextNat(trimmed);
      if micros < 1_000_000 then trimmed
      else
        var usd, fraction := micros / 1_000_000, micros % 1_000_000;
        if fraction == 0 then FormatDollars(usd)
        else
          var text := StripTrailingZeros(PadStart(NatText(fraction), 6));
          if text == "" then NatText(usd) else NatText(usd) + "." + text
  }

  // --- reading a typed threshold --------------------------------------------------------------

  // ^\d{1,3}(,\d{3})+$
  predicate GroupedWhole(s: string) {
    && |s| >= 5 && s[|s| - 4] == ',' && AllDigits(s[|s| - 3..])
    && var head := s[..|s| - 4];
       (|head| <= 3 && AllDigits(head)) || GroupedWhole(head)
  }

  // ^\d{1,3}(,\d{3})+(\.\d+)?$
  predicate GroupedDecimal(s: string) {
    && GroupedWhole(Before(s, '.'))
    && ('.' in s ==> After(s, '.') != "" && AllDigits(After(s, '.')))
  }

  function RemoveCommas(s: string): string {
    if s == "" then ""
    else if s[|s| - 1] == ',' then RemoveCommas(s[..|s| - 1])
    else RemoveCommas(s[..|s| - 1]) + [s[|s| - 1]]
  }

  predicate EndsWithSuffix(s: string) {
    s != "" && IsSuffix(s[|s| - 1])
  }

  // stripMarketCapThousandsCommas
  function StripThousands(value: string): string {
    var raw := Compact(value);
    var cut := if EndsWithSuffix(raw) then |raw| - 1 else |raw|;
    if GroupedDecimal(raw[..cut]) then RemoveCommas(raw[..cut]) + raw[cut..] else raw
  }

  function Multiplier(suffix: string): nat {
    if suffix == "k" then 1_000
    else if suffix == "m" then 1_000_000
    else if suffix == "b" then 1_000_000_000
    else if suffix == "t" then 1_000_000_000_000
    else 1
  }

  // Math.round(n / d)
  function RoundDiv(n: nat, d: nat): nat
    requires d > 0
  {
    DivModSplit(2 * n + d, 2 * d);
    (2 * n + d) / (2 * d)
  }

  const THRESHOLD := Options(true, Some(6))

  // parseMarketCapThreshold, after the normaliser: ^(\d+(?:\.\d+)?)([kmbt])?$
  function Expand(normalized: string): Option<nat> {
    var cut := if EndsWithSuffix(normalized) then |normalized| - 1 else |normalized|;
    var number, suffix := normalized[..cut], normalized[cut..];
    if !FixedPoint.StrictDecimal(number) then None
    else
      var w, f := Before(number, '.'), After(number, '.');
      var expanded := RoundDiv(TextNat(w + f) * Multiplier(suffix), Pow10(|f|));
      if TextNat(w + f) == 0 || expanded == 0 then None else Some(expanded)
  }

  function ParseThreshold(value: string): Option<nat> {
    var normalized := Normalize(StripThousands(value), THRESHOLD);
    if normalized == "" then None else Expand(normalized)
  }

  // --- reading plain digits ------------------------------------------------------------------

  function Positive(n: nat): Option<nat> {
    if n == 0 then None else Some(n)
  }

  lemma ExpandDigits(w: string, f: string, suffix: string)
    requires AllDigits(w) && w != "" && AllDigits(f) && LowerSuffix(suffix, THRESHOLD)
    ensures Expand((if f == "" then w else w + "." + f) + suffix) ==
            if TextNat(w + f) == 0 then None
            else Positive(RoundDiv(TextNat(w + f) * Multiplier(suffix), Pow10(|f|)))
  {
    hide TextNat, Pow10, RoundDiv, Multiplier, Trim;
    var number := if f == "" then w else w + "." + f;
    var t := number + suffix;
    if suffix == "" {
      assert t == number && !EndsWithSuffix(t);
      assert t[..|t|] == number && t[|t|..] == suffix;
    } else {
      assert t[|t| - 1] == suffix[0];
      assert t[..|t| - 1] == number && t[|t| - 1..] == suffix;
    }
    if f == "" {
      CountDigits(w);
      IndexOfAbsent(w, '.');
    } else {
      FixedPoint.PointText(w, f);
    }
  }

  lemma NoThousands(number: string, suffix: string)
    requires ',' !in number && number != "" && LowerSuffix(suffix, THRESHOLD)
    requires forall i | 0 <= i < |number| :: IsDigit(number[i]) || number[i] == '.'
    ensures Compact(number + suffix) == number + suffix
    ensures StripThousands(number + suffix) == number + suffix
  {
    hide RemoveSpaces, RemoveCommas, Trim;
    var t := number + suffix;
    TrimKeepsInner(t);
    RemoveSpacesNoop(t);
    assert suffix != "" ==> t[|t| - 1] == suffix[0];
    assert suffix == "" ==> t == number;
    var cut := if EndsWithSuffix(t) then |t| - 1 else |t|;
    assert t[..cut] == number;
    assert ',' !in Before(number, '.');
  }

  // Digits, an optional fraction of at most six digits and an optional suffix.
  lemma ParseDigits(w: string, f: string, suffix: string)
    requires AllDigits(w) && w != "" && AllDigits(f) && |f| <= 6 && LowerSuffix(suffix, THRESHOLD)
    ensures ParseThreshold((if f == "" then w else w + "." + f) + suffix) ==
            if TextNat(w + f) == 0 then None
            else Positive(RoundDiv(TextNat(w + f) * Multiplier(suffix), Pow10(|f|)))
  {
    var number := if f == "" then w else w + "." + f;
    var t := number + suffix;
    CountDigits(w);
    CountDigits(f);
    NoThousands(number, suffix);
    NormalizeDigits(w, f, suffix);
    StripLeadingShape(w);
    var clean := StripLeadingZeros(w);
    CleanSameNumber(w, f);
    ExpandDigits(clean, f, suffix);
  }

  lemma NormalizeBodyOf(number: string, suffix: string)
    requires ',' !in number && number != "" && LowerSuffix(suffix, THRESHOLD)
    requires forall i | 0 <= i < |number| :: IsDigit(number[i]) || number[i] == '.'
    ensures Normalize(number + suffix, THRESHOLD) == NormalizeBody(number, suffix, THRESHOLD)
  {
    NoThousands(number, suffix);
    SplitSuffix(number, suffix);
  }

  lemma NormalizeDigits(w: string, f: string, suffix: string)
    requires AllDigits(w) && w != "" && AllDigits(f) && |f| <= 6 && LowerSuffix(suffix, THRESHOLD)
    ensures var clean := StripLeadingZeros(w);
            Normalize((if f == "" then w else w + "." + f) + suffix, THRESHOLD) ==
            (if f == "" then clean else clean + "." + f) + suffix
  {
    if f == "" {
      CountDigits(w);
      NormalizeBodyOf(w, suffix);
      NormalizeWhole(w, suffix, THRESHOLD);
    } else {
      NormalizePointed(w, f, suffix);
    }
  }

  lemma NormalizePointed(w: string, f: string, suffix: string)
    requires AllDigits(w) && w != "" && AllDigits(f) && |f| <= 6 && LowerSuffix(suffix, THRESHOLD)
    ensures Normalize(w + "." + f + suffix, THRESHOLD) == StripLeadingZeros(w) + "." + f + suffix
  {
    CountDigits(w);
    CountDigits(f);
    NormalizeBodyOf(w + "." + f, suffix);
    assert |w + f| > 0;
    NormalizePoint(w, '.', f, suffix, THRESHOLD);
    SpellPoint(w, f, suffix);
  }

  lemma SpellPoint(w: string, f: string, suffix: string)
    ensures Spell(w, true, f, suffix) == StripLeadingZeros(w) + "." + f + suffix
  {
    var clean := StripLeadingZeros(w);
    assert clean + ("." + f) + suffix == clean + "." + f + suffix;
  }

  lemma SplitSuffix(number: string, suffix: string)
    requires number != "" && !IsSuffix(number[|number| - 1]) && LowerSuffix(suffix, THRESHOLD)
    ensures BodyOf(number + suffix, THRESHOLD) == number && SuffixOf(number + suffix, THRESHOLD) == suffix
  {
    var t := number + suffix;
    if suffix == "" {
      assert t == number;
    } else {
      assert t[|t| - 1] == suffix[0] && t[..|t| - 1] == number && [suffix[0]] == suffix;
    }
  }

  // --- a saved threshold, shown and read again --------------------------------------------------

  // The scale a dollar amount is shown in.
  function Unit(usd: nat): (unit: nat)
    ensures unit == 1 || unit in {1_000, 1_000_000, 1_000_000_000, 1_000_000_000_000}
    ensures unit > 1 ==> usd >= unit
  {
    if usd >= 1_000_000_000_000 then 1_000_000_000_000
    else if usd >= 1_000_000_000 then 1_000_000_000
    else if usd >= 1_000_000 then 1_000_000
    else if usd >= 1_000 then 1_000
    else 1
  }

  // The smallest difference the shown text can express.
  function Resolution(usd: nat): (r: nat)
    ensures r > 0
  {
    var unit := Unit(usd);
    if unit == 1 then 1 else if usd / unit >= 100 then unit else unit / 10
  }

  function Kept(usd: nat): nat {
    DivModSplit(usd, Resolution(usd));
    usd - usd % Resolution(usd)
  }

  // The whole units of usd and its next digit.
  lemma Tenths(usd: nat, u: nat) returns (whole: nat, tenth: nat, rest: nat)
    requires u > 0
    ensures whole == usd / (10 * u) && usd % (10 * u) == tenth * u + rest
    ensures tenth == (usd % (10 * u) * 10) / (10 * u) < 10 && rest == usd % u < u
    ensures usd == (10 * whole + tenth) * u + rest
  {
    DivModSplit(usd, 10 * u);
    whole := usd / (10 * u);
    var r: nat := usd % (10 * u);
    DivModSplit(r, u);
    tenth, rest := r / u, r % u;
    TenthSmall(tenth, u, rest);
    FixedPoint.CancelFactor(r, u, 10);
    FlattenTenths(whole, tenth, u, rest);
    DivModUnique(usd, u, 10 * whole + tenth, rest);
  }

  lemma TenthSmall(tenth: nat, u: nat, rest: nat)
    requires u > 0 && tenth * u + rest < 10 * u
    ensures tenth < 10
  {
    if tenth > 10 {
      SmallerQuotient(u, 10, 0, tenth, rest);
    }
  }

  lemma FlattenTenths(whole: nat, tenth: nat, u: nat, rest: nat)
    ensures whole * (10 * u) + (tenth * u + rest) == (10 * whole + tenth) * u + rest
  {
  }

  lemma RoundExact(n: nat, d: nat)
    requires d > 0
    ensures RoundDiv(n * d, d) == n
  {
    assert 2 * (n * d) + d == n * (2 * d) + d;
    DivModUnique(2 * (n * d) + d, 2 * d, n, d);
  }

  predicate LetterFor(letter: string, unit: nat) {
    LowerSuffix(letter, THRESHOLD) && Multiplier(letter) == unit
  }

  lemma ParsePlain(w: string, letter: string)
    requires AllDigits(w) && w != "" && LowerSuffix(letter, THRESHOLD)
    ensures ParseThreshold(w + letter) == Positive(TextNat(w) * Multiplier(letter))
  {
    hide ParseThreshold, TextNat;
    ParseDigits(w, "", letter);
    assert w + "" == w;
    RoundExact(TextNat(w) * Multiplier(letter), 1);
  }

  lemma ParseWholeUnits(whole: nat, unit: nat, letter: string)
    requires LetterFor(letter, unit)
    ensures ParseThreshold(NatText(whole) + letter) == Positive(whole * unit)
  {
    NatTextShape(whole);
    ParsePlain(NatText(whole), letter);
  }

  lemma ParseTenths(whole: nat, tenth: nat, u: nat, letter: string)
    requires LetterFor(letter, 10 * u) && tenth < 10 && u > 0
    ensures ParseThreshold(NatText(whole) + "." + NatText(tenth) + letter) == Positive((10 * whole + tenth) * u)
  {
    hide ParseThreshold, TextNat, NatText;
    var w, f := NatText(whole), NatText(tenth);
    NatTextShape(whole);
    NatTextShape(tenth);
    NatTextWidth(tenth, 1);
    ParseDigits(w, f, letter);
    assert Pow10(1) == 10;
    TextNatConcat(w, f);
    TenthsRound(10 * whole + tenth, u);
  }

  lemma TenthsRound(n: nat, u: nat)
    requires u > 0
    ensures RoundDiv(n * (10 * u), 10) == n * u
    ensures n * u == 0 <==> n == 0
  {
    assert n * (10 * u) == (n * u) * 10;
    RoundExact(n * u, 10);
    FixedPoint.ProductZero(n, u);
  }

  // How the units are shown, in terms of the whole units and the next digit.
  lemma ShownAs(usd: nat, u: nat, letter: string) returns (whole: nat, tenth: nat)
    requires u > 0
    ensures whole == usd / (10 * u) && tenth < 10
    ensures FormatWithSuffix(usd, 10 * u, letter) ==
            if whole >= 100 || tenth == 0 then NatText(whole) + letter
            else NatText(whole) + "." + NatText(tenth) + letter
    ensures usd - usd % (10 * u) == whole * (10 * u)
    ensures usd - usd % u == (10 * whole + tenth) * u
  {
    var rest;
    whole, tenth, rest := Tenths(usd, u);
    DivModSplit(usd, 10 * u);
    if usd % (10 * u) == 0 && tenth != 0 {
      FixedPoint.ProductZero(tenth, u);
    }
  }

  lemma ParseSuffixed(usd: nat, u: nat, letter: string)
    requires u > 0 && LetterFor(letter, 10 * u) && usd >= 10 * u
    ensures ParseThreshold(FormatWithSuffix(usd, 10 * u, letter)) ==
            Some(usd - usd % (if usd / (10 * u) >= 100 then 10 * u else u))
  {
    hide ParseThreshold, NatText;
    var whole, tenth := ShownAs(usd, u, letter);
    WholeUnitsPositive(whole, u, usd);
    ParseWholeUnits(whole, 10 * u, letter);
    ParseTenths(whole, tenth, u, letter);
    TenthsRound(10 * whole + tenth, u);
  }

  lemma WholeUnitsPositive(whole: nat, u: nat, usd: nat)
    requires u > 0 && usd >= 10 * u && whole == usd / (10 * u)
    ensures whole > 0 && whole * (10 * u) > 0
    ensures (10 * whole) * u == whole * (10 * u)
  {
    DivModSplit(usd, 10 * u);
    FixedPoint.ProductZero(whole, 10 * u);
  }

  lemma ParseOfDollars(usd: nat)
    requires usd > 0
    ensures ParseThreshold(FormatDollars(usd)) == Some(Kept(usd))
  {
    hide ParseThreshold, NatText, FormatWithSuffix;
    if usd >= 1_000_000_000_000 {
      ParseSuffixed(usd, 100_000_000_000, "t");
    } else if usd >= 1_000_000_000 {
      ParseSuffixed(usd, 100_000_000, "b");
    } else if usd >= 1_000_000 {
      ParseSuffixed(usd, 100_000, "m");
    } else if usd >= 1_000 {
      ParseSuffixed(usd, 100, "k");
    } else {
      NatTextShape(usd);
      ParsePlain(NatText(usd), "");
      assert NatText(usd) + "" == NatText(usd);
    }
  }

  // What reading the shown text of a saved threshold gives, for every saved value: the
  // dollars kept by the suffix; a fraction rounded to the nearest dollar; and below one
  // dollar the millionths themselves, taken for dollars.
  lemma SavedThresholdReadBack(value: string)
    requires Trim(value) != "" && AllDigits(Trim(value))
    ensures var micros := TextNat(Trim(value));
            ParseThreshold(FormatThreshold(value)) ==
            if micros < 1_000_000 then Positive(micros)
            else if micros % 1_000_000 == 0 then Some(Kept(micros / 1_000_000))
            else Some((micros + 500_000) / 1_000_000)
  {
    hide ParseThreshold, NatText, FormatDollars, TextNat;
    var micros := TextNat(Trim(value));
    if micros < 1_000_000 {
      ParsePlain(Trim(value), "");
      assert Trim(value) + "" == Trim(value);
    } else if micros % 1_000_000 == 0 {
      ParseOfDollars(micros / 1_000_000);
    } else {
      ParseOfCents(micros / 1_000_000, micros % 1_000_000);
    }
  }

  // A shown threshold reads back as no more than was saved exactly when a whole dollar was saved
  // and its fraction is below fifty cents.
  lemma ReadBackWithin(value: string)
    requires Trim(value) != "" && AllDigits(Trim(value)) && TextNat(Trim(value)) > 0
    ensures var micros, back := TextNat(Trim(value)), ParseThreshold(FormatThreshold(value));
            (back.Some? && back.value * 1_000_000 <= micros) <==>
            micros >= 1_000_000 && micros % 1_000_000 < 500_000
  {
    hide ParseThreshold, FormatThreshold, TextNat, Kept;
    var micros := TextNat(Trim(value));
    SavedThresholdReadBack(value);
    if micros >= 1_000_000 {
      KeptBounds(micros / 1_000_000);
    }
  }

  // The fraction of a dollar, as shown.
  lemma ShownFraction(fraction: nat) returns (text: string)
    requires 0 < fraction < 1_000_000
    ensures text == StripTrailingZeros(PadStart(NatText(fraction), 6)) != ""
    ensures AllDigits(text) && |text| <= 6 && TextNat(text + Zeros(6 - |text|)) == fraction
  {
    hide TextNat, NatText, StripTrailingZeros;
    PowersOfTen();
    PaddedDigits(fraction, 6);
    var digits := PadStart(NatText(fraction), 6);
    text := StripTrailingZeros(digits);
    FixedPoint.FractionTextOf(digits);
    StripTrailingShape(digits);
  }

  lemma ParseOfCents(usd: nat, fraction: nat)
    requires usd > 0 && 0 < fraction < 1_000_000
    ensures var text := StripTrailingZeros(PadStart(NatText(fraction), 6));
            && text != ""
            && ParseThreshold(NatText(usd) + "." + text) == Some((usd * 1_000_000 + fraction + 500_000) / 1_000_000)
  {
    hide ParseThreshold, TextNat, NatText, Pow10, StripTrailingZeros, PadStart;
    var text := ShownFraction(fraction);
    NatTextShape(usd);
    ParseDigits(NatText(usd), text, "");
    assert NatText(usd) + "." + text + "" == NatText(usd) + "." + text;
    CentsRound(NatText(usd), text, usd, fraction);
  }

  // Dropping trailing zeros scales digits and denominator alike.
  lemma CentsRound(w: string, text: string, usd: nat, fraction: nat)
    requires |text| <= 6 && TextNat(w) == usd > 0
    requires TextNat(text + Zeros(6 - |text|)) == fraction
    ensures TextNat(w + text) > 0
    ensures RoundDiv(TextNat(w + text), Pow10(|text|)) == (usd * 1_000_000 + fraction + 500_000) / 1_000_000 > 0
  {
    hide TextNat, Pow10;
    var k := 6 - |text|;
    PowersOfTen();
    Pow10Sum(k, |text|);
    TextNatConcat(w, text);
    TextNatZerosAfter(text, k);
    var n, p, q := TextNat(w + text), Pow10(|text|), Pow10(k);
    ScaleRound(usd, TextNat(text), p, q);
    FixedPoint.ProductZero(usd, p);
    FixedPoint.CancelFactor(2 * n + p, 2 * p, q);
  }

  lemma ScaleRound(usd: nat, t: nat, p: nat, q: nat)
    requires q * p == 1_000_000
    ensures (2 * (usd * p + t) + p) * q == 2 * (usd * 1_000_000 + t * q) + 1_000_000
    ensures (2 * p) * q == 2_000_000
  {
    assert (usd * p) * q == usd * (q * p);
    assert (2 * (usd * p + t) + p) * q == 2 * ((usd * p) * q) + 2 * (t * q) + q * p;
  }

  // Showing whole dollars never reads back as more, and loses less than a tenth of them;
  // less than a hundredth when a hundred units or more are shown.
  lemma KeptBounds(usd: nat)
    requires usd > 0
    ensures 0 < Kept(usd) <= usd
    ensures 10 * (usd - Kept(usd)) < usd
    ensures usd / Unit(usd) >= 100 ==> 100 * (usd - Kept(usd)) < usd
  {
    DivModSplit(usd, Resolution(usd));
    DivModSplit(usd, Unit(usd));
    if Unit(usd) == 1 {
      assert usd % 1 == 0;
    }
  }

  lemma DollarsOf(usd: nat)
    ensures TextNat(NatText(usd * 1_000_000)) == usd * 1_000_000
    ensures usd > 0 ==> FormatThreshold(NatText(usd * 1_000_000)) == FormatDollars(usd)
  {
    hide TextNat, NatText, FormatDollars, Trim;
    NatTextShape(usd * 1_000_000);
    TrimKeepsInner(NatText(usd * 1_000_000));
  }

  lemma SuffixStable(usd: nat, u: nat, letter: string)
    requires u > 0
    ensures var kept := usd - usd % (if usd / (10 * u) >= 100 then 10 * u else u);
            kept >= 0 && FormatWithSuffix(kept, 10 * u, letter) == FormatWithSuffix(usd, 10 * u, letter)
  {
    hide FormatWithSuffix, NatText;
    var whole, tenth := ShownAs(usd, u, letter);
    if whole >= 100 {
      ShownBack(whole, 0, u, letter);
      FlattenTenths(whole, 0, u, 0);
    } else {
      ShownBack(whole, tenth, u, letter);
    }
  }

  // An exact number of tenths of a unit is shown as just that.
  lemma ShownBack(whole: nat, tenth: nat, u: nat, letter: string)
    requires u > 0 && tenth < 10
    ensures FormatWithSuffix((10 * whole + tenth) * u, 10 * u, letter) ==
            if whole >= 100 || tenth == 0 then NatText(whole) + letter
            else NatText(whole) + "." + NatText(tenth) + letter
  {
    hide NatText;
    ExactTenths(whole, tenth, u);
  }

  lemma ExactTenths(whole: nat, tenth: nat, u: nat)
    requires u > 0 && tenth < 10
    ensures var kept := (10 * whole + tenth) * u;
            && kept / (10 * u) == whole && kept % (10 * u) == tenth * u
            && (tenth * u * 10) / (10 * u) == tenth
            && (tenth * u == 0 <==> tenth == 0)
  {
    FlattenTenths(whole, tenth, u, 0);
    SmallTenths(tenth, u);
    DivModUnique((10 * whole + tenth) * u, 10 * u, whole, tenth * u);
    TenthOfUnit(tenth, u);
    FixedPoint.ProductZero(tenth, u);
  }

  lemma TenthOfUnit(tenth: nat, u: nat)
    requires u > 0
    ensures (tenth * u * 10) / (10 * u) == tenth
  {
    assert tenth * u * 10 == tenth * (10 * u);
    DivModUnique(tenth * u * 10, 10 * u, tenth, 0);
  }

  lemma SmallTenths(tenth: nat, u: nat)
    requires u > 0 && tenth < 10
    ensures tenth * u < 10 * u
  {
    SmallerQuotient(u, tenth, 0, 10, 0);
  }

  lemma KeptSameUnit(usd: nat)
    requires usd > 0
    ensures Unit(Kept(usd)) == Unit(usd)
  {
    FloorKeeps(usd, Resolution(usd), if Resolution(usd) == Unit(usd) then 1 else 10);
    DivModSplit(usd, Resolution(usd));
  }

  lemma FloorKeeps(n: nat, r: nat, need: nat)
    requires r > 0 && n >= need * r
    ensures n - n % r >= need * r
  {
    DivModSplit(n, r);
    var k := n / r;
    if k < need {
      SmallerQuotient(r, k, n % r, need, 0);
    } else if k > need {
      SmallerQuotient(r, need, 0, k, 0);
    }
  }

  // The dollars a shown threshold reads back as are shown by the same text, so reading and
  // showing again changes nothing more.
  lemma ShownTextStable(usd: nat)
    requires usd > 0
    ensures FormatThreshold(NatText(Kept(usd) * 1_000_000)) == FormatThreshold(NatText(usd * 1_000_000))
    ensures ParseThreshold(FormatThreshold(NatText(usd * 1_000_000))) == Some(Kept(usd))
    ensures Kept(Kept(usd)) == Kept(usd)
  {
    hide ParseThreshold, FormatThreshold, NatText, Kept;
    KeptBounds(usd);
    DollarsOf(usd);
    DollarsOf(Kept(usd));
    DollarsStable(usd);
    ParseOfDollars(usd);
    ParseOfDollars(Kept(usd));
  }

  lemma DollarsStable(usd: nat)
    requires usd > 0
    ensures FormatDollars(Kept(usd)) == FormatDollars(usd)
  {
    hide FormatWithSuffix, NatText;
    KeptSameUnit(usd);
    var unit := Unit(usd);
    if unit == 1_000_000_000_000 {
      SuffixStable(usd, 100_000_000_000, "t");
    } else if unit == 1_000_000_000 {
      SuffixStable(usd, 100_000_000, "b");
    } else if unit == 1_000_000 {
      SuffixStable(usd, 100_000, "m");
    } else if unit == 1_000 {
      SuffixStable(usd, 100, "k");
    }
  }

  // The last character of a shown dollar amount of a thousand or more is a letter; below that it
  // is shown by its digits.
  lemma DollarsShown(usd: nat)
    ensures usd < 1000 ==> FormatDollars(usd) == NatText(usd)
    ensures usd >= 1000 ==> var t := FormatDollars(usd); t != "" && !IsDigit(t[|t| - 1])
  {
    hide NatText;
  }

  // For every saved value: the value its shown text reads back as is shown by the same text
  // exactly when whole dollars were saved, or fewer than a thousand millionths without a
  // redundant leading zero.
  lemma ShownTextStableExactly(value: string)
    requires Trim(value) != "" && AllDigits(Trim(value)) && TextNat(Trim(value)) > 0
    ensures var t := Trim(value);
            var micros, back := TextNat(t), ParseThreshold(FormatThreshold(value));
            && back.Some?
            && (FormatThreshold(NatText(back.value * 1_000_000)) == FormatThreshold(value) <==>
                  (micros >= 1_000_000 && micros % 1_000_000 == 0) ||
                  (micros < 1000 && (|t| == 1 || t[0] != '0')))
  {
    hide ParseThreshold, FormatThreshold, FormatDollars, NatText, TextNat, Kept;
    var t := Trim(value);
    var micros := TextNat(t);
    SavedThresholdReadBack(value);
    if micros >= 1_000_000 && micros % 1_000_000 == 0 {
      var usd := micros / 1_000_000;
      KeptBounds(usd);
      ShownTextStable(usd);
      SavedWhole(value, usd);
    } else {
      var dollars := ParseThreshold(FormatThreshold(value)).value;
      DollarsOf(dollars);
      DollarsShown(dollars);
      NatTextShape(dollars);
      if micros < 1_000_000 {
        SavedBelowDollar(value);
        DigitsCanonical(t);
      } else {
        SavedFraction(value);
      }
    }
  }

  lemma DigitsCanonical(t: string)
    requires AllDigits(t) && t != ""
    ensures NatText(TextNat(t)) == t <==> |t| == 1 || t[0] != '0'
  {
    hide NatText, TextNat;
    NatTextShape(TextNat(t));
    if |t| == 1 || t[0] != '0' {
      NatTextCanonical(t);
    }
  }

  lemma SavedWhole(value: string, usd: nat)
    requires Trim(value) != "" && AllDigits(Trim(value)) && TextNat(Trim(value)) == usd * 1_000_000 && usd > 0
    ensures FormatThreshold(value) == FormatThreshold(NatText(usd * 1_000_000))
  {
    hide NatText, TextNat, FormatDollars, Trim;
    DollarsOf(usd);
  }

  lemma SavedBelowDollar(value: string)
    requires Trim(value) != "" && AllDigits(Trim(value)) && TextNat(Trim(value)) < 1_000_000
    ensures FormatThreshold(value) == Trim(value)
  {
  }

  // A fraction is shown after a point, and ends in a digit.
  lemma SavedFraction(value: string)
    requires Trim(value) != "" && AllDigits(Trim(value))
    requires TextNat(Trim(value)) > 1_000_000 && TextNat(Trim(value)) % 1_000_000 != 0
    ensures var shown := FormatThreshold(value);
            shown != "" && '.' in shown && IsDigit(shown[|shown| - 1])
  {
    hide NatText, TextNat, FormatDollars, Trim;
    var text := ShownFraction(TextNat(Trim(value)) % 1_000_000);
  }

  // --- thousands separators --------------------------------------------------------------------

  // The digits of n in groups of three.
  function Grouped(n: nat): string {
    if n < 1000 then NatText(n) else Grouped(n / 1000) + "," + PadStart(NatText(n % 1000), 3)
  }

  lemma {:induction false} GroupedShape(n: nat)
    ensures n >= 1000 ==> GroupedWhole(Grouped(n))
    ensures RemoveCommas(Grouped(n)) == NatText(n)
    ensures NumericChars(Grouped(n)) && '.' !in Grouped(n)
    ensures n < 1000 ==> |Grouped(n)| <= 3
  {
    hide TextNat, GroupedWhole, RemoveCommas, NumericChars, Grouped, NatText;
    if n < 1000 {
      GroupedBase(n);
    } else {
      GroupedShape(n / 1000);
      GroupedStep(n);
    }
  }

  lemma GroupedBase(n: nat)
    requires n < 1000
    ensures RemoveCommas(Grouped(n)) == NatText(n)
    ensures NumericChars(Grouped(n)) && '.' !in Grouped(n) && |Grouped(n)| <= 3
  {
    hide TextNat, NatText;
    PowersOfTen();
    NatTextShape(n);
    NatTextWidth(n, 3);
    RemoveNothing(NatText(n));
  }

  lemma {:induction false} RemoveNothing(s: string)
    requires AllDigits(s)
    ensures RemoveCommas(s) == s
  {
    if s != "" {
      RemoveNothing(s[..|s| - 1]);
    }
  }

  lemma {:induction false} RemoveCommasAppend(a: string, b: string)
    requires AllDigits(b)
    ensures RemoveCommas(a + b) == RemoveCommas(a) + b
  {
    if b == "" {
      assert a + b == a && RemoveCommas(a) + b == RemoveCommas(a);
    } else {
      RemoveCommasAppend(a, b[..|b| - 1]);
      assert (a + b)[..|a + b| - 1] == a + b[..|b| - 1];
    }
  }

  lemma NatTextGroups(n: nat)
    requires n >= 1000
    ensures NatText(n) == NatText(n / 1000) + PadStart(NatText(n % 1000), 3)
  {
    hide TextNat, NatText, PadStart;
    PowersOfTen();
    var a, b := NatText(n / 1000), PadStart(NatText(n % 1000), 3);
    NatTextShape(n / 1000);
    PaddedDigits(n % 1000, 3);
    TextNatConcat(a, b);
    assert (a + b)[0] == a[0];
    NatTextCanonical(a + b);
  }

  // Another group of three digits after a grouped head.
  lemma GroupAppended(head: string, b: string)
    requires GroupedWhole(head) || (head != "" && |head| <= 3 && AllDigits(head))
    requires NumericChars(head) && '.' !in head && AllDigits(b) && |b| == 3
    ensures GroupedWhole(head + "," + b) && RemoveCommas(head + "," + b) == RemoveCommas(head) + b
    ensures NumericChars(head + "," + b) && '.' !in head + "," + b
  {
    var s := head + "," + b;
    assert s[|s| - 3..] == b && s[..|s| - 4] == head && s[|s| - 4] == ',';
    hide GroupedWhole;
    RemoveCommasAppend(head + ",", b);
    assert (head + ",")[..|head|] == head;
  }

  lemma GroupedStep(n: nat)
    requires n >= 1000
    requires n / 1000 >= 1000 ==> GroupedWhole(Grouped(n / 1000))
    requires n / 1000 < 1000 ==> |Grouped(n / 1000)| <= 3
    requires RemoveCommas(Grouped(n / 1000)) == NatText(n / 1000)
    requires NumericChars(Grouped(n / 1000)) && '.' !in Grouped(n / 1000)
    ensures GroupedWhole(Grouped(n)) && RemoveCommas(Grouped(n)) == NatText(n)
    ensures NumericChars(Grouped(n)) && '.' !in Grouped(n)
  {
    hide TextNat, NatText, PadStart, Mantissa, GroupedWhole, NumericChars, RemoveCommas;
    PowersOfTen();
    PaddedDigits(n % 1000, 3);
    NatTextShape(n / 1000);
    GroupAppended(Grouped(n / 1000), PadStart(NatText(n % 1000), 3));
    NatTextGroups(n);
  }

  function WithFraction(w: string, f: string): string {
    if f == "" then w else w + "." + f
  }

  // A threshold typed with thousands separators, with or without a fraction and a suffix, reads
  // as the one typed without them.
  lemma GroupedReads(n: nat, f: string, suffix: string)
    requires AllDigits(f) && LowerSuffix(suffix, THRESHOLD)
    ensures ParseThreshold(WithFraction(Grouped(n), f) + suffix) == ParseThreshold(WithFraction(NatText(n), f) + suffix)
  {
    hide NatText, TextNat, RemoveCommas, Grouped, StripThousands, Normalize, Expand;
    if n >= 1000 {
      GroupedFraction(n, f);
      StripGrouped(WithFraction(Grouped(n), f), suffix);
      NatTextShape(n);
      CountDigits(NatText(n));
      CountDigits(f);
      NoThousands(WithFraction(NatText(n), f), suffix);
    } else {
      assert Grouped(n) == NatText(n) by { GroupedSmall(n); }
    }
  }

  lemma GroupedSmall(n: nat)
    requires n < 1000
    ensures Grouped(n) == NatText(n)
  {
  }

  lemma GroupedFraction(n: nat, f: string)
    requires n >= 1000 && AllDigits(f)
    ensures var g := WithFraction(Grouped(n), f);
            GroupedDecimal(g) && NumericChars(g) && RemoveCommas(g) == WithFraction(NatText(n), f)
  {
    hide NatText, TextNat, RemoveCommas, Grouped, GroupedWhole;
    GroupedShape(n);
    var w := Grouped(n);
    if f == "" {
      IndexOfAbsent(w, '.');
    } else {
      IndexOfAt(w, '.', f);
      RemoveCommasAppend(w + ".", f);
      RemovePoint(w);
    }
  }

  lemma RemovePoint(w: string)
    ensures RemoveCommas(w + ".") == RemoveCommas(w) + "."
  {
    assert (w + ".")[..|w|] == w;
  }

  lemma StripGrouped(g: string, suffix: string)
    requires GroupedDecimal(g) && NumericChars(g) && LowerSuffix(suffix, THRESHOLD)
    ensures StripThousands(g + suffix) == RemoveCommas(g) + suffix
  {
    hide RemoveCommas, Trim, RemoveSpaces, GroupedDecimal;
    var t := g + suffix;
    TrimKeepsInner(t);
    RemoveSpacesNoop(t);
    assert suffix != "" ==> t[|t| - 1] == suffix[0];
    assert suffix == "" ==> t == g;
    var cut := if EndsWithSuffix(t) then |t| - 1 else |t|;
    assert t[..cut] == g && t[cut..] == suffix;
  }

  // The separated groups of a number.
  function Joined(head: string, groups: seq<string>): string {
    if groups == [] then head else Joined(head, groups[..|groups| - 1]) + "," + groups[|groups| - 1]
  }

  // One to three digits, and one or more groups of exactly three.
  predicate GroupsOf(head: string, groups: seq<string>) {
    && 1 <= |head| <= 3 && AllDigits(head) && groups != []
    && forall g | g in groups :: |g| == 3 && AllDigits(g)
  }

  lemma {:induction false} JoinedGrouped(head: string, groups: seq<string>)
    requires GroupsOf(head, groups)
    ensures GroupedWhole(Joined(head, groups))
  {
    var front, last := groups[..|groups| - 1], groups[|groups| - 1];
    var s, before := Joined(head, groups), Joined(head, front);
    assert s == before + "," + last;
    assert s[|s| - 3..] == last && s[..|s| - 4] == before && s[|s| - 4] == ',';
    assert last in groups;
    if front != [] {
      assert forall g | g in front :: g in groups;
      JoinedGrouped(head, front);
      assert |before| >= 5;
    }
  }

  lemma {:induction false} GroupedJoined(s: string) returns (head: string, groups: seq<string>)
    requires GroupedWhole(s)
    ensures GroupsOf(head, groups) && s == Joined(head, groups)
  {
    var before, last := s[..|s| - 4], s[|s| - 3..];
    assert s == before + "," + last;
    if |before| <= 3 && AllDigits(before) {
      head, groups := before, [last];
      assert groups[..0] == [];
      assert Joined(head, []) == head;
    } else {
      var front: seq<string>;
      head, front := GroupedJoined(before);
      groups := front + [last];
      assert groups[..|groups| - 1] == front;
    }
  }

  // The commas removed are exactly those of well-formed groups; a fraction needs a digit.
  lemma GroupedExactly(s: string)
    ensures GroupedDecimal(s) <==>
            exists head: string, groups: seq<string>, f: string ::
              GroupsOf(head, groups) && AllDigits(f) && s == WithFraction(Joined(head, groups), f)
  {
    hide GroupedWhole, Joined, GroupsOf, AllDigits;
    if GroupedDecimal(s) {
      var head, groups := GroupedJoined(Before(s, '.'));
      AllDigitsNothing();
      if '.' in s {
        assert s == WithFraction(Joined(head, groups), After(s, '.'));
      } else {
        IndexOfAbsent(s, '.');
        assert s == WithFraction(Joined(head, groups), "");
      }
    }
    if head: string, groups: seq<string>, f: string :|
      GroupsOf(head, groups) && AllDigits(f) && s == WithFraction(Joined(head, groups), f)
    {
      var w := Joined(head, groups);
      JoinedGrouped(head, groups);
      GroupedNoPoint(w);
      if f == "" {
        IndexOfAbsent(w, '.');
      } else {
        IndexOfAt(w, '.', f);
      }
    }
  }

  lemma AllDigitsNothing()
    ensures AllDigits("")
  {
  }

  lemma {:induction false} GroupedNoPoint(s: string)
    requires GroupedWhole(s)
    ensures '.' !in s
  {
    var before, last := s[..|s| - 4], s[|s| - 3..];
    assert s == before + [s[|s| - 4]] + last;
    if !(|before| <= 3 && AllDigits(before)) {
      GroupedNoPoint(before);
    }
  }

  // A text that is not all digits is shown as it is, trimmed.
  lemma ShownAsTyped(value: string)
    requires Trim(value) == "" || !AllDigits(Trim(value))
    ensures FormatThreshold(value) == Trim(value)
  {
  }

  // A number that ends in its point is no threshold.
  lemma PointRejected(w: string)
    requires AllDigits(w) && w != ""
    ensures ParseThreshold(w + ".") == None
  {
    hide TextNat, StripLeadingZeros;
    assert w + "." == w + "." + "";
    assert w + "." + "" + "" == w + ".";
    CountDigits(w);
    NoThousands(w + ".", "");
    NormalizePointed(w, "", "");
    StripLeadingShape(w);
    var clean := StripLeadingZeros(w);
    IndexOfAt(clean, '.', "");
    assert clean + "." + "" + "" == clean + ".";
  }
}
