/** The shared normaliser for unsigned decimal input fields. */
module NumericInput {
  import opened Common
  import opened JsText
  import opened Digits

  datatype Options = Options(allowSuffix: bool, maxDecimals: Option<int>) {
    predicate Allows(fraction: string) {
      maxDecimals.Some? ==> |fraction| <= maxDecimals.value
    }
  }

  function Compact(value: string): string {
    RemoveSpaces(Trim(value))
  }

  predicate IsSuffix(c: char) {
    c in "kmbtKMBT"
  }

  predicate HasSuffix(raw: string, options: Options) {
    raw != "" && options.allowSuffix && IsSuffix(raw[|raw| - 1])
  }

  function SuffixOf(raw: string, options: Options): string {
    if HasSuffix(raw, options) then [LowerChar(raw[|raw| - 1])] else ""
  }

  function BodyOf(raw: string, options: Options): string {
    if HasSuffix(raw, options) then raw[..|raw| - 1] else raw
  }

  // ^[\d.,]+$
  predicate NumericChars(s: string) {
    s != "" && forall i | 0 <= i < |s| :: IsDigit(s[i]) || s[i] == '.' || s[i] == ','
  }

  // ^\d{1,3},\d{3}$
  predicate LooksGrouped(s: string) {
    && 1 <= IndexOf(s, ',') <= 3
    && |s| == IndexOf(s, ',') + 4
    && AllDigits(Before(s, ','))
    && AllDigits(After(s, ','))
  }

  // An integer that could be thousands-grouped.
  predicate Ambiguous(body: string) {
    LooksGrouped(body) && !("0," <= body)
  }

  // ^\d+(?:\.\d*)?$
  predicate DecimalShape(s: string) {
    Before(s, '.') != "" && AllDigits(Before(s, '.')) && AllDigits(After(s, '.'))
  }

  // The rejections made on the text as typed.
  predicate Screened(body: string) {
    var dots, commas := Count(body, '.'), Count(body, ',');
    && NumericChars(body)
    && !(dots > 0 && commas > 0)
    && !(dots > 1 || commas > 1)
    && !(commas == 1 && dots == 0 && Ambiguous(body))
  }

  function NormalizeBody(body: string, suffix: string, options: Options): string {
    if Screened(body) then Finish(Replace(body, ',', '.'), suffix, options) else ""
  }

  function Finish(normalized: string, suffix: string, options: Options): string {
    if normalized == "." || normalized == "" then ""
    else
      var prefixed := if normalized[0] == '.' then "0" + normalized else normalized;
      var whole, fraction := Before(prefixed, '.'), After(prefixed, '.');
      if !DecimalShape(prefixed) || !options.Allows(fraction) then ""
      else Spell(whole, '.' in prefixed, fraction, suffix)
  }

  function Spell(whole: string, point: bool, fraction: string, suffix: string): string {
    StripLeadingZeros(whole) + (if point then "." + fraction else "") + suffix
  }

  function Normalize(value: string, options: Options): string {
    var raw := Compact(value);
    if raw == "" then "" else NormalizeBody(BodyOf(raw, options), SuffixOf(raw, options), options)
  }

  // --- what a field says, independently of how it is normalised ----------------------------

  // The digits of the text as one number, its separators skipped.
  function Mantissa(s: string): nat {
    if s == "" then 0
    else if IsDigit(s[|s| - 1]) then 10 * Mantissa(s[..|s| - 1]) + DigitValue(s[|s| - 1])
    else Mantissa(s[..|s| - 1])
  }

  // How many characters follow the first point or comma.
  function Scale(s: string): nat {
    if s == "" then 0
    else if s[0] == '.' || s[0] == ',' then |s| - 1
    else Scale(s[1..])
  }

  // The number a body denotes, its point or lone comma read as the decimal point.
  function Denotes(body: string): real {
    Mantissa(body) as real / Pow10(Scale(body)) as real
  }

  // The body is the digits w, or w and f around a point or a comma.
  ghost predicate Reads(body: string, w: string, point: bool, f: string) {
    && AllDigits(w) && AllDigits(f)
    && if point then w + f != "" && (body == w + "." + f || body == w + "," + f)
       else body == w && w != "" && f == ""
  }

  // Exactly the bodies the normaliser accepts: a thousands-grouped integer is ambiguous.
  ghost predicate Acceptable(body: string, options: Options) {
    && !Ambiguous(body)
    && exists w, point, f :: Reads(body, w, point, f) && options.Allows(f)
  }

  lemma {:induction false} DigitsDenote(s: string)
    requires AllDigits(s)
    ensures Mantissa(s) == TextNat(s) && Scale(s) == 0
  {
    if s != "" {
      DigitsDenote(s[..|s| - 1]);
      ScaleOfDigits(s);
    }
  }

  lemma {:induction false} ScaleOfDigits(s: string)
    requires AllDigits(s)
    ensures Scale(s) == 0
  {
    if s != "" {
      ScaleOfDigits(s[1..]);
    }
  }

  lemma {:induction false} MantissaAround(w: string, c: char, f: string)
    requires AllDigits(w) && AllDigits(f) && !IsDigit(c)
    ensures Mantissa(w + [c] + f) == TextNat(w + f)
  {
    var s := w + [c] + f;
    if f == "" {
      assert s[..|s| - 1] == w && w + f == w;
      DigitsDenote(w);
    } else {
      var g := f[..|f| - 1];
      MantissaAround(w, c, g);
      assert s[..|s| - 1] == w + [c] + g;
      assert (w + f)[..|w + f| - 1] == w + g;
    }
  }

  lemma {:induction false} ScaleAround(w: string, c: char, f: string)
    requires AllDigits(w) && (c == '.' || c == ',')
    ensures Scale(w + [c] + f) == |f|
  {
    if w != "" {
      ScaleAround(w[1..], c, f);
      assert (w + [c] + f)[1..] == w[1..] + [c] + f;
    }
  }

  lemma ReadsDenotes(body: string, w: string, point: bool, f: string)
    requires Reads(body, w, point, f)
    ensures Mantissa(body) == TextNat(w + f) && Scale(body) == |f|
  {
    if point {
      var c := if body == w + "." + f then '.' else ',';
      MantissaAround(w, c, f);
      ScaleAround(w, c, f);
    } else {
      DigitsDenote(w);
      assert w + f == w;
    }
  }

  // --- the normaliser against that reading ---------------------------------------------------

  lemma CountDigits(s: string)
    requires AllDigits(s)
    ensures Count(s, '.') == 0 && Count(s, ',') == 0
    ensures '.' !in s && ',' !in s
  {
    CountZero(s, '.');
    CountZero(s, ',');
  }

  lemma CountAround(w: string, c: char, f: string, d: char)
    requires AllDigits(w) && AllDigits(f) && (d == '.' || d == ',')
    ensures Count(w + [c] + f, d) == if c == d then 1 else 0
  {
    CountDigits(w);
    CountDigits(f);
    CountConcat(w + [c], f, d);
    CountConcat(w, [c], d);
  }

  lemma FinishWhole(w: string, suffix: string, options: Options)
    requires AllDigits(w) && w != ""
    ensures Finish(w, suffix, options) == if options.Allows("") then Spell(w, false, "", suffix) else ""
  {
    CountDigits(w);
    IndexOfAbsent(w, '.');
  }

  function Lead(w: string): string {
    if w == "" then "0" else w
  }

  lemma FinishPoint(w: string, f: string, suffix: string, options: Options)
    requires AllDigits(w) && AllDigits(f) && w + f != ""
    ensures Finish(w + "." + f, suffix, options) ==
            if options.Allows(f) then Spell(Lead(w), true, f, suffix) else ""
  {
    var t := w + "." + f;
    assert t != "." by {
      assert |t| > 1;
    }
    var prefixed := Lead(w) + "." + f;
    assert w == "" ==> "0" + t == prefixed;
    assert w != "" ==> t[0] == w[0] && prefixed == t;
    CountDigits(Lead(w));
    IndexOfAt(Lead(w), '.', f);
  }

  lemma NormalizeWhole(w: string, suffix: string, options: Options)
    requires AllDigits(w) && w != ""
    ensures NormalizeBody(w, suffix, options) == if options.Allows("") then Spell(w, false, "", suffix) else ""
  {
    CountDigits(w);
    assert Replace(w, ',', '.') == w;
    FinishWhole(w, suffix, options);
  }

  lemma PointScreened(w: string, c: char, f: string)
    requires AllDigits(w) && AllDigits(f) && w + f != ""
    requires c == '.' || (c == ',' && !Ambiguous(w + [c] + f))
    ensures Screened(w + [c] + f)
  {
    CountAround(w, c, f, '.');
    CountAround(w, c, f, ',');
  }

  lemma NormalizePoint(w: string, c: char, f: string, suffix: string, options: Options)
    requires AllDigits(w) && AllDigits(f) && w + f != ""
    requires c == '.' || (c == ',' && !Ambiguous(w + [c] + f))
    ensures NormalizeBody(w + [c] + f, suffix, options) ==
            if options.Allows(f) then Spell(Lead(w), true, f, suffix) else ""
  {
    PointScreened(w, c, f);
    CountDigits(w);
    CountDigits(f);
    assert Replace(w + [c] + f, ',', '.') == w + "." + f;
    FinishPoint(w, f, suffix, options);
  }

  lemma CharsWithoutSeparators(s: string)
    requires NumericChars(s) && '.' !in s && ',' !in s
    ensures AllDigits(s)
  {
  }

  lemma SeparatorsElsewhere(body: string, c: char, w: string, f: string)
    requires NumericChars(body) && body == w + [c] + f
    requires c !in w && c !in f && (c == '.' || c == ',')
    requires (c == '.' ==> ',' !in body) && (c == ',' ==> '.' !in body)
    ensures AllDigits(w) && AllDigits(f)
  {
    forall i | 0 <= i < |w| ensures IsDigit(w[i]) {
      assert body[i] == w[i];
    }
    forall i | 0 <= i < |f| ensures IsDigit(f[i]) {
      assert body[|w| + 1 + i] == f[i];
    }
  }

  // A screened body reads as digits, with a point or comma in them or not.
  lemma ScreenedReads(body: string) returns (w: string, point: bool, f: string)
    requires Screened(body)
    ensures body == "." || body == "," || Reads(body, w, point, f)
  {
    CountZero(body, '.');
    CountZero(body, ',');
    if '.' in body || ',' in body {
      var c := if '.' in body then '.' else ',';
      point, w, f := true, Before(body, c), After(body, c);
      SplitAt(body, c);
      CountSplit(body, c);
      CountZero(f, c);
      SeparatorsElsewhere(body, c, w, f);
      assert w + f == "" ==> body == [c];
    } else {
      point, w, f := false, body, "";
      CharsWithoutSeparators(body);
    }
  }

  // An accepted body reads as digits, and is spelled from them.
  lemma NormalizeInversion(body: string, suffix: string, options: Options) returns (w: string, point: bool, f: string)
    requires NormalizeBody(body, suffix, options) != ""
    ensures Reads(body, w, point, f) && options.Allows(f)
    ensures !Ambiguous(body)
    ensures NormalizeBody(body, suffix, options) == Spell(Lead(w), point, f, suffix)
  {
    w, point, f := ScreenedReads(body);
    assert body != "." && body != "," by {
      assert Replace(",", ',', '.') == "." && Replace(".", ',', '.') == ".";
    }
    if point {
      GroupedHasComma(body, w, f);
      NormalizePoint(w, if body == w + "." + f then '.' else ',', f, suffix, options);
    } else {
      CountDigits(w);
      NormalizeWhole(w, suffix, options);
    }
  }

  lemma GroupedHasComma(body: string, w: string, f: string)
    requires Reads(body, w, true, f) && Screened(body)
    ensures !Ambiguous(body)
  {
    CountDigits(w);
    CountDigits(f);
    CountAround(w, ',', f, ',');
    CountAround(w, ',', f, '.');
    if body == w + "." + f {
      CountAround(w, '.', f, ',');
      CountZero(body, ',');
      IndexOfAbsent(body, ',');
    }
  }

  // The same for a whole field.
  lemma NormalizeParts(value: string, options: Options) returns (w: string, point: bool, f: string)
    requires Normalize(value, options) != ""
    ensures Compact(value) != "" && !Ambiguous(BodyOf(Compact(value), options))
    ensures Reads(BodyOf(Compact(value), options), w, point, f) && options.Allows(f)
    ensures Normalize(value, options) == Spell(Lead(w), point, f, SuffixOf(Compact(value), options))
  {
    var raw := Compact(value);
    w, point, f := NormalizeInversion(BodyOf(raw, options), SuffixOf(raw, options), options);
  }

  // --- the main results ------------------------------------------------------------------------

  predicate LowerSuffix(suffix: string, options: Options) {
    suffix == "" || (|suffix| == 1 && options.allowSuffix && suffix[0] in "kmbt")
  }

  lemma SpellReadBack(w: string, point: bool, f: string, suffix: string, options: Options)
    requires AllDigits(w) && w != "" && AllDigits(f) && LowerSuffix(suffix, options)
    ensures var out := Spell(w, point, f, suffix);
            && Compact(out) == out
            && BodyOf(out, options) == Spell(w, point, f, "")
            && SuffixOf(out, options) == suffix
  {
    hide StripLeadingZeros, Trim, RemoveSpaces;
    var body := Spell(w, point, f, "");
    var out := Spell(w, point, f, suffix);
    StripLeadingShape(w);
    assert out == body + suffix;
    assert forall i | 0 <= i < |body| :: IsDigit(body[i]) || body[i] == '.';
    TrimKeepsInner(out);
    RemoveSpacesNoop(out);
    if suffix == "" {
      assert out == body && !IsSuffix(out[|out| - 1]);
    } else {
      assert out[|out| - 1] == suffix[0] && LowerChar(suffix[0]) == suffix[0];
      assert out[..|out| - 1] == body;
    }
  }

  lemma SuffixIsLower(raw: string, options: Options)
    ensures LowerSuffix(SuffixOf(raw, options), options)
  {
  }

  lemma AcceptableSpelled(body: string, suffix: string, options: Options)
    requires Acceptable(body, options)
    ensures NormalizeBody(body, suffix, options) != ""
  {
    hide NormalizeBody;
    var w, point, f :| Reads(body, w, point, f) && options.Allows(f);
    if point {
      NormalizePoint(w, if body == w + "." + f then '.' else ',', f, suffix, options);
    } else {
      NormalizeWhole(w, suffix, options);
    }
    StripLeadingShape(Lead(w));
  }

  // The accepted fields are exactly the unambiguous decimals within the limit.
  lemma AcceptsExactly(value: string, options: Options)
    ensures Normalize(value, options) != "" <==>
            Compact(value) != "" && Acceptable(BodyOf(Compact(value), options), options)
  {
    var raw := Compact(value);
    if Normalize(value, options) != "" {
      var w, point, f := NormalizeParts(value, options);
    } else if raw != "" && Acceptable(BodyOf(raw, options), options) {
      AcceptableSpelled(BodyOf(raw, options), SuffixOf(raw, options), options);
    }
  }

  // An accepted field keeps its number and its suffix, sheds redundant leading zeros and
  // respects the decimal limit.
  lemma KeepsValue(value: string, options: Options)
    requires Normalize(value, options) != ""
    ensures var raw, out := Compact(value), Normalize(value, options);
            var body := BodyOf(out, options);
            && Denotes(body) == Denotes(BodyOf(raw, options))
            && SuffixOf(out, options) == SuffixOf(raw, options)
            && (|Before(body, '.')| == 1 || (|body| > 0 && body[0] != '0'))
            && (options.maxDecimals.Some? ==> Scale(body) <= options.maxDecimals.value)
  {
    hide Normalize, Compact, Mantissa, Scale, Spell, Before;
    var raw := Compact(value);
    var suffix := SuffixOf(raw, options);
    var w, point, f := NormalizeParts(value, options);
    SuffixIsLower(raw, options);
    SpellReadBack(Lead(w), point, f, suffix, options);
    ReadsDenotes(BodyOf(raw, options), w, point, f);
    SpellDenotes(w, point, f);
    SpellLeads(w, point, f);
  }

  lemma SpellLeads(w: string, point: bool, f: string)
    requires AllDigits(w) && AllDigits(f)
    ensures var body := Spell(Lead(w), point, f, "");
            && Before(body, '.') == StripLeadingZeros(Lead(w))
            && (|Before(body, '.')| == 1 || (|body| > 0 && body[0] != '0'))
  {
    var clean := StripLeadingZeros(Lead(w));
    StripLeadingShape(Lead(w));
    CountDigits(clean);
    if point {
      assert Spell(Lead(w), point, f, "") == clean + "." + f;
      IndexOfAt(clean, '.', f);
    } else {
      assert Spell(Lead(w), point, f, "") == clean;
      IndexOfAbsent(clean, '.');
    }
  }

  lemma StripStripped(clean: string)
    requires AllDigits(clean) && clean != "" && (|clean| == 1 || clean[0] != '0')
    ensures StripLeadingZeros(clean) == clean
  {
  }

  lemma CleanSameNumber(w: string, f: string)
    requires AllDigits(w)
    ensures TextNat(StripLeadingZeros(Lead(w)) + f) == TextNat(w + f)
  {
    TextNatStripLeading(Lead(w));
    TextNatConcat(StripLeadingZeros(Lead(w)), f);
    TextNatConcat(w, f);
    assert w == "" ==> TextNat(Lead(w)) == 0;
  }

  lemma SpellReads(w: string, point: bool, f: string)
    requires AllDigits(w) && w != "" && AllDigits(f) && (!point ==> f == "")
    ensures Reads(Spell(w, point, f, ""), StripLeadingZeros(w), point, f)
  {
    StripLeadingShape(w);
    if point {
      assert Spell(w, true, f, "") == StripLeadingZeros(w) + "." + f;
    } else {
      assert Spell(w, false, "", "") == StripLeadingZeros(w);
    }
  }

  lemma SpellDenotes(w: string, point: bool, f: string)
    requires AllDigits(w) && AllDigits(f) && (!point ==> f == "")
    ensures Mantissa(Spell(Lead(w), point, f, "")) == TextNat(w + f)
    ensures Scale(Spell(Lead(w), point, f, "")) == |f|
  {
    CleanSameNumber(w, f);
    SpellReads(Lead(w), point, f);
    ReadsDenotes(Spell(Lead(w), point, f, ""), StripLeadingZeros(Lead(w)), point, f);
  }

  lemma RespellStable(w: string, point: bool, f: string, suffix: string, options: Options)
    requires AllDigits(w) && w != "" && AllDigits(f) && options.Allows(f) && (!point ==> f == "")
    ensures NormalizeBody(Spell(w, point, f, ""), suffix, options) == Spell(w, point, f, suffix)
  {
    var clean := StripLeadingZeros(w);
    StripLeadingShape(w);
    StripStripped(clean);
    if point {
      assert Spell(w, true, f, "") == clean + "." + f;
      NormalizePoint(clean, '.', f, suffix, options);
    } else {
      assert Spell(w, false, "", "") == clean;
      NormalizeWhole(clean, suffix, options);
    }
  }

  lemma NormalizeNothing(options: Options)
    ensures Normalize("", options) == ""
  {
    assert Compact("") == "";
  }

  lemma Idempotent(value: string, options: Options)
    ensures Normalize(Normalize(value, options), options) == Normalize(value, options)
  {
    hide Compact, Spell, NormalizeBody, BodyOf, SuffixOf;
    var out := Normalize(value, options);
    if out != "" {
      var suffix := SuffixOf(Compact(value), options);
      var w, point, f := NormalizeParts(value, options);
      SuffixIsLower(Compact(value), options);
      SpellReadBack(Lead(w), point, f, suffix, options);
      RespellStable(Lead(w), point, f, suffix, options);
    } else {
      NormalizeNothing(options);
    }
  }

  lemma AmbiguousOf(w: string, f: string)
    requires AllDigits(w) && AllDigits(f)
    ensures Ambiguous(w + "," + f) <==> 1 <= |w| <= 3 && |f| == 3 && w != "0"
  {
    hide Before, After;
    var body := w + "," + f;
    CountDigits(w);
    IndexOfAt(w, ',', f);
    assert |w| > 0 ==> body[0] == w[0];
    assert body[|w|] == ',';
    assert |w| > 1 ==> body[1] == w[1];
  }

  lemma AmbiguousSplit(body: string)
    requires Ambiguous(body)
    ensures body == Before(body, ',') + "," + After(body, ',')
    ensures AllDigits(Before(body, ',')) && AllDigits(After(body, ','))
  {
    hide AllDigits;
  }

  // The ambiguous bodies are those of one to three digits, a comma and three digits, but for a
  // single zero before the comma.
  lemma AmbiguousExactly(body: string)
    ensures Ambiguous(body) <==>
            exists w: string, f: string ::
              && body == w + "," + f && AllDigits(w) && AllDigits(f)
              && 1 <= |w| <= 3 && |f| == 3 && w != "0"
  {
    hide AllDigits, Ambiguous, Before, After;
    if Ambiguous(body) {
      AmbiguousSplit(body);
      AmbiguousOf(Before(body, ','), After(body, ','));
    }
    if w: string, f: string :| body == w + "," + f && AllDigits(w) && AllDigits(f)
                               && 1 <= |w| <= 3 && |f| == 3 && w != "0" {
      AmbiguousOf(w, f);
    }
  }

  // White space anywhere in a field is ignored.
  lemma SpacesIgnored(a: string, c: char, b: string, options: Options)
    requires IsSpace(c)
    ensures Normalize(a + [c] + b, options) == Normalize(a + b, options)
  {
    hide NormalizeBody, Compact, Trim;
    CompactIs(a + [c] + b);
    CompactIs(a + b);
    RemoveSpacesJoin(a + [c], b);
    RemoveSpacesJoin(a, [c]);
    RemoveSpacesJoin(a, b);
    assert [c][1..] == "" && RemoveSpaces([c]) == RemoveSpaces("") == "";
    assert Compact(a + [c] + b) == Compact(a + b);
  }

  lemma CompactIs(value: string)
    ensures Compact(value) == RemoveSpaces(value)
  {
    hide RemoveSpaces;
    StartRemoved(value);
    EndRemoved(TrimStart(value));
  }

  lemma {:induction false} StartRemoved(s: string)
    ensures RemoveSpaces(TrimStart(s)) == RemoveSpaces(s)
  {
    if s != "" && IsSpace(s[0]) {
      StartRemoved(s[1..]);
    }
  }

  lemma {:induction false} EndRemoved(s: string)
    ensures RemoveSpaces(TrimEnd(s)) == RemoveSpaces(s)
  {
    if s != "" && IsSpace(s[|s| - 1]) {
      var front, last := s[..|s| - 1], s[|s| - 1..];
      EndRemoved(front);
      RemoveSpacesJoin(front, last);
      assert front + last == s && last[1..] == "";
    }
  }

  lemma {:induction false} RemoveSpacesJoin(a: string, b: string)
    ensures RemoveSpaces(a + b) == RemoveSpaces(a) + RemoveSpaces(b)
  {
    hide IsSpace;
    if a == "" {
      assert a + b == b;
    } else {
      var first := if IsSpace(a[0]) then "" else [a[0]];
      RemoveSpacesJoin(a[1..], b);
      assert (a + b)[1..] == a[1..] + b && (a + b)[0] == a[0];
      assert RemoveSpaces(a) == first + RemoveSpaces(a[1..]);
      assert RemoveSpaces(a + b) == first + RemoveSpaces(a[1..] + b);
    }
  }
}
