/** The automatic dev-sell draft: a normaliser that also reads drafts of earlier releases. */
module AutoSellDraft {
  import opened Common
  import opened JsText
  import opened Digits
  import opened JsValues
  import NumericInput
  import SniperDraft

  // A draft as stored or typed; the timeout in seconds is absent from old drafts.
  datatype RawDraft = RawDraft(
    enabled: Js, sniperEnabled: Js, percent: Js, triggerFamily: Js, triggerMode: Js, delayMs: Js, blockOffset: Js,
    marketCapEnabled: Js, marketCapThreshold: Js, marketCapScanTimeoutSeconds: Option<Js>,
    marketCapScanTimeoutMinutes: Js, marketCapTimeoutAction: Js)

  datatype Family = MarketCap | Time {
    function Text(): string {
      if MarketCap? then "market-cap" else "time"
    }
  }

  datatype Mode = SubmitDelay | BlockOffset {
    function Text(): string {
      if SubmitDelay? then "submit-delay" else "block-offset"
    }
  }

  // A normalised draft. An invalid percentage is kept as typed; no timeout is the empty string.
  datatype Draft = Draft(
    enabled: bool, sniperEnabled: bool, percent: string, triggerFamily: Family, triggerMode: Mode, delayMs: JsNum,
    blockOffset: int, marketCapEnabled: bool, marketCapThreshold: string, timeoutSeconds: Option<int>,
    timeoutAction: SniperDraft.TimeoutAction)

  function NormalizeFamily(text: string): Family {
    if Lower(Trim(text)) == "market-cap" then MarketCap else Time
  }

  function NormalizeMode(value: Js): Mode {
    if Lower(Trim(value.OrEmpty())) == "submit-delay" then SubmitDelay else BlockOffset
  }

  function FamilyOf(value: RawDraft): Family {
    if value.triggerFamily.truthy then NormalizeFamily(value.triggerFamily.text)
    else if value.marketCapEnabled.truthy || Trim(value.marketCapThreshold.OrEmpty()) != "" then MarketCap
    else Time
  }

  function TimeoutOf(value: RawDraft): Option<int> {
    if value.marketCapScanTimeoutSeconds.Some? then
      var explicit := Trim(value.marketCapScanTimeoutSeconds.value.text);
      if explicit == "" then None
      else Some(RoundInto(ToNumber(explicit).Or(Fin(30.0)), 1, 86400))
    else
      var minutes := Trim(value.marketCapScanTimeoutMinutes.OrEmpty());
      if minutes == "" then Some(30)
      else Some(RoundInto(Times60(ToNumber(minutes).Or(Fin(15.0))), 1, 86400))
  }

  function Times60(n: JsNum): JsNum {
    if n.Fin? then Fin(n.r * 60.0) else n
  }

  function PercentOf(percent: Js): string {
    var raw := if percent.nullish then "" else Trim(percent.text);
    var normalized := if raw == "" then "100" else SniperDraft.NormalizeDecimal(raw, 2);
    var number := ToNumber(normalized);
    var text := if number.Fin? && number.r == number.r.Floor as real && 0.0 < number.r <= 100.0
                then NatText(number.r.Floor) else raw;
    if text == "" then "100" else text
  }

  // Math.max(0, n)
  function AtLeastZero(n: JsNum): JsNum {
    match n
    case NegInf => Fin(0.0)
    case Fin(r) => Fin(if r > 0.0 then r else 0.0)
    case _ => n
  }

  function NormalizeSome(value: RawDraft): Draft {
    var family := FamilyOf(value);
    Draft(
      value.enabled.truthy, value.sniperEnabled.truthy, PercentOf(value.percent), family,
      NormalizeMode(value.triggerMode),
      AtLeastZero(value.delayMs.OrZero().Or(Fin(0.0))),
      RoundInto(value.blockOffset.OrZero().Or(Fin(0.0)), 0, 23),
      family.MarketCap? || value.marketCapEnabled.truthy,
      Trim(value.marketCapThreshold.OrEmpty()), TimeoutOf(value),
      SniperDraft.NormalizeTimeoutAction(value.marketCapTimeoutAction))
  }

  // normalizeAutoSellDraft; None is a value that is no object.
  function Normalize(value: Option<RawDraft>): Option<Draft> {
    if value.None? then None else Some(NormalizeSome(value.value))
  }

  function Embed(d: Draft): RawDraft {
    EmbedWithDelay(d, Num(d.delayMs, DelayText(d.delayMs)))
  }

  // The text of a delay is never read back; any rendering will do.
  function DelayText(n: JsNum): string {
    if n.Fin? then IntText(n.r.Floor) else "Infinity"
  }

  function EmbedWithDelay(d: Draft, delay: Js): RawDraft {
    RawDraft(
      Bool(d.enabled), Bool(d.sniperEnabled), Str(d.percent), Str(d.triggerFamily.Text()), Str(d.triggerMode.Text()),
      delay, Int(d.blockOffset), Bool(d.marketCapEnabled), Str(d.marketCapThreshold),
      Some(if d.timeoutSeconds.Some? then Int(d.timeoutSeconds.value) else Str("")), UNDEFINED,
      Str(d.timeoutAction.Text()))
  }

  // A draft after JSON.stringify and JSON.parse, which turn an infinite number into null.
  function ThroughJson(d: Draft): RawDraft {
    if d.delayMs.Fin? then Embed(d) else EmbedWithDelay(d, Js(false, true, "", Fin(0.0)))
  }

  // What every normalised draft satisfies.
  predicate Settled(d: Draft) {
    && d.percent != "" && PercentOf(Str(d.percent)) == d.percent
    && (d.delayMs.PosInf? || (d.delayMs.Fin? && d.delayMs.r >= 0.0))
    && 0 <= d.blockOffset <= 23
    && (d.triggerFamily.MarketCap? ==> d.marketCapEnabled)
    && Trim(d.marketCapThreshold) == d.marketCapThreshold
    && (d.timeoutSeconds.Some? ==> 1 <= d.timeoutSeconds.value <= 86400)
  }

  lemma CanonicalPercent(p: nat)
    requires 0 < p <= 100
    ensures PercentOf(Str(NatText(p))) == NatText(p)
  {
    hide ToNumber, NatText, TextNat, Trim, SniperDraft.NormalizeDecimal;
    NatTextShape(p);
    NatTextNumber(p);
    SniperDraft.DecimalOfDigits(NatText(p));
    assert (p as real).Floor == p;
  }

  // A percentage is settled after one pass: valid ones canonical, invalid ones as trimmed text.
  lemma PercentStable(percent: Js)
    ensures PercentOf(percent) != "" && PercentOf(Str(PercentOf(percent))) == PercentOf(percent)
  {
    hide ToNumber, NatText, Trim, SniperDraft.NormalizeDecimal;
    var raw := if percent.nullish then "" else Trim(percent.text);
    var normalized := if raw == "" then "100" else SniperDraft.NormalizeDecimal(raw, 2);
    var number := ToNumber(normalized);
    TrimIdempotent(percent.text);
    if number.Fin? && number.r == number.r.Floor as real && 0.0 < number.r <= 100.0 {
      NatTextShape(number.r.Floor);
      CanonicalPercent(number.r.Floor);
    } else {
      HundredIsValid();
    }
  }

  lemma HundredIsValid()
    ensures ToNumber("100") == Fin(100.0) && (100.0 as real).Floor == 100 && NatText(100) == "100"
  {
    hide ToNumber;
    assert NatText(1) == "1" && NatText(10) == "10" && NatText(100) == "100";
    NatTextNumber(100);
  }

  lemma NormalizedSettled(value: RawDraft)
    ensures Settled(NormalizeSome(value))
  {
    hide PercentOf, Trim, Lower, ToNumber;
    PercentStable(value.percent);
    TrimIdempotent(value.marketCapThreshold.OrEmpty());
  }

  lemma TextsStable(d: Draft)
    ensures NormalizeFamily(d.triggerFamily.Text()) == d.triggerFamily && d.triggerFamily.Text() != ""
    ensures NormalizeMode(Str(d.triggerMode.Text())) == d.triggerMode
  {
    hide ToNumber, Trim, Lower;
    KeywordStable(d.triggerFamily.Text());
    KeywordStable(d.triggerMode.Text());
  }

  lemma TimeoutStable(d: Draft)
    requires Settled(d)
    ensures TimeoutOf(EmbedWithDelay(d, UNDEFINED)) == d.timeoutSeconds
  {
    hide ToNumber, NatText, Trim, PercentOf;
    TrimKeepsInner("");
    if d.timeoutSeconds.Some? {
      var n := d.timeoutSeconds.value;
      NatTextShape(n);
      NatTextNumber(n);
      assert (n as real).Floor == n;
    }
  }

  lemma SettledStable(d: Draft, delay: Js)
    requires Settled(d)
    ensures NormalizeSome(EmbedWithDelay(d, delay)) ==
            d.(delayMs := AtLeastZero(delay.OrZero().Or(Fin(0.0))))
  {
    hide ToNumber, NatText, IntText, Trim, PercentOf, NormalizeFamily, NormalizeMode,
         SniperDraft.NormalizeTimeoutAction;
    TextsStable(d);
    TimeoutStable(d);
    assert TimeoutOf(EmbedWithDelay(d, delay)) == TimeoutOf(EmbedWithDelay(d, UNDEFINED));
    SniperDraft.ActionStable(d.timeoutAction);
    assert (d.blockOffset as real).Floor == d.blockOffset;
  }

  // Normalising is idempotent on arbitrary input, drafts of earlier releases included.
  lemma DraftStable(value: Option<RawDraft>)
    ensures var d := Normalize(value);
            d.Some? ==> Normalize(Some(Embed(d.value))) == d
  {
    hide NormalizeSome, EmbedWithDelay, PercentOf;
    if value.Some? {
      var d := NormalizeSome(value.value);
      NormalizedSettled(value.value);
      SettledStable(d, Num(d.delayMs, DelayText(d.delayMs)));
    }
  }

  lemma FiniteDelay(value: RawDraft)
    ensures NormalizeSome(value).delayMs.Fin? <==> !value.delayMs.OrZero().PosInf?
  {
    hide PercentOf, TimeoutOf, FamilyOf, NormalizeMode;
  }

  // A normalised draft survives the draft store exactly when its delay is finite - when the raw
  // delay did not read as infinity; storing turns an infinite delay into none.
  lemma DraftSurvivesStore(value: RawDraft)
    ensures var d := NormalizeSome(value);
            && (NormalizeSome(ThroughJson(d)) == d <==> d.delayMs.Fin?)
            && (d.delayMs.Fin? <==> !value.delayMs.OrZero().PosInf?)
            && (!d.delayMs.Fin? ==> NormalizeSome(ThroughJson(d)) == d.(delayMs := Fin(0.0)))
  {
    hide NormalizeSome, EmbedWithDelay, PercentOf;
    var d := NormalizeSome(value);
    NormalizedSettled(value);
    SettledStable(d, Num(d.delayMs, DelayText(d.delayMs)));
    SettledStable(d, Js(false, true, "", Fin(0.0)));
    FiniteDelay(value);
  }

  // Such a delay arrives as text.
  lemma InfiniteDelay(value: RawDraft)
    requires value.delayMs == Str("Infinity")
    ensures NormalizeSome(value).delayMs.PosInf?
  {
    hide PercentOf, TimeoutOf, FamilyOf, NormalizeMode;
    assert ToNumber("Infinity") == PosInf;
  }

  // The draft of an earlier release keeps its timeout, in seconds, up to a day.
  lemma LegacyMinutes(value: RawDraft, minutes: nat)
    requires value.marketCapScanTimeoutSeconds.None?
    requires value.marketCapScanTimeoutMinutes.truthy && value.marketCapScanTimeoutMinutes.text == NatText(minutes)
    ensures NormalizeSome(value).timeoutSeconds ==
            Some(if minutes == 0 then 900 else if minutes <= 1440 then 60 * minutes else 86400)
  {
    hide ToNumber, NatText, PercentOf, FamilyOf, NormalizeMode, AtLeastZero, RoundInto;
    NatTextShape(minutes);
    NatTextNumber(minutes);
    var seconds := if minutes == 0 then 900 else 60 * minutes;
    assert (if minutes == 0 then 15.0 else minutes as real) * 60.0 == seconds as real;
    WholeClamped(seconds);
  }

  lemma WholeClamped(seconds: nat)
    requires seconds > 0
    ensures RoundInto(Fin(seconds as real), 1, 86400) == if seconds <= 86400 then seconds else 86400
  {
    assert (seconds as real).Floor == seconds && (seconds as real + 0.5).Floor == seconds;
  }

  // --- what each field comes from --------------------------------------------------------------------

  // A draft without a family is about the market cap exactly when that was switched on or has a
  // threshold; one with a family is what it says, anything but "market-cap" meaning time.
  lemma FamilyLaw(value: RawDraft)
    ensures !value.triggerFamily.truthy ==>
              (NormalizeSome(value).triggerFamily == MarketCap <==>
                 value.marketCapEnabled.truthy
                 || (value.marketCapThreshold.truthy && Trim(value.marketCapThreshold.text) != ""))
    ensures value.triggerFamily.truthy ==>
              (NormalizeSome(value).triggerFamily == MarketCap <==>
                 Lower(Trim(value.triggerFamily.text)) == "market-cap")
    ensures NormalizeSome(value).marketCapEnabled <==>
              NormalizeSome(value).triggerFamily == MarketCap || value.marketCapEnabled.truthy
    ensures NormalizeSome(value).triggerMode == SubmitDelay <==>
              value.triggerMode.truthy && Lower(Trim(value.triggerMode.text)) == "submit-delay"
    ensures NormalizeSome(value).timeoutAction == SniperDraft.Sell <==>
              value.marketCapTimeoutAction.truthy && Lower(Trim(value.marketCapTimeoutAction.text)) == "sell"
    ensures var d := NormalizeSome(value);
            && Embed(d).triggerFamily == Str(if d.triggerFamily.MarketCap? then "market-cap" else "time")
            && Embed(d).triggerMode == Str(if d.triggerMode.SubmitDelay? then "submit-delay" else "block-offset")
  {
    hide PercentOf, TimeoutOf, Trim, Lower;
    NothingKeyed();
  }

  lemma NothingKeyed()
    ensures Trim("") == "" && Lower("") == ""
  {
  }

  // Every object normalises; its switches and its threshold are kept as they are.
  lemma PlainFields(value: RawDraft)
    ensures Normalize(Some(value)) == Some(NormalizeSome(value)) && Normalize(None) == None
    ensures var d := NormalizeSome(value);
            && d.enabled == value.enabled.truthy && d.sniperEnabled == value.sniperEnabled.truthy
            && d.marketCapThreshold ==
               (if value.marketCapThreshold.truthy then Trim(value.marketCapThreshold.text) else "")
  {
    hide PercentOf, TimeoutOf, Trim, Lower, FamilyOf;
    NothingKeyed();
  }

  // A whole number given as the offset, delay or timeout is kept within its limits.
  lemma WholeNumbers(value: RawDraft, offset: int, delay: int, seconds: int)
    requires value.blockOffset == Int(offset) && value.delayMs == Int(delay)
    requires value.marketCapScanTimeoutSeconds == Some(Int(seconds)) && seconds > 0
    ensures var d := NormalizeSome(value);
            && d.blockOffset == (if offset < 0 then 0 else if offset > 23 then 23 else offset)
            && d.delayMs == Fin(if delay < 0 then 0.0 else delay as real)
            && d.timeoutSeconds == Some(if seconds > 86400 then 86400 else seconds)
  {
    hide PercentOf, FamilyOf, NormalizeMode, ToNumber, NatText, Trim;
    NatTextShape(seconds);
    NatTextNumber(seconds);
    assert (offset as real).Floor == offset && (offset as real + 0.5).Floor == offset;
    assert (seconds as real).Floor == seconds && (seconds as real + 0.5).Floor == seconds;
  }

  // Without a timeout of either kind it is 30 seconds; an empty one in seconds stays empty.
  lemma MissingTimeout(value: RawDraft)
    ensures value.marketCapScanTimeoutSeconds.None?
            && (!value.marketCapScanTimeoutMinutes.truthy || Trim(value.marketCapScanTimeoutMinutes.text) == "") ==>
              NormalizeSome(value).timeoutSeconds == Some(30)
    ensures value.marketCapScanTimeoutSeconds.Some? ==>
              (NormalizeSome(value).timeoutSeconds == None <==>
                 Trim(value.marketCapScanTimeoutSeconds.value.text) == "")
  {
    hide PercentOf, FamilyOf, NormalizeMode, ToNumber, Trim;
    NothingKeyed();
  }

  // A whole percentage from 1 to 100 is kept; a missing or blank one is 100; any other text stays
  // as typed, trimmed.
  lemma PercentLaw(value: RawDraft)
    ensures value.percent.nullish || Trim(value.percent.text) == "" ==> NormalizeSome(value).percent == "100"
    ensures !value.percent.nullish && Trim(value.percent.text) != "" ==>
              var typed := Trim(value.percent.text);
              var n := ToNumber(NumericInput.Normalize(typed, NumericInput.Options(false, Some(2))));
              if n.WholeWithin(1, 100)
              then ToNumber(NormalizeSome(value).percent) == n
              else NormalizeSome(value).percent == typed
  {
    hide FamilyOf, NormalizeMode, TimeoutOf, ToNumber, NatText, Trim, NumericInput.Normalize;
    HundredIsValid();
    if !value.percent.nullish && Trim(value.percent.text) != "" {
      var n := ToNumber(NumericInput.Normalize(Trim(value.percent.text), NumericInput.Options(false, Some(2))));
      if n.WholeWithin(1, 100) {
        NatTextShape(n.r.Floor);
        NatTextNumber(n.r.Floor);
      }
    }
  }
}
