/** Sniper drafts: normalising raw wallet settings, exporting them to the form and decoding them back. */
module SniperDraft {
  import opened Common
  import opened JsText
  import opened Digits
  import opened JsValues
  import NumericInput

  const BUY_MAX_BLOCK_OFFSET: int := 37
  const SELL_MAX_BLOCK_OFFSET: int := 23

  // A wallet's settings as stored, typed or patched in.
  datatype RawWallet = RawWallet(
    selected: Js, amountSol: Js, triggerMode: Js, submitDelayMs: Js, targetBlockOffset: Js, retryOnce: Js,
    sellEnabled: Js, sellPercent: Js, sellTriggerMode: Js, sellTargetBlockOffset: Js,
    sellMarketCapThreshold: Js, sellMarketCapTimeoutSeconds: Js, sellMarketCapTimeoutAction: Js)

  const EMPTY_WALLET := RawWallet(UNDEFINED, UNDEFINED, UNDEFINED, UNDEFINED, UNDEFINED, UNDEFINED,
                                 UNDEFINED, UNDEFINED, UNDEFINED, UNDEFINED, UNDEFINED, UNDEFINED, UNDEFINED)

  datatype TriggerMode = SameTime | OnSubmit | BlockOffset {
    function Text(): string {
      match this
      case SameTime => "same-time"
      case OnSubmit => "on-submit"
      case BlockOffset => "block-offset"
    }
  }

  datatype SellTrigger = SellMarketCap | SellBlockOffset {
    function Text(): string {
      if SellMarketCap? then "market-cap" else "block-offset"
    }
  }

  datatype TimeoutAction = Sell | Stop {
    function Text(): string {
      if Sell? then "sell" else "stop"
    }
  }

  // A normalised wallet; no timeout stands for the empty string.
  datatype Wallet = Wallet(
    selected: bool, amountSol: string, triggerMode: TriggerMode, submitDelayMs: int, targetBlockOffset: int,
    retryOnce: bool, sellEnabled: bool, sellPercent: string, sellTriggerMode: SellTrigger,
    sellTargetBlockOffset: int, sellMarketCapThreshold: string, sellMarketCapTimeoutSeconds: Option<int>,
    sellMarketCapTimeoutAction: TimeoutAction)

  // A JavaScript object keyed by wallet name, in insertion order.
  type Entries<T> = seq<(string, T)>

  // An arbitrary value handed to the draft normaliser: its `wallets` may be missing, and a
  // wallet may be null.
  datatype RawDraft = NotADraft | RawDraft(enabled: Js, wallets: Option<Entries<Option<RawWallet>>>)

  datatype Draft = Draft(enabled: bool, wallets: Entries<Wallet>)

  // --- normalisers -------------------------------------------------------------------------

  // normalizeDecimalInput
  function NormalizeDecimal(value: string, maxDecimals: int): string {
    NumericInput.Normalize(value, NumericInput.Options(false, Some(maxDecimals)))
  }

  function NormalizeTriggerMode(value: Js): TriggerMode {
    var mode := Lower(Trim(value.OrEmpty()));
    if mode == "same-time" then SameTime
    else if mode == "block-offset" then BlockOffset
    else OnSubmit
  }

  function NormalizeBounded(value: Js, hi: int): (n: int)
    requires hi >= 0
    ensures 0 <= n <= hi
  {
    var numeric := value.OrZero();
    if !numeric.Fin? then 0 else RoundInto(numeric, 0, hi)
  }

  function NormalizeSellPercent(value: Js): string {
    var normalized := NormalizeDecimal(value.text, 2);
    var numeric := if normalized == "" then Fin(0.0) else ToNumber(normalized);
    if numeric.Fin? && numeric.r == numeric.r.Floor as real && 0.0 < numeric.r <= 100.0
    then NatText(numeric.r.Floor)
    else ""
  }

  function NormalizeSellTrigger(value: Js, threshold: Js): SellTrigger {
    var mode := Lower(Trim(value.OrEmpty()));
    if mode == "market-cap" then SellMarketCap
    else if mode == "block-offset" then SellBlockOffset
    else if Trim(threshold.OrEmpty()) != "" then SellMarketCap
    else SellBlockOffset
  }

  function NormalizeTimeoutSeconds(value: Js): Option<int> {
    var raw := Trim(value.text);
    var numeric := ToNumber(raw);
    if raw == "" || !numeric.Fin? then None else Some(RoundInto(numeric, 1, 86400))
  }

  function NormalizeTimeoutAction(value: Js): TimeoutAction {
    if Lower(Trim(value.OrEmpty())) == "sell" then Sell else Stop
  }

  function NormalizeWallet(entry: RawWallet): Wallet {
    Wallet(
      entry.selected.truthy,
      NormalizeDecimal(entry.amountSol.OrEmpty(), 6),
      if entry.triggerMode.truthy then NormalizeTriggerMode(entry.triggerMode) else BlockOffset,
      NormalizeBounded(entry.submitDelayMs, 1500),
      NormalizeBounded(entry.targetBlockOffset, BUY_MAX_BLOCK_OFFSET),
      entry.retryOnce.truthy,
      entry.sellEnabled.truthy,
      NormalizeSellPercent(entry.sellPercent),
      NormalizeSellTrigger(entry.sellTriggerMode, entry.sellMarketCapThreshold),
      NormalizeBounded(entry.sellTargetBlockOffset, SELL_MAX_BLOCK_OFFSET),
      Trim(entry.sellMarketCapThreshold.OrEmpty()),
      NormalizeTimeoutSeconds(entry.sellMarketCapTimeoutSeconds),
      NormalizeTimeoutAction(entry.sellMarketCapTimeoutAction))
  }

  function NormalizeWallets(wallets: Entries<Option<RawWallet>>): Entries<Wallet> {
    if wallets == [] then []
    else
      var (key, entry) := wallets[0];
      var rest := NormalizeWallets(wallets[1..]);
      if key == "" then rest
      else [(key, NormalizeWallet(if entry.Some? then entry.value else EMPTY_WALLET))] + rest
  }

  predicate HasSelected(wallets: Entries<Wallet>) {
    exists i | 0 <= i < |wallets| :: wallets[i].1.selected
  }

  function NormalizeDraft(value: RawDraft): Draft {
    var wallets := if value.RawDraft? && value.wallets.Some? then NormalizeWallets(value.wallets.value) else [];
    Draft(value.RawDraft? && value.enabled.truthy && HasSelected(wallets), wallets)
  }

  // A normalised wallet as a JavaScript object again.
  function Embed(w: Wallet): RawWallet {
    RawWallet(
      Bool(w.selected), Str(w.amountSol), Str(w.triggerMode.Text()), Int(w.submitDelayMs),
      Int(w.targetBlockOffset), Bool(w.retryOnce), Bool(w.sellEnabled), Str(w.sellPercent),
      Str(w.sellTriggerMode.Text()), Int(w.sellTargetBlockOffset), Str(w.sellMarketCapThreshold),
      if w.sellMarketCapTimeoutSeconds.Some? then Int(w.sellMarketCapTimeoutSeconds.value) else Str(""),
      Str(w.sellMarketCapTimeoutAction.Text()))
  }

  function EmbedWallets(wallets: Entries<Wallet>): Entries<RawWallet> {
    seq(|wallets|, i requires 0 <= i < |wallets| => (wallets[i].0, Embed(wallets[i].1)))
  }

  function Present(wallets: Entries<RawWallet>): Entries<Option<RawWallet>> {
    seq(|wallets|, i requires 0 <= i < |wallets| => (wallets[i].0, Some(wallets[i].1)))
  }

  function EmbedDraft(d: Draft): RawDraft {
    RawDraft(Bool(d.enabled), Some(Present(EmbedWallets(d.wallets))))
  }

  // What every normalised wallet satisfies, whatever it was made from.
  predicate InRange(w: Wallet) {
    && NormalizeDecimal(w.amountSol, 6) == w.amountSol
    && 0 <= w.submitDelayMs <= 1500
    && 0 <= w.targetBlockOffset <= BUY_MAX_BLOCK_OFFSET
    && (w.sellPercent == "" || (0 < TextNat(w.sellPercent) <= 100 && w.sellPercent == NatText(TextNat(w.sellPercent))))
    && 0 <= w.sellTargetBlockOffset <= SELL_MAX_BLOCK_OFFSET
    && Trim(w.sellMarketCapThreshold) == w.sellMarketCapThreshold
    && (w.sellMarketCapTimeoutSeconds.Some? ==> 1 <= w.sellMarketCapTimeoutSeconds.value <= 86400)
  }

  lemma SellPercentInRange(value: Js)
    ensures var p := NormalizeSellPercent(value);
            p == "" || (0 < TextNat(p) <= 100 && p == NatText(TextNat(p)))
  {
    hide NormalizeDecimal, ToNumber, TextNat, NatText;
    var normalized := NormalizeDecimal(value.text, 2);
    var numeric := if normalized == "" then Fin(0.0) else ToNumber(normalized);
    if NormalizeSellPercent(value) != "" {
      NatTextShape(numeric.r.Floor);
    }
  }

  lemma NormalizedInRange(entry: RawWallet)
    ensures InRange(NormalizeWallet(entry))
  {
    hide NormalizeDecimal, NormalizeSellPercent, NormalizeBounded, NormalizeSellTrigger, NormalizeTriggerMode,
         Trim, TextNat, NatText, ToNumber;
    DecimalStable(entry.amountSol.OrEmpty(), 6);
    SellPercentInRange(entry.sellPercent);
    TrimIdempotent(entry.sellMarketCapThreshold.OrEmpty());
  }

  lemma NormalizedSelected(raw: RawWallet)
    ensures NormalizeWallet(raw).selected == raw.selected.truthy
  {
  }

  lemma DecimalStable(value: string, maxDecimals: int)
    ensures NormalizeDecimal(NormalizeDecimal(value, maxDecimals), maxDecimals) == NormalizeDecimal(value, maxDecimals)
  {
    NumericInput.Idempotent(value, NumericInput.Options(false, Some(maxDecimals)));
  }

  lemma BoundedStable(n: int, hi: int)
    requires 0 <= n <= hi
    ensures NormalizeBounded(Int(n), hi) == n
  {
    hide IntText;
    assert (n as real).Floor == n;
  }

  lemma SellPercentStable(p: nat)
    requires 0 < p <= 100
    ensures NormalizeSellPercent(Str(NatText(p))) == NatText(p)
  {
    hide ToNumber, NatText, TextNat;
    NatTextShape(p);
    NatTextNumber(p);
    DecimalOfDigits(NatText(p));
    assert (p as real).Floor == p;
  }

  lemma DecimalOfDigits(w: string)
    requires AllDigits(w) && w != "" && (|w| == 1 || w[0] != '0')
    ensures NormalizeDecimal(w, 2) == w
  {
    hide Trim, RemoveSpaces, NumericInput.NormalizeBody, StripLeadingZeros;
    var o := NumericInput.Options(false, Some(2));
    TrimKeepsInner(w);
    RemoveSpacesNoop(w);
    NumericInput.NormalizeWhole(w, "", o);
    NumericInput.StripStripped(w);
    assert NumericInput.Spell(w, false, "", "") == w;
  }

  lemma TimeoutStable(n: int)
    requires 1 <= n <= 86400
    ensures NormalizeTimeoutSeconds(Int(n)) == Some(n)
  {
    hide ToNumber, NatText, Trim;
    NatTextShape(n);
    NatTextNumber(n);
    assert (n as real).Floor == n;
  }

  lemma ModesStable(mode: TriggerMode, trigger: SellTrigger, action: TimeoutAction, threshold: Js)
    ensures NormalizeTriggerMode(Str(mode.Text())) == mode && Str(mode.Text()).truthy
    ensures NormalizeSellTrigger(Str(trigger.Text()), threshold) == trigger
    ensures NormalizeTimeoutAction(Str(action.Text())) == action
  {
    hide NormalizeTriggerMode, NormalizeSellTrigger, NormalizeTimeoutAction, ToNumber;
    ModeStable(mode);
    TriggerStable(trigger, threshold);
    ActionStable(action);
  }

  lemma ModeStable(mode: TriggerMode)
    ensures NormalizeTriggerMode(Str(mode.Text())) == mode
  {
    hide ToNumber, Trim, Lower;
    KeywordStable(mode.Text());
  }

  lemma TriggerStable(trigger: SellTrigger, threshold: Js)
    ensures NormalizeSellTrigger(Str(trigger.Text()), threshold) == trigger
  {
    hide ToNumber, Trim, Lower;
    KeywordStable(trigger.Text());
  }

  lemma ActionStable(action: TimeoutAction)
    ensures NormalizeTimeoutAction(Str(action.Text())) == action
  {
    hide ToNumber, Trim, Lower;
    KeywordStable(action.Text());
  }

  // Normalising a normalised wallet changes nothing.
  lemma WalletStable(w: Wallet)
    requires InRange(w)
    ensures NormalizeWallet(Embed(w)) == w
  {
    hide NormalizeDecimal, NormalizeSellPercent, NormalizeBounded, NormalizeSellTrigger, NormalizeTriggerMode,
         NormalizeTimeoutSeconds, NormalizeTimeoutAction, Trim, TextNat, NatText, ToNumber, IntText;
    BoundedStable(w.submitDelayMs, 1500);
    BoundedStable(w.targetBlockOffset, BUY_MAX_BLOCK_OFFSET);
    BoundedStable(w.sellTargetBlockOffset, SELL_MAX_BLOCK_OFFSET);
    ModesStable(w.triggerMode, w.sellTriggerMode, w.sellMarketCapTimeoutAction, Str(w.sellMarketCapThreshold));
    if w.sellPercent == "" {
      EmptyFields();
    } else {
      SellPercentStable(TextNat(w.sellPercent));
    }
    if w.sellMarketCapTimeoutSeconds.Some? {
      TimeoutStable(w.sellMarketCapTimeoutSeconds.value);
    } else {
      EmptyFields();
    }
  }

  lemma EmptyFields()
    ensures NormalizeSellPercent(Str("")) == ""
    ensures NormalizeTimeoutSeconds(Str("")) == None
  {
    NumericInput.NormalizeNothing(NumericInput.Options(false, Some(2)));
  }

  lemma {:induction false} WalletsStable(wallets: Entries<Option<RawWallet>>)
    ensures NormalizeWallets(Present(EmbedWallets(NormalizeWallets(wallets)))) == NormalizeWallets(wallets)
    ensures forall i | 0 <= i < |NormalizeWallets(wallets)| ::
              NormalizeWallets(wallets)[i].0 != "" && InRange(NormalizeWallets(wallets)[i].1)
  {
    hide NormalizeWallet, Embed, InRange;
    if wallets != [] {
      WalletsStable(wallets[1..]);
      var (key, entry) := wallets[0];
      if key != "" {
        var raw := if entry.Some? then entry.value else EMPTY_WALLET;
        var w := NormalizeWallet(raw);
        NormalizedInRange(raw);
        WalletStable(w);
        var rest := NormalizeWallets(wallets[1..]);
        var all := NormalizeWallets(wallets);
        assert all == [(key, w)] + rest;
        assert Present(EmbedWallets(all))[1..] == Present(EmbedWallets(rest));
        assert Present(EmbedWallets(all))[0] == (key, Some(Embed(w)));
      }
    }
  }

  // Normalising is idempotent on arbitrary input.
  lemma DraftStable(value: RawDraft)
    ensures NormalizeDraft(EmbedDraft(NormalizeDraft(value))) == NormalizeDraft(value)
  {
    hide NormalizeWallets, EmbedWallets, Present;
    if value.RawDraft? && value.wallets.Some? {
      WalletsStable(value.wallets.value);
    } else {
      EmptyWallets();
    }
  }

  lemma EmptyWallets()
    ensures NormalizeWallets(Present(EmbedWallets([]))) == []
  {
  }

  // --- what each field comes from --------------------------------------------------------------------

  // A missing buy mode is a block offset, an unknown one on submit; a missing or unknown sell mode
  // is the market cap exactly when there is a threshold.
  lemma ModeLaw(raw: RawWallet)
    ensures !raw.triggerMode.truthy ==> NormalizeWallet(raw).triggerMode == BlockOffset
    ensures raw.triggerMode.truthy ==>
              var mode := Lower(Trim(raw.triggerMode.text));
              && (NormalizeWallet(raw).triggerMode == SameTime <==> mode == "same-time")
              && (NormalizeWallet(raw).triggerMode == BlockOffset <==> mode == "block-offset")
              && (NormalizeWallet(raw).triggerMode == OnSubmit <==> mode != "same-time" && mode != "block-offset")
    ensures var mode := if raw.sellTriggerMode.truthy then Lower(Trim(raw.sellTriggerMode.text)) else "";
            var threshold := if raw.sellMarketCapThreshold.truthy then Trim(raw.sellMarketCapThreshold.text) else "";
            && (NormalizeWallet(raw).sellTriggerMode == SellMarketCap <==>
                  mode == "market-cap" || (mode != "block-offset" && threshold != ""))
            && NormalizeWallet(raw).sellMarketCapThreshold == threshold
    ensures NormalizeWallet(raw).sellMarketCapTimeoutAction == Sell <==>
              raw.sellMarketCapTimeoutAction.truthy && Lower(Trim(raw.sellMarketCapTimeoutAction.text)) == "sell"
  {
    hide NormalizeDecimal, NormalizeSellPercent, NormalizeBounded, NormalizeTimeoutSeconds, ToNumber, Trim, Lower;
    NothingTrimmed();
  }

  lemma NothingTrimmed()
    ensures Trim("") == "" && Lower("") == ""
  {
  }

  lemma PlainFields(raw: RawWallet)
    ensures var w := NormalizeWallet(raw);
            && w.selected == raw.selected.truthy && w.retryOnce == raw.retryOnce.truthy
            && w.sellEnabled == raw.sellEnabled.truthy
            && w.amountSol == NumericInput.Normalize(if raw.amountSol.truthy then raw.amountSol.text else "",
                                                     NumericInput.Options(false, Some(6)))
  {
    hide NumericInput.Normalize;
  }

  // Whole numbers are kept within their limits.
  lemma WholeNumbers(raw: RawWallet, delay: int, buyOffset: int, sellOffset: int, seconds: int)
    requires raw.submitDelayMs == Int(delay) && raw.targetBlockOffset == Int(buyOffset)
    requires raw.sellTargetBlockOffset == Int(sellOffset)
    requires raw.sellMarketCapTimeoutSeconds == Int(seconds) && seconds >= 0
    ensures var w := NormalizeWallet(raw);
            && w.submitDelayMs == (if delay < 0 then 0 else if delay > 1500 then 1500 else delay)
            && w.targetBlockOffset == (if buyOffset < 0 then 0 else if buyOffset > 37 then 37 else buyOffset)
            && w.sellTargetBlockOffset == (if sellOffset < 0 then 0 else if sellOffset > 23 then 23 else sellOffset)
            && w.sellMarketCapTimeoutSeconds ==
               Some(if seconds < 1 then 1 else if seconds > 86400 then 86400 else seconds)
  {
    hide NormalizeDecimal, NormalizeSellPercent, NormalizeSellTrigger, NormalizeTriggerMode, ToNumber, NatText, Trim;
    NatTextShape(seconds);
    NatTextNumber(seconds);
    WholeFloor(delay);
    WholeFloor(buyOffset);
    WholeFloor(sellOffset);
    WholeFloor(seconds);
  }

  lemma WholeFloor(n: int)
    ensures (n as real).Floor == n && (n as real + 0.5).Floor == n
  {
  }

  // A sell percentage is kept if it reads as a whole number from 1 to 100, and dropped otherwise.
  lemma SellPercentLaw(raw: RawWallet)
    ensures var n := ToNumber(NumericInput.Normalize(raw.sellPercent.text, NumericInput.Options(false, Some(2))));
            var kept := NormalizeWallet(raw).sellPercent;
            if n.WholeWithin(1, 100)
            then kept != "" && ToNumber(kept) == n else kept == ""
  {
    hide NumericInput.Normalize, NormalizeBounded, NormalizeTimeoutSeconds, NormalizeSellTrigger, NormalizeTriggerMode,
         ToNumber, NatText, Trim;
    var n := ToNumber(NumericInput.Normalize(raw.sellPercent.text, NumericInput.Options(false, Some(2))));
    assert ToNumber("") == Fin(0.0) by { NothingNumber(); }
    if n.WholeWithin(1, 100) {
      NatTextShape(n.r.Floor);
      NatTextNumber(n.r.Floor);
    }
  }

  lemma NothingNumber()
    ensures ToNumber("") == Fin(0.0)
  {
    TrimKeepsInner("");
  }

  // A text that is no number, or blank, leaves the timeout empty and the bounded fields 0.
  lemma NoNumber(raw: RawWallet)
    ensures !raw.submitDelayMs.OrZero().Fin? ==> NormalizeWallet(raw).submitDelayMs == 0
    ensures !raw.targetBlockOffset.OrZero().Fin? ==> NormalizeWallet(raw).targetBlockOffset == 0
    ensures !raw.sellTargetBlockOffset.OrZero().Fin? ==> NormalizeWallet(raw).sellTargetBlockOffset == 0
    ensures NormalizeWallet(raw).sellMarketCapTimeoutSeconds == None <==>
              Trim(raw.sellMarketCapTimeoutSeconds.text) == ""
              || !ToNumber(Trim(raw.sellMarketCapTimeoutSeconds.text)).Fin?
  {
    hide NormalizeDecimal, NormalizeSellPercent, NormalizeSellTrigger, NormalizeTriggerMode, ToNumber, Trim;
  }

  // A draft keeps every wallet with a key, in order; it is on only with a selected wallet.
  lemma {:induction false} WalletsLaw(wallets: Entries<Option<RawWallet>>)
    ensures NormalizeWallets([]) == []
    ensures wallets != [] && wallets[0].0 == "" ==> NormalizeWallets(wallets) == NormalizeWallets(wallets[1..])
    ensures wallets != [] && wallets[0].0 != "" && wallets[0].1.Some? ==>
              NormalizeWallets(wallets) ==
              [(wallets[0].0, NormalizeWallet(wallets[0].1.value))] + NormalizeWallets(wallets[1..])
    ensures wallets != [] && wallets[0].0 != "" && wallets[0].1.None? ==>
              NormalizeWallets(wallets) ==
              [(wallets[0].0, NormalizeWallet(EMPTY_WALLET))] + NormalizeWallets(wallets[1..])
  {
    hide NormalizeWallet;
  }

  lemma SwitchLaw(enabled: Js, wallets: Entries<Option<RawWallet>>)
    ensures var d := NormalizeDraft(RawDraft(enabled, Some(wallets)));
            d.enabled <==> enabled.truthy && exists w | w in d.wallets :: w.1.selected
    ensures NormalizeDraft(RawDraft(enabled, None)) == Draft(false, []) == NormalizeDraft(NotADraft)
  {
    hide NormalizeWallets;
    var d := NormalizeDraft(RawDraft(enabled, Some(wallets)));
    if HasSelected(d.wallets) {
      var i :| 0 <= i < |d.wallets| && d.wallets[i].1.selected;
      assert d.wallets[i] in d.wallets;
    }
  }
}
