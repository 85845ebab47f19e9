/** The sniper form: exporting the working draft, and decoding an exported form back into a draft. */
module SniperForm {
  import opened Common
  import opened JsText
  import opened Digits
  import opened JsValues
  import opened SniperDraft

  // The draft being edited; its wallets hold whatever was last patched in.
  datatype Working = Working(enabled: bool, wallets: Entries<RawWallet>)

  // null, the empty string, or a number of seconds.
  datatype ExportedTimeout = NullTimeout | EmptyTimeout | Seconds(n: int)

  datatype Exported = Exported(
    envKey: string, amountSol: string, triggerMode: TriggerMode, submitWithLaunch: bool, submitDelayMs: int,
    targetBlockOffset: Option<int>, retryOnce: bool, sellEnabled: bool, sellPercent: Option<int>,
    sellTriggerMode: SellTrigger, sellTargetBlockOffset: Option<int>, sellMarketCapThreshold: string,
    sellMarketCapTimeoutSeconds: ExportedTimeout, sellMarketCapTimeoutAction: TimeoutAction)
  {
    function Amount(): JsNum {
      ToNumber(amountSol)
    }
  }

  datatype Strategy = NoStrategy | SnipeOwnLaunch

  datatype Form = Form(enabled: bool, entries: seq<Exported>, strategy: Strategy)

  predicate HasKey<T>(entries: Entries<T>, key: string) {
    exists i | 0 <= i < |entries| :: entries[i].0 == key
  }

  predicate DistinctKeys<T>(entries: Entries<T>) {
    forall i, j | 0 <= i < j < |entries| :: entries[i].0 != entries[j].0
  }

  // object[key] = value
  function Put<T>(entries: Entries<T>, key: string, value: T): Entries<T> {
    if entries == [] then [(key, value)]
    else if entries[0].0 == key then [(key, value)] + entries[1..]
    else [entries[0]] + Put(entries[1..], key, value)
  }

  // object[key] || fallback
  function Get<T>(entries: Entries<T>, key: string, fallback: T): T {
    if entries == [] then fallback
    else if entries[0].0 == key then entries[0].1
    else Get(entries[1..], key, fallback)
  }

  // --- exporting -----------------------------------------------------------------------------

  function ExportWallet(key: string, w: Wallet): Exported {
    var percent := if w.sellPercent == "" then 0 else TextNat(w.sellPercent);
    var sellEnabled := w.sellEnabled && percent > 0;
    var marketCap := sellEnabled && w.sellTriggerMode.SellMarketCap?;
    Exported(
      key, w.amountSol, w.triggerMode, w.triggerMode.SameTime?,
      if w.triggerMode.OnSubmit? then w.submitDelayMs else 0,
      if w.triggerMode.BlockOffset? then Some(w.targetBlockOffset) else None,
      w.triggerMode.SameTime? && w.retryOnce,
      sellEnabled, if sellEnabled then Some(percent) else None, w.sellTriggerMode,
      if sellEnabled && w.sellTriggerMode.SellBlockOffset? then Some(w.sellTargetBlockOffset) else None,
      if marketCap then w.sellMarketCapThreshold else "",
      if !marketCap then NullTimeout
      else if w.sellMarketCapTimeoutSeconds.None? then EmptyTimeout
      else Seconds(w.sellMarketCapTimeoutSeconds.value),
      if marketCap then w.sellMarketCapTimeoutAction else Stop)
  }

  // getSelectedEntries
  function SelectedEntries(wallets: Entries<RawWallet>): seq<Exported> {
    if wallets == [] then []
    else
      var rest := SelectedEntries(wallets[1..]);
      if wallets[0].1.selected.truthy then [ExportWallet(wallets[0].0, NormalizeWallet(wallets[0].1))] + rest
      else rest
  }

  function WithPositiveAmount(entries: seq<Exported>): seq<Exported> {
    if entries == [] then []
    else (if entries[0].Amount().Positive() then [entries[0]] else []) + WithPositiveAmount(entries[1..])
  }

  // applyStateToForm
  function FormOf(state: Working): Form {
    var entries := WithPositiveAmount(SelectedEntries(state.wallets));
    Form(state.enabled, entries, if state.enabled && entries != [] then SnipeOwnLaunch else NoStrategy)
  }

  // The form lists, in order, the export of every selected wallet whose amount is above zero.
  lemma {:induction false} FormLaw(wallets: Entries<RawWallet>)
    ensures WithPositiveAmount(SelectedEntries([])) == []
    ensures wallets != [] ==>
              var (key, raw) := wallets[0];
              var amount := ToNumber(NormalizeWallet(raw).amountSol);
              WithPositiveAmount(SelectedEntries(wallets)) ==
              (if raw.selected.truthy && (amount.PosInf? || (amount.Fin? && amount.r > 0.0))
               then [ExportWallet(key, NormalizeWallet(raw))] else [])
              + WithPositiveAmount(SelectedEntries(wallets[1..]))
  {
    hide NormalizeWallet, ToNumber, ExportWallet;
    assert SelectedEntries([]) == [] && WithPositiveAmount([]) == [];
    if wallets != [] {
      var (key, raw) := wallets[0];
      var e := ExportWallet(key, NormalizeWallet(raw));
      var rest := SelectedEntries(wallets[1..]);
      assert e.amountSol == NormalizeWallet(raw).amountSol by { ExportedAmount(key, NormalizeWallet(raw)); }
      if raw.selected.truthy {
        assert SelectedEntries(wallets) == [e] + rest && ([e] + rest)[1..] == rest;
      }
    }
  }

  lemma ExportedAmount(key: string, w: Wallet)
    ensures ExportWallet(key, w).envKey == key && ExportWallet(key, w).amountSol == w.amountSol
  {
  }

  // --- decoding ------------------------------------------------------------------------------

  // One step of the reduce in hydrateModeActionState.
  function DecodeEntry(e: Exported): RawWallet {
    RawWallet(
      Bool(true),
      Str(e.amountSol),
      Str(if e.targetBlockOffset.Some? then "block-offset"
          else if e.submitWithLaunch then "same-time"
          else "on-submit"),
      Int(e.submitDelayMs),
      if e.targetBlockOffset.Some? then Int(e.targetBlockOffset.value) else UNDEFINED,
      Bool(e.retryOnce),
      Bool(e.sellEnabled),
      if e.sellPercent.Some? then Str(IntText(e.sellPercent.value)) else Str(""),
      Str(if e.sellTriggerMode.SellMarketCap? then "market-cap" else "block-offset"),
      if e.sellTargetBlockOffset.Some? then Int(e.sellTargetBlockOffset.value) else Int(0),
      Str(e.sellMarketCapThreshold),
      match e.sellMarketCapTimeoutSeconds
      case NullTimeout => Int(30)
      case EmptyTimeout => Int(0)
      case Seconds(n) => Int(n),
      Str(if e.sellMarketCapTimeoutAction.Sell? then "sell" else "stop"))
  }

  function DecodeAll(entries: seq<Exported>): Entries<RawWallet> {
    if entries == [] then []
    else
      var e := entries[|entries| - 1];
      var decoded := DecodeAll(entries[..|entries| - 1]);
      if e.envKey == "" then decoded else Put(decoded, e.envKey, DecodeEntry(e))
  }

  // setState: the normalised draft becomes the working state.
  function SetState(value: RawDraft): Working {
    var d := NormalizeDraft(value);
    Working(d.enabled, EmbedWallets(d.wallets))
  }

  // hydrateModeActionState, when only the form is there to restore from.
  function Hydrate(form: Form): Working {
    SetState(RawDraft(Bool(form.enabled), Some(Present(DecodeAll(form.entries)))))
  }

  // --- one wallet through the codec -------------------------------------------------------------

  // The decoder reads a missing timeout as 0, which the normaliser raises to 1.
  function Repaired(e: Exported): Exported {
    if e.sellMarketCapTimeoutSeconds.EmptyTimeout? then e.(sellMarketCapTimeoutSeconds := Seconds(1)) else e
  }

  lemma TimeoutOfZero()
    ensures NormalizeTimeoutSeconds(Int(0)) == Some(1)
  {
    hide Trim, ToNumber, NatText;
    NatTextShape(0);
    NatTextNumber(0);
  }

  lemma DecodedTimeout(t: ExportedTimeout)
    requires t.Seconds? ==> 1 <= t.n <= 86400
    ensures NormalizeTimeoutSeconds(
              match t case NullTimeout => Int(30) case EmptyTimeout => Int(0) case Seconds(n) => Int(n)) ==
            match t case NullTimeout => Some(30) case EmptyTimeout => Some(1) case Seconds(n) => Some(n)
  {
    hide NormalizeTimeoutSeconds, IntText;
    TimeoutOfZero();
    TimeoutStable(30);
    if t.Seconds? {
      TimeoutStable(t.n);
    }
  }

  lemma UndefinedOffset(hi: int)
    requires hi >= 0
    ensures NormalizeBounded(UNDEFINED, hi) == 0
  {
    assert (0.0 as real).Floor == 0;
  }

  // The normalised form of a decoded entry, field by field.
  lemma DecodedWallet(e: Exported, w: Wallet)
    requires InRange(w) && e == ExportWallet(e.envKey, w)
    ensures NormalizeWallet(DecodeEntry(e)) ==
            Wallet(true, w.amountSol, w.triggerMode, e.submitDelayMs,
                   if e.targetBlockOffset.Some? then e.targetBlockOffset.value else 0,
                   e.retryOnce, e.sellEnabled,
                   if e.sellEnabled then w.sellPercent else "",
                   w.sellTriggerMode,
                   if e.sellTargetBlockOffset.Some? then e.sellTargetBlockOffset.value else 0,
                   e.sellMarketCapThreshold,
                   match e.sellMarketCapTimeoutSeconds
                   case NullTimeout => Some(30) case EmptyTimeout => Some(1) case Seconds(n) => Some(n),
                   e.sellMarketCapTimeoutAction)
  {
    hide NormalizeDecimal, NormalizeSellPercent, NormalizeBounded, NormalizeSellTrigger, NormalizeTriggerMode,
         NormalizeTimeoutSeconds, NormalizeTimeoutAction, Trim, TextNat, NatText, ToNumber;
    BoundedStable(e.submitDelayMs, 1500);
    BoundedStable(0, SELL_MAX_BLOCK_OFFSET);
    BoundedStable(w.targetBlockOffset, BUY_MAX_BLOCK_OFFSET);
    BoundedStable(w.sellTargetBlockOffset, SELL_MAX_BLOCK_OFFSET);
    UndefinedOffset(BUY_MAX_BLOCK_OFFSET);
    ModesStable(w.triggerMode, w.sellTriggerMode, e.sellMarketCapTimeoutAction, Str(e.sellMarketCapThreshold));
    DecodedTimeout(e.sellMarketCapTimeoutSeconds);
    EmptyFields();
    TrimKeepsInner("");
    if e.sellEnabled {
      SellPercentStable(TextNat(w.sellPercent));
    }
  }

  lemma ReexportWallet(e: Exported, w: Wallet)
    requires InRange(w) && e == ExportWallet(e.envKey, w)
    ensures ExportWallet(e.envKey, NormalizeWallet(DecodeEntry(e))) == Repaired(e)
    ensures InRange(NormalizeWallet(DecodeEntry(e))) && NormalizeWallet(DecodeEntry(e)).selected
  {
    hide NormalizeWallet, DecodeEntry, InRange, TextNat;
    DecodedWallet(e, w);
    NormalizedInRange(DecodeEntry(e));
  }

  // --- the whole form through the codec -----------------------------------------------------------

  ghost predicate FromWallet(e: Exported) {
    e.Amount().Positive() && exists w: Wallet :: InRange(w) && e == ExportWallet(e.envKey, w)
  }

  predicate DistinctEntryKeys(entries: seq<Exported>) {
    forall i, j | 0 <= i < j < |entries| :: entries[i].envKey != entries[j].envKey
  }

  lemma {:induction false} SelectedFromWallets(wallets: Entries<RawWallet>)
    ensures forall i | 0 <= i < |WithPositiveAmount(SelectedEntries(wallets))| ::
              FromWallet(WithPositiveAmount(SelectedEntries(wallets))[i])
              && HasKey(wallets, WithPositiveAmount(SelectedEntries(wallets))[i].envKey)
  {
    hide NormalizeWallet, ExportWallet, InRange;
    if wallets != [] {
      SelectedFromWallets(wallets[1..]);
      var (key, raw) := wallets[0];
      var e := ExportWallet(key, NormalizeWallet(raw));
      NormalizedInRange(raw);
      KeyOfExport(key, NormalizeWallet(raw));
      assert wallets[0].0 == key;
      forall k | HasKey(wallets[1..], k) ensures HasKey(wallets, k) {
        var i :| 0 <= i < |wallets[1..]| && wallets[1..][i].0 == k;
        assert wallets[i + 1].0 == k;
      }
    }
  }

  lemma KeyOfExport(key: string, w: Wallet)
    ensures ExportWallet(key, w).envKey == key
  {
  }

  lemma {:induction false} SelectedDistinct(wallets: Entries<RawWallet>)
    requires DistinctKeys(wallets)
    ensures DistinctEntryKeys(WithPositiveAmount(SelectedEntries(wallets)))
  {
    hide NormalizeWallet, ExportWallet, FromWallet;
    if wallets != [] {
      SelectedDistinct(wallets[1..]);
      SelectedFromWallets(wallets[1..]);
      KeyOfExport(wallets[0].0, NormalizeWallet(wallets[0].1));
    }
  }

  // Without repeated keys the reduce just lists the entries that have a key.
  function DecodeList(entries: seq<Exported>): Entries<RawWallet> {
    if entries == [] then [] else DecodeKeyed(entries[0]) + DecodeList(entries[1..])
  }

  function DecodeKeyed(e: Exported): Entries<RawWallet> {
    if e.envKey == "" then [] else [(e.envKey, DecodeEntry(e))]
  }

  lemma {:induction false} DecodeListAppend(entries: seq<Exported>, e: Exported)
    ensures DecodeList(entries + [e]) == DecodeList(entries) + DecodeKeyed(e)
  {
    hide DecodeKeyed;
    if entries == [] {
      assert entries + [e] == [e] && [e][1..] == [];
      assert DecodeList([e]) == DecodeKeyed(e) + DecodeList([]);
    } else {
      DecodeListAppend(entries[1..], e);
      assert (entries + [e])[1..] == entries[1..] + [e];
    }
  }

  lemma {:induction false} PutAbsent<T>(entries: Entries<T>, key: string, value: T)
    requires !HasKey(entries, key)
    ensures Put(entries, key, value) == entries + [(key, value)]
  {
    if entries != [] {
      assert entries[0].0 != key;
      assert forall i | 0 <= i < |entries[1..]| :: entries[1..][i] == entries[i + 1];
      PutAbsent(entries[1..], key, value);
    }
  }

  lemma {:induction false} DecodeListKeys(entries: seq<Exported>, key: string)
    requires HasKey(DecodeList(entries), key)
    ensures exists i | 0 <= i < |entries| :: entries[i].envKey == key
  {
    hide DecodeEntry;
    var i :| 0 <= i < |DecodeList(entries)| && DecodeList(entries)[i].0 == key;
    if entries[0].envKey != key {
      var j := if entries[0].envKey == "" then i else i - 1;
      assert DecodeList(entries[1..])[j].0 == key;
      DecodeListKeys(entries[1..], key);
      var k :| 0 <= k < |entries[1..]| && entries[1..][k].envKey == key;
      assert entries[k + 1].envKey == key;
    }
  }

  lemma {:induction false} DecodeAllIsList(entries: seq<Exported>)
    requires DistinctEntryKeys(entries)
    ensures DecodeAll(entries) == DecodeList(entries)
  {
    hide DecodeEntry;
    if entries != [] {
      var n := |entries| - 1;
      var head, e := entries[..n], entries[n];
      DecodeAllIsList(head);
      DecodeListAppend(head, e);
      assert head + [e] == entries;
      if HasKey(DecodeList(head), e.envKey) {
        DecodeListKeys(head, e.envKey);
      }
      if e.envKey != "" {
        PutAbsent(DecodeList(head), e.envKey, DecodeEntry(e));
      }
    }
  }

  function RepairedEntries(entries: seq<Exported>): seq<Exported> {
    if entries == [] then []
    else (if entries[0].envKey == "" then [] else [Repaired(entries[0])]) + RepairedEntries(entries[1..])
  }

  function Reload(wallets: Entries<RawWallet>): Entries<RawWallet> {
    EmbedWallets(NormalizeWallets(Present(wallets)))
  }

  lemma ReloadNothing()
    ensures Reload([]) == []
  {
    EmptyWallets();
  }

  lemma ReloadCons(key: string, raw: RawWallet, rest: Entries<RawWallet>)
    requires key != ""
    ensures Reload([(key, raw)] + rest) == [(key, Embed(NormalizeWallet(raw)))] + Reload(rest)
  {
    hide NormalizeWallet, Embed;
    var all := Present([(key, raw)] + rest);
    assert all[0] == (key, Some(raw)) && all[1..] == Present(rest);
  }

  lemma {:induction false} ReloadDecoded(entries: seq<Exported>)
    requires forall i | 0 <= i < |entries| :: FromWallet(entries[i])
    ensures WithPositiveAmount(SelectedEntries(Reload(DecodeList(entries)))) == RepairedEntries(entries)
    ensures |SelectedEntries(Reload(DecodeList(entries)))| == |RepairedEntries(entries)|
  {
    hide NormalizeWallet, Embed, DecodeEntry, ExportWallet, InRange, Reload, ToNumber;
    if entries == [] {
      ReloadNothing();
    } else {
      ReloadDecoded(entries[1..]);
      var e := entries[0];
      var tail := DecodeList(entries[1..]);
      if e.envKey == "" {
        assert DecodeList(entries) == tail;
      } else {
        var w: Wallet :| InRange(w) && e == ExportWallet(e.envKey, w);
        ReexportWallet(e, w);
        var again := NormalizeWallet(DecodeEntry(e));
        WalletStable(again);
        EmbedSelected(again);
        ReloadCons(e.envKey, DecodeEntry(e), tail);
        SelectedCons(e.envKey, Embed(again), Reload(tail));
        assert Repaired(e).Amount() == e.Amount();
        PositiveCons(Repaired(e), SelectedEntries(Reload(tail)));
      }
    }
  }

  lemma EmbedSelected(w: Wallet)
    ensures Embed(w).selected.truthy == w.selected
  {
  }

  lemma SelectedCons(key: string, raw: RawWallet, rest: Entries<RawWallet>)
    requires raw.selected.truthy
    ensures SelectedEntries([(key, raw)] + rest) == [ExportWallet(key, NormalizeWallet(raw))] + SelectedEntries(rest)
  {
    assert ([(key, raw)] + rest)[1..] == rest;
  }

  lemma PositiveCons(e: Exported, rest: seq<Exported>)
    requires e.Amount().Positive()
    ensures WithPositiveAmount([e] + rest) == [e] + WithPositiveAmount(rest)
  {
    assert ([e] + rest)[1..] == rest;
  }

  // Restoring a form keeps an entry exactly when it has a key and its timeout is not empty.
  predicate Survives(e: Exported) {
    e.envKey != "" && !e.sellMarketCapTimeoutSeconds.EmptyTimeout?
  }

  lemma {:induction false} RepairedLength(entries: seq<Exported>)
    ensures |RepairedEntries(entries)| <= |entries|
    ensures RepairedEntries(entries) == entries <==> forall i | 0 <= i < |entries| :: Survives(entries[i])
  {
    if entries != [] {
      RepairedLength(entries[1..]);
      assert entries == [entries[0]] + entries[1..];
      if RepairedEntries(entries) == entries {
        assert entries[0].envKey != "";
        assert RepairedEntries(entries)[1..] == RepairedEntries(entries[1..]);
      }
    }
  }

  lemma {:induction false} SelectedSome(wallets: Entries<Wallet>)
    ensures SelectedEntries(EmbedWallets(wallets)) != [] <==> HasSelected(wallets)
  {
    hide NormalizeWallet, ExportWallet, Embed;
    if wallets != [] {
      SelectedSome(wallets[1..]);
      var raw := EmbedWallets(wallets);
      assert raw[1..] == EmbedWallets(wallets[1..]);
      assert raw[0] == (wallets[0].0, Embed(wallets[0].1));
      EmbedSelected(wallets[0].1);
      if HasSelected(wallets[1..]) {
        var i :| 0 <= i < |wallets[1..]| && wallets[1..][i].1.selected;
        assert wallets[i + 1].1.selected;
      }
    }
  }

  // Restoring the form a draft was exported to: the entries come back repaired.
  lemma HydrateForm(state: Working)
    requires DistinctKeys(state.wallets)
    ensures var form := FormOf(state);
            var entries := RepairedEntries(form.entries);
            var enabled := form.enabled && entries != [];
            FormOf(Hydrate(form)) == Form(enabled, entries, if enabled then SnipeOwnLaunch else NoStrategy)
  {
    hide SelectedEntries, WithPositiveAmount, DecodeAll, DecodeList, RepairedEntries,
         NormalizeWallets, EmbedWallets, Present, HasSelected;
    var form := FormOf(state);
    SelectedFromWallets(state.wallets);
    SelectedDistinct(state.wallets);
    DecodeAllIsList(form.entries);
    ReloadDecoded(form.entries);
    SelectedSome(NormalizeWallets(Present(DecodeAll(form.entries))));
  }

  // The codec round trip: exporting, decoding and exporting again yields the same form exactly
  // when every exported entry has a key and a timeout if it needs one, and an enabled form has
  // an entry at all.
  lemma CodecRoundTrip(state: Working)
    requires DistinctKeys(state.wallets)
    ensures FormOf(Hydrate(FormOf(state))) == FormOf(state) <==>
            && (forall i | 0 <= i < |FormOf(state).entries| :: Survives(FormOf(state).entries[i]))
            && (state.enabled ==> FormOf(state).entries != [])
  {
    hide SelectedEntries, WithPositiveAmount, Hydrate, RepairedEntries, DistinctKeys;
    HydrateForm(state);
    RepairedLength(FormOf(state).entries);
  }

  // --- states that do not survive ------------------------------------------------------------------

  // An enabled draft without wallets comes back switched off.
  lemma EnabledLost()
    ensures FormOf(Hydrate(FormOf(Working(true, [])))) != FormOf(Working(true, []))
  {
    hide Hydrate;
    var w := Working(true, []);
    assert SelectedEntries(w.wallets) == [] && WithPositiveAmount([]) == [];
    CodecRoundTrip(w);
  }

  // A wallet that buys one SOL and sells half at a market cap, its timeout left empty.
  const NO_TIMEOUT := Wallet(true, "1", BlockOffset, 0, 0, false, true, "50", SellMarketCap, 0, "5m", None, Stop)

  lemma NoTimeoutInRange()
    ensures InRange(NO_TIMEOUT) && ToNumber("1") == Fin(1.0)
  {
    hide NormalizeDecimal, ToNumber, Trim;
    PlainAmount();
    assert NatText(5) == "5" && NatText(50) == "50" && TextNat("5") == 5 && TextNat("50") == 50;
    TrimKeepsInner("5m");
  }

  lemma PlainAmount()
    ensures NormalizeDecimal("1", 6) == "1" && ToNumber("1") == Fin(1.0)
  {
    hide Trim, RemoveSpaces, ToNumber, NumericInput.NormalizeBody, StripLeadingZeros;
    assert NatText(1) == "1" && TextNat("1") == 1;
    NatTextNumber(1);
    TrimKeepsInner("1");
    RemoveSpacesNoop("1");
    NumericInput.NormalizeWhole("1", "", NumericInput.Options(false, Some(6)));
    NumericInput.StripStripped("1");
    assert NumericInput.Spell("1", false, "", "") == "1";
  }

  // Its timeout comes back as one second.
  lemma TimeoutLost(key: string)
    requires key != ""
    ensures var w := Working(true, [(key, Embed(NO_TIMEOUT))]);
            && FormOf(w).entries == [ExportWallet(key, NO_TIMEOUT)]
            && FormOf(Hydrate(FormOf(w))).entries ==
               [ExportWallet(key, NO_TIMEOUT).(sellMarketCapTimeoutSeconds := Seconds(1))]
  {
    hide Hydrate, NormalizeWallet, Embed, InRange, ToNumber, TextNat, NatText;
    var w := Working(true, [(key, Embed(NO_TIMEOUT))]);
    var e := ExportWallet(key, NO_TIMEOUT);
    NoTimeoutInRange();
    WalletStable(NO_TIMEOUT);
    EmbedSelected(NO_TIMEOUT);
    SelectedCons(key, Embed(NO_TIMEOUT), []);
    assert [(key, Embed(NO_TIMEOUT))] + [] == w.wallets && SelectedEntries([]) == [];
    PositiveCons(e, []);
    assert [e] + [] == [e] && WithPositiveAmount([]) == [];
    HydrateForm(w);
    NoTimeoutRepaired(key);
  }

  lemma NoTimeoutRepaired(key: string)
    requires key != ""
    ensures var e := ExportWallet(key, NO_TIMEOUT);
            RepairedEntries([e]) == [e.(sellMarketCapTimeoutSeconds := Seconds(1))]
  {
    var e := ExportWallet(key, NO_TIMEOUT);
    assert TextNat("5") == 5 && TextNat("50") == 50;
    assert [e][1..] == [];
    assert RepairedEntries([e]) == [Repaired(e)] + RepairedEntries([]);
  }
}
