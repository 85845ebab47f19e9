/** What must hold before a sniper draft can be saved. */
module SniperValidation {
  import opened Common
  import opened JsText
  import opened Digits
  import opened JsValues
  import opened SniperDraft
  import opened SniperForm

  // A wallet of the runtime; its balance is absent when missing or not a finite number.
  datatype WalletInfo = WalletInfo(envKey: string, hasPublicKey: bool, balanceSol: Option<real>)

  // What the runtime last reported, the SOL reserved for fees, and the autosell master switch.
  datatype Status = Status(loaded: bool, wallets: seq<WalletInfo>, selectedKey: string, selectedBalance: Option<real>,
                           reserve: real, masterAutosell: bool)

  datatype SniperError =
    | SelectAWallet | StillLoading | IsDeployer | NotAvailable | BalanceUnavailable | NothingSpendable
    | NeedsAmount | ExceedsSpendable | BadBuyOffset | BadBuyDelay
    | BadSellPercent | NeedsMarketCap | NeedsTimeout | BadTimeout | BadSellOffset

  function FindWallet(wallets: seq<WalletInfo>, key: string): Option<WalletInfo> {
    if wallets == [] then None
    else if wallets[0].envKey == key then Some(wallets[0])
    else FindWallet(wallets[1..], key)
  }

  function WalletByKey(status: Status, envKey: string): Option<WalletInfo> {
    if Trim(envKey) == "" then None else FindWallet(status.wallets, Trim(envKey))
  }

  function Balance(status: Status, wallet: WalletInfo): Option<real> {
    if wallet.balanceSol.Some? then wallet.balanceSol
    else if wallet.envKey == status.selectedKey then status.selectedBalance
    else None
  }

  function Spendable(status: Status, wallet: WalletInfo): Option<real> {
    var balance := Balance(status, wallet);
    if balance.None? then None
    else Some(if balance.value - status.reserve > 0.0 then balance.value - status.reserve else 0.0)
  }

  // isWalletAvailableForSniper, with the wallets required to be loaded
  predicate Available(status: Status, envKey: string) {
    var wallet := WalletByKey(status, envKey);
    && Trim(envKey) != ""
    && Trim(envKey) != status.selectedKey
    && status.loaded
    && wallet.Some? && wallet.value.hasPublicKey
    && var spendable := Spendable(status, wallet.value);
       spendable.Some? && spendable.value > 0.0
  }

  // getWalletAvailabilityError
  function AvailabilityErrors(status: Status, envKey: string): seq<SniperError> {
    if !status.loaded then [StillLoading]
    else if !Available(status, envKey) then
      if envKey == status.selectedKey then [IsDeployer] else [NotAvailable]
    else
      var wallet := WalletByKey(status, envKey).value;
      var spendable := Spendable(status, wallet);
      if Balance(status, wallet).None? then [BalanceUnavailable]
      else if spendable.None? || spendable.value <= 0.0 then [NothingSpendable]
      else []
  }

  function BuyTriggerErrors(e: Exported): seq<SniperError> {
    if e.targetBlockOffset.Some? then
      if 0 <= e.targetBlockOffset.value <= BUY_MAX_BLOCK_OFFSET then [] else [BadBuyOffset]
    else if 0 <= e.submitDelayMs <= 1500 then []
    else [BadBuyDelay]
  }

  function SellErrors(e: Exported): seq<SniperError> {
    var percent := if e.sellPercent.Some? then e.sellPercent.value else 0;
    if !(0 < percent <= 100) then [BadSellPercent]
    else if e.sellTriggerMode.SellMarketCap? then
      if Trim(e.sellMarketCapThreshold) == "" then [NeedsMarketCap]
      else if !e.sellMarketCapTimeoutSeconds.Seconds? || e.sellMarketCapTimeoutSeconds.n == 0 then [NeedsTimeout]
      else if !(1 <= e.sellMarketCapTimeoutSeconds.n <= 86400) then [BadTimeout]
      else []
    else
      var offset := if e.sellTargetBlockOffset.Some? then e.sellTargetBlockOffset.value else 0;
      if 0 <= offset <= SELL_MAX_BLOCK_OFFSET then [] else [BadSellOffset]
  }

  // The errors one selected wallet contributes, in the order they are pushed.
  function EntryErrors(status: Status, e: Exported): seq<SniperError> {
    var availability := AvailabilityErrors(status, e.envKey);
    if availability != [] then availability
    else if e.amountSol == "" || !e.Amount().Fin? || e.Amount().r <= 0.0 then [NeedsAmount]
    else
      var wallet := WalletByKey(status, e.envKey);
      var spendable := if wallet.Some? then Spendable(status, wallet.value) else None;
      if spendable.Some? && e.Amount().r > spendable.value + 0.000001 then [ExceedsSpendable]
      else BuyTriggerErrors(e) + (if status.masterAutosell && e.sellEnabled then SellErrors(e) else [])
  }

  function AllErrors(status: Status, entries: seq<Exported>): seq<SniperError> {
    if entries == [] then []
    else AllErrors(status, entries[..|entries| - 1]) + EntryErrors(status, entries[|entries| - 1])
  }

  function Complaints(state: Working, status: Status): seq<SniperError> {
    var entries := SelectedEntries(state.wallets);
    if !state.enabled then []
    else if entries == [] then [SelectAWallet]
    else AllErrors(status, entries)
  }

  // validateState
  method ValidateState(state: Working, status: Status) returns (errors: seq<SniperError>)
    ensures errors == Complaints(state, status)
  {
    if !state.enabled {
      return [];
    }
    var entries := SelectedEntries(state.wallets);
    if entries == [] {
      return [SelectAWallet];
    }
    errors := [];
    for i := 0 to |entries|
      invariant errors == AllErrors(status, entries[..i])
    {
      assert entries[..i + 1][..i] == entries[..i];
      errors := errors + EntryErrors(status, entries[i]);
    }
    assert entries[..|entries|] == entries;
  }

  // --- what a clean validation guarantees ------------------------------------------------------

  // The wallet can pay for the buy, is not the deployer, and says when to sell if it must.
  predicate Ready(status: Status, e: Exported) {
    && Available(status, e.envKey)
    && e.Amount().Fin?
    && 0.0 < e.Amount().r <= Spendable(status, WalletByKey(status, e.envKey).value).value + 0.000001
    && (status.masterAutosell && e.sellEnabled && e.sellTriggerMode.SellMarketCap? ==>
          e.sellMarketCapThreshold != "" && e.sellMarketCapTimeoutSeconds.Seconds?)
  }

  // The trigger fields of an exported wallet, within the ranges the engine accepts.
  predicate TriggersInRange(e: Exported) {
    && 0 <= e.submitDelayMs <= 1500
    && (e.targetBlockOffset.Some? <==> e.triggerMode.BlockOffset?)
    && (e.targetBlockOffset.Some? ==> 0 <= e.targetBlockOffset.value <= 37)
    && (e.sellEnabled <==> e.sellPercent.Some?)
    && (e.sellPercent.Some? ==> 1 <= e.sellPercent.value <= 100)
    && (e.sellTargetBlockOffset.Some? <==> e.sellEnabled && e.sellTriggerMode.SellBlockOffset?)
    && (e.sellTargetBlockOffset.Some? ==> 0 <= e.sellTargetBlockOffset.value <= 23)
    && (e.sellMarketCapTimeoutSeconds.Seconds? ==> 1 <= e.sellMarketCapTimeoutSeconds.n <= 86400)
    && (e.sellMarketCapTimeoutSeconds.NullTimeout? <==> !(e.sellEnabled && e.sellTriggerMode.SellMarketCap?))
    && Trim(e.sellMarketCapThreshold) == e.sellMarketCapThreshold
  }

  lemma ExportInRange(key: string, raw: RawWallet)
    ensures TriggersInRange(ExportWallet(key, NormalizeWallet(raw)))
  {
    hide NormalizeWallet, Trim, TextNat, NatText;
    NormalizedInRange(raw);
    TrimKeepsInner("");
  }

  lemma EmptyAmount()
    ensures ToNumber("") == Fin(0.0)
  {
    TrimKeepsInner("");
  }

  // One wallet draws no complaint exactly when it is ready; the range checks never fire.
  lemma EntryClean(status: Status, e: Exported)
    requires TriggersInRange(e)
    ensures EntryErrors(status, e) == [] <==> Ready(status, e)
    ensures forall err | err in EntryErrors(status, e) ::
              err !in {BadBuyOffset, BadBuyDelay, BadSellPercent, BadTimeout, BadSellOffset,
                       BalanceUnavailable, NothingSpendable}
  {
    hide Trim, ToNumber, FindWallet;
    EmptyAmount();
  }

  lemma {:induction false} SelectedInRange(wallets: Entries<RawWallet>)
    ensures forall i | 0 <= i < |SelectedEntries(wallets)| :: TriggersInRange(SelectedEntries(wallets)[i])
  {
    hide NormalizeWallet, ExportWallet, TriggersInRange;
    if wallets != [] {
      SelectedInRange(wallets[1..]);
      ExportInRange(wallets[0].0, wallets[0].1);
    }
  }

  lemma {:induction false} AllClean(status: Status, entries: seq<Exported>)
    requires forall i | 0 <= i < |entries| :: TriggersInRange(entries[i])
    ensures AllErrors(status, entries) == [] <==> forall i | 0 <= i < |entries| :: Ready(status, entries[i])
  {
    hide TriggersInRange, Ready, EntryErrors;
    if entries != [] {
      var n := |entries| - 1;
      AllClean(status, entries[..n]);
      EntryClean(status, entries[n]);
    }
  }

  lemma {:induction false} ReadyAllPositive(status: Status, entries: seq<Exported>)
    requires forall i | 0 <= i < |entries| :: Ready(status, entries[i])
    ensures WithPositiveAmount(entries) == entries
  {
    if entries != [] {
      assert Ready(status, entries[0]);
      ReadyAllPositive(status, entries[1..]);
      assert entries == [entries[0]] + entries[1..];
    }
  }

  // Validation is exact: no complaint means sniping is off, or at least one wallet is selected
  // and every selected wallet is ready.
  lemma ValidationExact(state: Working, status: Status)
    ensures var entries := SelectedEntries(state.wallets);
            Complaints(state, status) == [] <==>
            !state.enabled || (entries != [] && forall i | 0 <= i < |entries| :: Ready(status, entries[i]))
  {
    hide SelectedEntries, Ready, AllErrors;
    SelectedInRange(state.wallets);
    AllClean(status, SelectedEntries(state.wallets));
  }

  // With sniping on and no complaint, the form lists every selected wallet, each one ready and
  // in range, and asks for the launch to be sniped.
  lemma ValidationSound(state: Working, status: Status)
    requires state.enabled && Complaints(state, status) == []
    ensures var form := FormOf(state);
            && form.entries == SelectedEntries(state.wallets) != []
            && form.strategy == SnipeOwnLaunch
            && forall i | 0 <= i < |form.entries| ::
                 Ready(status, form.entries[i]) && TriggersInRange(form.entries[i])
                 && Trim(form.entries[i].envKey) != status.selectedKey
  {
    hide SelectedEntries, WithPositiveAmount, Complaints, Ready, TriggersInRange;
    var entries := SelectedEntries(state.wallets);
    ValidationExact(state, status);
    SelectedInRange(state.wallets);
    ReadyAllPositive(status, entries);
    forall i | 0 <= i < |entries| ensures Trim(entries[i].envKey) != status.selectedKey {
      assert Ready(status, entries[i]);
      ReadyNotDeployer(status, entries[i]);
    }
  }

  lemma ReadyNotDeployer(status: Status, e: Exported)
    requires Ready(status, e)
    ensures Trim(e.envKey) != status.selectedKey
  {
  }

  // --- validation from the raw status ----------------------------------------------------------------

  // The first runtime wallet of this key, at k, is not the deployer, and has money left after the
  // fee reserve.
  predicate UsableAt(status: Status, envKey: string, k: nat) {
    var key := Trim(envKey);
    && key != "" && key != status.selectedKey
    && k < |status.wallets| && status.wallets[k].envKey == key
    && (forall j | 0 <= j < k :: status.wallets[j].envKey != key)
    && status.wallets[k].hasPublicKey && status.wallets[k].balanceSol.Some?
    && status.wallets[k].balanceSol.value > status.reserve
  }

  predicate Usable(status: Status, envKey: string) {
    exists k | 0 <= k < |status.wallets| :: UsableAt(status, envKey, k)
  }

  // The usable wallet's balance less the fee reserve covers the amount, up to a millionth.
  predicate CanPay(status: Status, e: Exported) {
    && status.loaded && ToNumber(e.amountSol).Fin?
    && exists k | 0 <= k < |status.wallets| ::
         && UsableAt(status, e.envKey, k)
         && 0.0 < ToNumber(e.amountSol).r <= status.wallets[k].balanceSol.value - status.reserve + 0.000001
  }

  predicate SellsReady(status: Status, e: Exported) {
    status.masterAutosell && e.sellEnabled && e.sellTriggerMode == SellMarketCap ==>
      e.sellMarketCapThreshold != "" && exists n | 1 <= n <= 86400 :: e.sellMarketCapTimeoutSeconds == Seconds(n)
  }

  lemma {:induction false} FoundFirst(wallets: seq<WalletInfo>, key: string)
    ensures FindWallet(wallets, key).None? <==> forall w | w in wallets :: w.envKey != key
    ensures forall k | 0 <= k < |wallets| && wallets[k].envKey == key
                       && (forall j | 0 <= j < k :: wallets[j].envKey != key) ::
              FindWallet(wallets, key) == Some(wallets[k])
    ensures FindWallet(wallets, key).Some? ==>
              exists k | 0 <= k < |wallets| ::
                && wallets[k].envKey == key && (forall j | 0 <= j < k :: wallets[j].envKey != key)
                && FindWallet(wallets, key) == Some(wallets[k])
  {
    if wallets != [] && wallets[0].envKey != key {
      var rest := wallets[1..];
      FoundFirst(rest, key);
      forall k | 0 <= k < |wallets| && wallets[k].envKey == key && (forall j | 0 <= j < k :: wallets[j].envKey != key)
        ensures FindWallet(wallets, key) == Some(wallets[k])
      {
        assert rest[k - 1] == wallets[k];
        assert forall j | 0 <= j < k - 1 :: rest[j] == wallets[j + 1];
      }
      if FindWallet(rest, key).Some? {
        var k :| 0 <= k < |rest| && rest[k].envKey == key && (forall j | 0 <= j < k :: rest[j].envKey != key)
                 && FindWallet(rest, key) == Some(rest[k]);
        assert wallets[k + 1] == rest[k];
        assert forall j | 0 <= j < k + 1 :: wallets[j] == if j == 0 then wallets[0] else rest[j - 1];
      }
    }
  }

  lemma ReadyRaw(status: Status, e: Exported)
    requires TriggersInRange(e)
    ensures Ready(status, e) <==> CanPay(status, e) && SellsReady(status, e)
  {
    hide Trim, ToNumber, FindWallet;
    FoundFirst(status.wallets, Trim(e.envKey));
    if e.sellMarketCapTimeoutSeconds.Seconds? {
      assert 1 <= e.sellMarketCapTimeoutSeconds.n <= 86400;
    }
  }

  // There is no complaint exactly when sniping is off, or a wallet is selected and each one can
  // pay for its buy and says when to sell if it must.
  lemma ValidationFromStatus(state: Working, status: Status)
    ensures var entries := SelectedEntries(state.wallets);
            Complaints(state, status) == [] <==>
            !state.enabled ||
            (entries != [] && forall i | 0 <= i < |entries| ::
               CanPay(status, entries[i]) && SellsReady(status, entries[i]))
  {
    hide SelectedEntries, Ready, CanPay, SellsReady, TriggersInRange, Complaints;
    var entries := SelectedEntries(state.wallets);
    ValidationExact(state, status);
    SelectedInRange(state.wallets);
    forall i | 0 <= i < |entries|
      ensures Ready(status, entries[i]) <==> CanPay(status, entries[i]) && SellsReady(status, entries[i])
    {
      ReadyRaw(status, entries[i]);
    }
  }

  lemma AvailableRaw(status: Status, envKey: string)
    requires status.loaded
    ensures Available(status, envKey) <==> Usable(status, envKey)
    ensures forall k: nat | UsableAt(status, envKey, k) ::
              WalletByKey(status, envKey) == Some(status.wallets[k])
              && Spendable(status, status.wallets[k]) == Some(status.wallets[k].balanceSol.value - status.reserve)
  {
    hide Trim, FindWallet;
    var key := Trim(envKey);
    FoundFirst(status.wallets, key);
    if Available(status, envKey) {
      var k: nat :| k < |status.wallets| && status.wallets[k].envKey == key
                    && (forall j | 0 <= j < k :: status.wallets[j].envKey != key)
                    && FindWallet(status.wallets, key) == Some(status.wallets[k]);
      assert UsableAt(status, envKey, k);
    }
  }

  // The one complaint about a normalised entry, in every case.
  lemma ComplaintLaw(status: Status, e: Exported, k: nat)
    requires TriggersInRange(e)
    ensures !status.loaded ==> EntryErrors(status, e) == [StillLoading]
    ensures status.loaded && !Usable(status, e.envKey) ==>
              EntryErrors(status, e) == [if e.envKey == status.selectedKey then IsDeployer else NotAvailable]
    ensures status.loaded && UsableAt(status, e.envKey, k) ==>
              var amount := ToNumber(e.amountSol);
              var left := status.wallets[k].balanceSol.value - status.reserve;
              EntryErrors(status, e) ==
              if !amount.Fin? || amount.r <= 0.0 then [NeedsAmount]
              else if amount.r > left + 0.000001 then [ExceedsSpendable]
              else if !status.masterAutosell || !e.sellEnabled || e.sellTriggerMode != SellMarketCap then []
              else if e.sellMarketCapThreshold == "" then [NeedsMarketCap]
              else if e.sellMarketCapTimeoutSeconds == EmptyTimeout then [NeedsTimeout]
              else []
  {
    hide Trim, ToNumber, FindWallet, UsableAt, Available, WalletByKey, Spendable, Balance;
    EmptyAmount();
    if status.loaded {
      AvailableRaw(status, e.envKey);
      if Available(status, e.envKey) {
        AvailableSpends(status, e.envKey);
      }
      if UsableAt(status, e.envKey, k) {
        UsableInside(status, e.envKey, k);
      }
    }
  }

  lemma UsableInside(status: Status, envKey: string, k: nat)
    requires UsableAt(status, envKey, k)
    ensures k < |status.wallets| && status.wallets[k].balanceSol.Some?
  {
  }

  // What the tests after availability find for an available wallet: nothing.
  lemma AvailableSpends(status: Status, envKey: string)
    requires Available(status, envKey)
    ensures WalletByKey(status, envKey).Some?
    ensures var wallet := WalletByKey(status, envKey).value;
            Balance(status, wallet).Some? && Spendable(status, wallet).Some? && Spendable(status, wallet).value > 0.0
  {
    hide Trim, FindWallet;
  }

  // The range tests, for an entry of any origin.
  lemma RangeLaw(e: Exported)
    ensures BuyTriggerErrors(e) ==
            match e.targetBlockOffset
            case Some(offset) => (if offset < 0 || offset > 37 then [BadBuyOffset] else [])
            case None => if e.submitDelayMs < 0 || e.submitDelayMs > 1500 then [BadBuyDelay] else []
    ensures SellErrors(e) == [BadSellPercent] <==>
            e.sellPercent.None? || e.sellPercent.value <= 0 || e.sellPercent.value > 100
    ensures SellErrors(e) == [BadTimeout] <==>
            && e.sellPercent.Some? && 1 <= e.sellPercent.value <= 100 && e.sellTriggerMode == SellMarketCap
            && Trim(e.sellMarketCapThreshold) != "" && e.sellMarketCapTimeoutSeconds.Seconds?
            && (e.sellMarketCapTimeoutSeconds.n < 0 || e.sellMarketCapTimeoutSeconds.n > 86400)
    ensures SellErrors(e) == [NeedsMarketCap] <==>
            && e.sellPercent.Some? && 1 <= e.sellPercent.value <= 100 && e.sellTriggerMode == SellMarketCap
            && Trim(e.sellMarketCapThreshold) == ""
    ensures SellErrors(e) == [BadSellOffset] <==>
            && e.sellPercent.Some? && 1 <= e.sellPercent.value <= 100 && e.sellTriggerMode == SellBlockOffset
            && e.sellTargetBlockOffset.Some?
            && (e.sellTargetBlockOffset.value < 0 || e.sellTargetBlockOffset.value > 23)
  {
    hide Trim;
  }
}
