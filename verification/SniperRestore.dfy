/** What of a sniper draft survives saving, storing and restoring. */
module SniperRestore {
  import opened Common
  import opened JsText
  import opened Digits
  import opened JsValues
  import NumericInput
  import opened SniperDraft
  import opened SniperForm
  import opened SniperValidation
  import opened SniperModal
  import opened SniperSession

  // --- saving --------------------------------------------------------------------------------------

  lemma {:induction false} ReloadExports(wallets: Entries<RawWallet>)
    requires !HasKey(wallets, "")
    ensures SelectedEntries(Reload(wallets)) == SelectedEntries(wallets)
  {
    hide NormalizeWallet, Embed, ExportWallet, Reload, InRange;
    if wallets == [] {
      ReloadNothing();
    } else {
      var (key, raw) := wallets[0];
      var rest := wallets[1..];
      assert key != "";
      assert forall i | 0 <= i < |rest| :: rest[i] == wallets[i + 1];
      ReloadExports(rest);
      assert wallets == [(key, raw)] + rest;
      ReloadCons(key, raw, rest);
      NormalizedInRange(raw);
      WalletStable(NormalizeWallet(raw));
      EmbedSelected(NormalizeWallet(raw));
      NormalizedSelected(raw);
      assert Reload(wallets)[1..] == Reload(rest);
    }
  }

  lemma {:induction false} SelectedMeansSelected(wallets: Entries<RawWallet>)
    requires SelectedEntries(wallets) != []
    ensures exists i | 0 <= i < |wallets| :: wallets[i].1.selected.truthy
  {
    hide NormalizeWallet, ExportWallet;
    if !wallets[0].1.selected.truthy {
      SelectedMeansSelected(wallets[1..]);
      var i :| 0 <= i < |wallets[1..]| && wallets[1..][i].1.selected.truthy;
      assert wallets[i + 1].1.selected.truthy;
    }
  }

  // A clone exports what the draft exports; only an empty draft loses its switch.
  lemma CloneExports(w: Working)
    requires WellKeyed(w)
    ensures FormOf(Clone(w)).entries == FormOf(w).entries && FormOf(Clone(w)).strategy == FormOf(w).strategy
    ensures Clone(w).enabled == (w.enabled && SelectedEntries(w.wallets) != [])
  {
    hide SelectedEntries, WithPositiveAmount, NormalizeWallets, Present, EmbedWallets, HasSelected;
    ReloadExports(w.wallets);
    SelectedSome(NormalizeWallets(Present(w.wallets)));
    NoEntries();
  }

  lemma NoEntries()
    ensures WithPositiveAmount([]) == []
  {
  }

  // The draft hydrated from storage: without a stored one, from the saved settings, and without
  // those from an empty form.
  function Restore(stored: Option<Draft>, saved: Option<RawDraft>): Working {
    match stored
    case Some(d) => SetState(EmbedDraft(d))
    case None => if saved.Some? then SetState(saved.value) else Working(false, [])
  }

  lemma RestorePersisted(w: Working, saved: Option<RawDraft>)
    ensures Persisted(w).Some? ==> Restore(Persisted(w), saved) == Clone(w)
  {
    hide NormalizeWallets, Present, EmbedWallets, HasWalletState;
    DraftStable(RawDraft(Bool(w.enabled), Some(Present(w.wallets))));
  }

  lemma NothingPersisted(w: Working)
    requires WellKeyed(w) && Persisted(w).None?
    ensures SelectedEntries(w.wallets) == []
  {
    hide NormalizeWallet, NormalizeWallets, ExportWallet, NotDefault;
    if SelectedEntries(w.wallets) != [] {
      SelectedMeansSelected(w.wallets);
      var i :| 0 <= i < |w.wallets| && w.wallets[i].1.selected.truthy;
      NormalizedSelected(w.wallets[i].1);
      SelectedNotDefault(NormalizeWallet(w.wallets[i].1));
      assert HasWalletState(w.wallets);
      assert HasKey(w.wallets, w.wallets[0].0);
      KeptNonEmpty(w.wallets);
    }
  }

  lemma SelectedNotDefault(w: Wallet)
    ensures w.selected ==> NotDefault(w)
  {
  }

  lemma KeptNonEmpty(wallets: Entries<RawWallet>)
    requires wallets != [] && wallets[0].0 != ""
    ensures NormalizeWallets(Present(wallets)) != []
  {
    hide NormalizeWallet;
    assert Present(wallets)[0] == (wallets[0].0, Some(wallets[0].1));
  }

  // --- which drafts are stored ---------------------------------------------------------------------

  // The draft has a wallet, and is switched on or has a wallet that differs from a new one.
  predicate WorthStoring(w: Working) {
    && w.wallets != []
    && (w.enabled || exists i | 0 <= i < |w.wallets| ::
          NormalizeWallet(w.wallets[i].1) != NormalizeWallet(EMPTY_WALLET))
  }

  lemma StoredExactly(w: Working)
    requires WellKeyed(w)
    ensures Persisted(w).Some? <==> WorthStoring(w)
  {
    hide NormalizeWallet, NormalizeWallets, Present, HasSelected, NotDefault, InRange;
    forall i | 0 <= i < |w.wallets|
      ensures NotDefault(NormalizeWallet(w.wallets[i].1)) <==>
              NormalizeWallet(w.wallets[i].1) != NormalizeWallet(EMPTY_WALLET)
    {
      NormalizedInRange(w.wallets[i].1);
      ChangedExactly(NormalizeWallet(w.wallets[i].1));
    }
    if w.wallets == [] {
      NothingKept();
    } else {
      assert HasKey(w.wallets, w.wallets[0].0);
      KeptNonEmpty(w.wallets);
    }
  }

  lemma NothingKept()
    ensures NormalizeWallets(Present([])) == [] && !HasSelected([])
  {
    EmptyWallets();
  }

  // A wallet differs from a new one exactly when one of the tests of persistDraft says so.
  lemma ChangedExactly(w: Wallet)
    requires InRange(w)
    ensures NotDefault(w) <==> w != NormalizeWallet(EMPTY_WALLET)
  {
    NewWallet();
  }

  lemma NewWallet()
    ensures NormalizeWallet(EMPTY_WALLET) ==
            Wallet(false, "", BlockOffset, 0, 0, false, false, "", SellBlockOffset, 0, "", None, Stop)
  {
    hide NormalizeDecimal, NormalizeSellPercent, NormalizeTimeoutSeconds, NormalizeBounded, NormalizeSellTrigger;
    NothingTrimmed();
    NothingDecimal();
    NewNumbers();
    NewTrigger();
  }

  lemma NewTrigger()
    ensures NormalizeSellTrigger(UNDEFINED, UNDEFINED) == SellBlockOffset
  {
    NothingTrimmed();
  }

  lemma NothingDecimal()
    ensures NormalizeDecimal("", 6) == "" && NormalizeSellPercent(UNDEFINED) == ""
  {
    hide NormalizeDecimal, NormalizeSellPercent;
    EmptyFields();
    NothingNormal();
  }

  lemma NothingNormal()
    ensures NormalizeDecimal("", 6) == "" && NormalizeSellPercent(UNDEFINED) == NormalizeSellPercent(Str(""))
  {
    hide ToNumber, NumericInput.Normalize;
    NumericInput.NormalizeNothing(NumericInput.Options(false, Some(6)));
  }

  lemma NewNumbers()
    ensures NormalizeBounded(UNDEFINED, 1500) == 0
    ensures NormalizeBounded(UNDEFINED, BUY_MAX_BLOCK_OFFSET) == 0
    ensures NormalizeBounded(UNDEFINED, SELL_MAX_BLOCK_OFFSET) == 0
    ensures NormalizeTimeoutSeconds(UNDEFINED) == None
  {
    UndefinedOffset(1500);
    UndefinedOffset(BUY_MAX_BLOCK_OFFSET);
    UndefinedOffset(SELL_MAX_BLOCK_OFFSET);
    TrimKeepsInner("");
  }

  // --- what saved settings offer -------------------------------------------------------------------

  predicate OffersWallet(entry: (string, Option<RawWallet>)) {
    && entry.0 != "" && entry.1.Some? && entry.1.value.selected.truthy
    && ToNumber(NormalizeDecimal(entry.1.value.amountSol.OrEmpty(), 6)).Positive()
  }

  predicate OffersAny(wallets: Entries<Option<RawWallet>>) {
    exists i | 0 <= i < |wallets| :: OffersWallet(wallets[i])
  }

  // The saved settings hold a draft with a selected wallet that buys something.
  predicate Offers(saved: Option<RawDraft>) {
    saved.Some? && saved.value.RawDraft? && saved.value.wallets.Some? && OffersAny(saved.value.wallets.value)
  }

  function ExportsOf(wallets: Entries<Option<RawWallet>>): seq<Exported> {
    WithPositiveAmount(SelectedEntries(EmbedWallets(NormalizeWallets(wallets))))
  }

  lemma ExportsNothing()
    ensures ExportsOf([]) == []
  {
  }

  lemma ExportsCons(entry: (string, Option<RawWallet>), rest: Entries<Option<RawWallet>>)
    ensures OffersWallet(entry) ==> ExportsOf([entry] + rest) != []
    ensures !OffersWallet(entry) ==> ExportsOf([entry] + rest) == ExportsOf(rest)
  {
    hide NormalizeWallet, Embed, ExportWallet, InRange, ToNumber, NormalizeDecimal;
    var wallets := [entry] + rest;
    assert wallets[1..] == rest;
    if entry.0 != "" {
      var raw := if entry.1.Some? then entry.1.value else EMPTY_WALLET;
      var n := NormalizeWallet(raw);
      var embedded := EmbedWallets(NormalizeWallets(wallets));
      assert NormalizeWallets(wallets) == [(entry.0, n)] + NormalizeWallets(rest);
      assert embedded[0] == (entry.0, Embed(n));
      assert embedded[1..] == EmbedWallets(NormalizeWallets(rest));
      NormalizedInRange(raw);
      WalletStable(n);
      EmbedSelected(n);
      NormalizedSelected(raw);
      AmountOf(entry.0, raw);
      if n.selected {
        var e := ExportWallet(entry.0, n);
        assert SelectedEntries(embedded) == [e] + SelectedEntries(embedded[1..]);
        assert ([e] + SelectedEntries(embedded[1..]))[1..] == SelectedEntries(embedded[1..]);
      }
    }
  }

  lemma AmountOf(key: string, raw: RawWallet)
    ensures ExportWallet(key, NormalizeWallet(raw)).amountSol == NormalizeDecimal(raw.amountSol.OrEmpty(), 6)
  {
  }

  lemma {:induction false} ExportsOffered(wallets: Entries<Option<RawWallet>>)
    ensures ExportsOf(wallets) != [] <==> OffersAny(wallets)
  {
    hide ExportsOf, OffersWallet;
    if wallets == [] {
      ExportsNothing();
    } else {
      ExportsOffered(wallets[1..]);
      ExportsCons(wallets[0], wallets[1..]);
      assert [wallets[0]] + wallets[1..] == wallets;
      if OffersAny(wallets[1..]) {
        var i :| 0 <= i < |wallets[1..]| && OffersWallet(wallets[1..][i]);
        assert OffersWallet(wallets[i + 1]);
      }
      if OffersAny(wallets) && !OffersWallet(wallets[0]) {
        var i :| 0 <= i < |wallets| && OffersWallet(wallets[i]);
        assert OffersWallet(wallets[1..][i - 1]);
      }
    }
  }

  lemma SavedExports(saved: Option<RawDraft>)
    ensures FormOf(Restore(None, saved)).entries != [] <==> Offers(saved)
  {
    hide SelectedEntries, WithPositiveAmount, NormalizeWallets, EmbedWallets, HasSelected, OffersAny;
    if saved.Some? && saved.value.RawDraft? && saved.value.wallets.Some? {
      ExportsOffered(saved.value.wallets.value);
    }
    ExportsEmpty();
    NothingSelected();
    NoEntries();
  }

  lemma ExportsEmpty()
    ensures WithPositiveAmount(SelectedEntries(EmbedWallets([]))) == []
  {
  }

  // Hydrating brings back the exported entries of the draft last saved exactly when it was worth
  // storing, or the saved settings offer no wallet; its strategy and switch come back with them.
  lemma StoredRestoresForm(w: Working, saved: Option<RawDraft>)
    requires WellKeyed(w)
    ensures var back := FormOf(Restore(Persisted(w), saved));
            && (back.entries == FormOf(w).entries <==> WorthStoring(w) || !Offers(saved))
            && (WorthStoring(w) || saved.None? ==>
                  && back.strategy == FormOf(w).strategy
                  && back.enabled == (w.enabled && SelectedEntries(w.wallets) != []))
  {
    hide Persisted, SelectedEntries, WithPositiveAmount, Clone, WellKeyed, WorthStoring, Offers;
    RestorePersisted(w, saved);
    CloneExports(w);
    NothingSelected();
    NoEntries();
    StoredExactly(w);
    SavedExports(saved);
    if Persisted(w).None? {
      NothingPersisted(w);
    }
  }

  // A draft that was reset comes back as the saved settings.
  lemma ResetComesBack(s: Model, status: Status)
    ensures var buyer := EMPTY_WALLET.(selected := Bool(true), amountSol := Str("1"));
            var saved := RawDraft(Bool(true), Some([("w", Some(buyer))]));
            var t := Step(s, Reset, status);
            && t.stored == None && FormOf(t.working).entries == []
            && FormOf(Restore(t.stored, Some(saved))).entries != []
  {
    hide FormOf, Restore, NormalizeWallet, ToNumber, NormalizeDecimal;
    var offered := ("w", Some(EMPTY_WALLET.(selected := Bool(true), amountSol := Str("1"))));
    var saved := RawDraft(Bool(true), Some([offered]));
    ResetStores(s, status);
    PlainAmount();
    assert OffersWallet([offered][0]);
    SavedExports(Some(saved));
  }

  lemma ResetStores(s: Model, status: Status)
    ensures var t := Step(s, Reset, status);
            t.stored == None && t.working == Working(false, []) && FormOf(t.working).entries == []
  {
    NothingKept();
    assert SelectedEntries([]) == [] && WithPositiveAmount([]) == [];
  }

  lemma NothingSelected()
    ensures SelectedEntries([]) == []
  {
  }

  // Saving without complaint closes the modal, keeps the draft, snapshots it normalised, shows
  // and stores it; a snipe it asks for is made of ready wallets only. A complaint changes nothing.
  lemma SaveCommits(s: Model, status: Status, saved: Option<RawDraft>)
    requires Invariant(s)
    ensures Complaints(s.working, status) != [] ==> Step(s, Save, status) == s
    ensures Complaints(s.working, status) == [] ==>
              var t := Step(s, Save, status);
              && t == Model(s.working, Clone(s.working), false, FormOf(s.working), Persisted(s.working))
              && FormOf(t.committed).entries == t.form.entries
              && (FormOf(Restore(t.stored, saved)).entries == t.form.entries <==>
                    WorthStoring(s.working) || !Offers(saved))
              && (s.working.enabled ==>
                    && t.stored.Some? && t.form.strategy == SnipeOwnLaunch
                    && t.form.entries == SelectedEntries(s.working.wallets)
                    && forall i | 0 <= i < |t.form.entries| :: Ready(status, t.form.entries[i]))
  {
    hide Persisted, SelectedEntries, FormOf, Clone, WellKeyed, Complaints, Ready, Restore, WorthStoring, Offers;
    if Complaints(s.working, status) == [] {
      CloneExports(s.working);
      StoredRestoresForm(s.working, saved);
      if s.working.enabled {
        ValidationSound(s.working, status);
        if Persisted(s.working).None? {
          NothingPersisted(s.working);
        }
      }
    }
  }

  // --- the draft itself through the form -----------------------------------------------------------

  // The form holds everything there is to the wallet: it buys, and each field its modes hide from
  // the form has the value that decoding gives it.
  predicate KeptByForm(w: Wallet) {
    var marketCap := w.sellEnabled && w.sellTriggerMode.SellMarketCap?;
    && w.selected && ToNumber(w.amountSol).Positive()
    && (w.triggerMode.OnSubmit? || w.submitDelayMs == 0)
    && (w.triggerMode.BlockOffset? || w.targetBlockOffset == 0)
    && (w.triggerMode.SameTime? || !w.retryOnce)
    && (w.sellEnabled <==> w.sellPercent != "")
    && ((w.sellEnabled && w.sellTriggerMode.SellBlockOffset?) || w.sellTargetBlockOffset == 0)
    && (marketCap || (w.sellMarketCapThreshold == "" && w.sellMarketCapTimeoutAction.Stop?))
    && (if marketCap then w.sellMarketCapTimeoutSeconds.Some? else w.sellMarketCapTimeoutSeconds == Some(30))
  }

  function Decoded(key: string, w: Wallet): Wallet {
    NormalizeWallet(DecodeEntry(ExportWallet(key, w)))
  }

  lemma DecodedKept(key: string, w: Wallet)
    requires InRange(w) && w.selected && ToNumber(w.amountSol).Positive()
    ensures Decoded(key, w) == w <==> KeptByForm(w)
  {
    hide NormalizeWallet, DecodeEntry, TextNat, NatText, ToNumber, NormalizeDecimal, Trim;
    DecodedWallet(ExportWallet(key, w), w);
    PercentZero();
  }

  lemma PercentZero()
    ensures TextNat("") == 0
  {
  }

  predicate Buys(raw: RawWallet) {
    NormalizeWallet(raw).selected && ToNumber(NormalizeWallet(raw).amountSol).Positive()
  }

  // The wallets that come back: those that buy, decoded.
  function Hydrated(wallets: Entries<RawWallet>): Entries<RawWallet> {
    if wallets == [] then []
    else
      var (key, raw) := wallets[0];
      (if Buys(raw) then [(key, Embed(Decoded(key, NormalizeWallet(raw))))] else []) + Hydrated(wallets[1..])
  }

  lemma {:induction false} HydratedIs(wallets: Entries<RawWallet>)
    requires !HasKey(wallets, "")
    ensures Reload(DecodeList(WithPositiveAmount(SelectedEntries(wallets)))) == Hydrated(wallets)
  {
    hide NormalizeWallet, Embed, DecodeEntry, ExportWallet, Reload, ToNumber;
    if wallets == [] {
      ReloadNothing();
      NothingSelected();
      NoEntries();
    } else {
      var (key, raw) := wallets[0];
      assert key != "";
      assert forall i | 0 <= i < |wallets[1..]| :: wallets[1..][i] == wallets[i + 1];
      HydratedIs(wallets[1..]);
      NormalizedSelected(raw);
      var n := NormalizeWallet(raw);
      var e := ExportWallet(key, n);
      ExportedAmount(key, n);
      var rest := SelectedEntries(wallets[1..]);
      if raw.selected.truthy {
        assert SelectedEntries(wallets) == [e] + rest && ([e] + rest)[1..] == rest;
        assert e.Amount() == ToNumber(n.amountSol);
        if !Buys(raw) {
          assert !e.Amount().Positive();
          assert WithPositiveAmount(SelectedEntries(wallets)) == WithPositiveAmount(rest);
          assert Hydrated(wallets) == Hydrated(wallets[1..]);
        } else {
          PositiveCons(e, rest);
          var more := WithPositiveAmount(rest);
          assert ([e] + more)[1..] == more;
          assert DecodeList([e] + more) == [(key, DecodeEntry(e))] + DecodeList(more);
          ReloadCons(key, DecodeEntry(e), DecodeList(more));
        }
      }
    }
  }

  lemma {:induction false} HydratedKept(wallets: Entries<RawWallet>)
    requires !HasKey(wallets, "")
    ensures |Hydrated(wallets)| <= |wallets| == |Reload(wallets)|
    ensures Hydrated(wallets) == Reload(wallets) <==>
            forall i | 0 <= i < |wallets| :: KeptByForm(NormalizeWallet(wallets[i].1))
  {
    hide NormalizeWallet, Embed, Decoded, KeptByForm, Reload, InRange, ToNumber;
    if wallets == [] {
      ReloadNothing();
    } else {
      var (key, raw) := wallets[0];
      var rest := wallets[1..];
      assert key != "";
      assert forall i | 0 <= i < |rest| :: rest[i] == wallets[i + 1];
      HydratedKept(rest);
      assert wallets == [(key, raw)] + rest;
      ReloadCons(key, raw, rest);
      assert Reload(wallets)[1..] == Reload(rest);
      var n := NormalizeWallet(raw);
      NormalizedInRange(raw);
      if Buys(raw) {
        DecodedKept(key, n);
        DecodedInRange(key, n);
        EmbedInjective(Decoded(key, n), n);
        assert Hydrated(wallets) == [(key, Embed(Decoded(key, n)))] + Hydrated(rest);
        assert Hydrated(wallets)[1..] == Hydrated(rest);
      } else {
        KeptBuys(n);
        assert !KeptByForm(NormalizeWallet(wallets[0].1));
        assert |Hydrated(wallets)| < |Reload(wallets)|;
      }
    }
  }

  lemma KeptBuys(w: Wallet)
    ensures KeptByForm(w) ==> w.selected && ToNumber(w.amountSol).Positive()
  {
  }

  lemma DecodedInRange(key: string, w: Wallet)
    ensures InRange(Decoded(key, w))
  {
    NormalizedInRange(DecodeEntry(ExportWallet(key, w)));
  }

  lemma EmbedInjective(a: Wallet, b: Wallet)
    requires InRange(a) && InRange(b)
    ensures Embed(a) == Embed(b) <==> a == b
  {
    hide NormalizeWallet, Embed, InRange;
    WalletStable(a);
    WalletStable(b);
  }

  // Hydrating from the exported form gives back the normalised draft exactly when the form holds
  // everything there is to every wallet of it.
  lemma HydratesDraftExactly(w: Working)
    requires WellKeyed(w)
    ensures Hydrate(FormOf(w)) == Clone(w) <==>
            forall i | 0 <= i < |w.wallets| :: KeptByForm(NormalizeWallet(w.wallets[i].1))
  {
    hide SelectedEntries, WithPositiveAmount, DecodeAll, DecodeList, KeptByForm, NormalizeWallet,
         WellKeyed, NormalizeDraft;
    var entries := FormOf(w).entries;
    KeysOf(w);
    SelectedDistinct(w.wallets);
    DecodeAllIsList(entries);
    HydratedIs(w.wallets);
    HydratedKept(w.wallets);
    SetStateIs(FormOf(w).enabled, DecodeAll(entries));
    SetStateIs(w.enabled, w.wallets);
  }

  lemma KeysOf(w: Working)
    requires WellKeyed(w)
    ensures DistinctKeys(w.wallets) && !HasKey(w.wallets, "")
  {
  }

  // What setting a draft makes of its wallets, and of its switch.
  lemma SetStateIs(enabled: bool, wallets: Entries<RawWallet>)
    ensures var d := SetState(RawDraft(Bool(enabled), Some(Present(wallets))));
            d.wallets == Reload(wallets) && d.enabled == (enabled && SelectedEntries(d.wallets) != [])
  {
    hide SelectedEntries, NormalizeWallets, EmbedWallets, HasSelected, Present;
    SelectedSome(NormalizeWallets(Present(wallets)));
  }

  // A wallet that just buys does not come back as it was: decoding gives it a timeout of 30.
  lemma PlainBuyerChanged(amount: Js)
    ensures var w := Working(true, [("w", EMPTY_WALLET.(selected := Bool(true), amountSol := amount))]);
            Hydrate(FormOf(w)) != Clone(w)
  {
    hide Hydrate, FormOf, Clone, NormalizeWallet;
    var buyer := EMPTY_WALLET.(selected := Bool(true), amountSol := amount);
    var w := Working(true, [("w", buyer)]);
    HydratesDraftExactly(w);
    BuyerTimeout(amount);
    assert !KeptByForm(NormalizeWallet(w.wallets[0].1));
  }

  lemma BuyerTimeout(amount: Js)
    ensures var n := NormalizeWallet(EMPTY_WALLET.(selected := Bool(true), amountSol := amount));
            !n.sellEnabled && n.sellMarketCapTimeoutSeconds == None
  {
    hide NormalizeDecimal, NormalizeSellPercent, NormalizeBounded, NormalizeSellTrigger, NormalizeTriggerMode;
    TrimKeepsInner("");
  }
}
