/** What the sniper modal guarantees over whole editing sessions. */
module SniperSession {
  import opened Common
  import opened JsValues
  import opened SniperDraft
  import opened SniperForm
  import opened SniperValidation
  import opened SniperModal

  // --- cloning ---------------------------------------------------------------------------------

  lemma CloneStable(w: Working)
    ensures Clone(Clone(w)) == Clone(w)
  {
    hide NormalizeDraft, Present, EmbedWallets;
    DraftStable(RawDraft(Bool(w.enabled), Some(Present(w.wallets))));
  }

  // --- one modal session -------------------------------------------------------------------------

  // The step edits the draft without ending the session: neither reset, committed directly,
  // saved, hidden nor shown again.
  predicate IsEdit(s: Model, e: Event, status: Status) {
    match e
    case Show => false
    case Hide => false
    case Commit => false
    case Reset => false
    case Save => Complaints(s.working, status) != []
    case _ => true
  }

  predicate EditsOnly(s: Model, run: Run)
    decreases |run|
  {
    run != [] ==>
      IsEdit(s, run[0].0, run[0].1) && EditsOnly(Step(s, run[0].0, run[0].1), run[1..])
  }

  lemma EditKeepsSnapshot(s: Model, e: Event, status: Status)
    requires s.modalOpen && IsEdit(s, e, status)
    ensures var t := Step(s, e, status);
            t.modalOpen && t.committed == s.committed && t.stored == s.stored
  {
    hide FormOf, Clone, Persisted, Put, Get, HasKey, Embed, Merge, Deselected, SetState, Complaints, NormalizeWallet;
  }

  lemma {:induction false} EditsKeepSnapshot(s: Model, run: Run)
    requires s.modalOpen && EditsOnly(s, run)
    ensures var t := RunFrom(s, run);
            t.modalOpen && t.committed == s.committed && t.stored == s.stored
    decreases |run|
  {
    hide Step, IsEdit;
    if run != [] {
      EditKeepsSnapshot(s, run[0].0, run[0].1);
      EditsKeepSnapshot(Step(s, run[0].0, run[0].1), run[1..]);
    }
  }

  lemma ShowTakesSnapshot(s: Model, status: Status)
    ensures var t := Step(s, Show, status);
            t.modalOpen && t.committed == Clone(s.working) && t.stored == s.stored
  {
    hide FormOf, Clone, Put, Deselected;
  }

  // Cancelling: whatever was edited since the modal was shown, the draft is the normalised one
  // it was shown with, the form is derived from it again, and nothing was stored.
  lemma CancelRollsBack(s: Model, shown: Status, run: Run, hidden: Status)
    requires EditsOnly(Step(s, Show, shown), run)
    ensures var draft := Clone(s.working);
            RunFrom(Step(s, Show, shown), run + [(Hide, hidden)]) == Model(draft, draft, false, FormOf(draft), s.stored)
  {
    hide Clone, FormOf, EditsOnly;
    var shownState := Step(s, Show, shown);
    ShowTakesSnapshot(s, shown);
    EditsKeepSnapshot(shownState, run);
    RunAppend(shownState, run, Hide, hidden);
    HideRestores(RunFrom(shownState, run), hidden);
    CloneStable(s.working);
  }

  lemma HideRestores(t: Model, status: Status)
    requires t.modalOpen
    ensures var draft := Clone(t.committed);
            Step(t, Hide, status) == Model(draft, t.committed, false, FormOf(draft), t.stored)
  {
    hide Clone, FormOf;
  }

  lemma {:induction false} RunAppend(s: Model, run: Run, e: Event, status: Status)
    ensures RunFrom(s, run + [(e, status)]) == Step(RunFrom(s, run), e, status)
    decreases |run|
  {
    hide Step;
    if run == [] {
      assert run + [(e, status)] == [(e, status)];
      assert [(e, status)][1..] == [];
      assert RunFrom(Step(s, e, status), []) == Step(s, e, status);
    } else {
      assert (run + [(e, status)])[1..] == run[1..] + [(e, status)];
      RunAppend(Step(s, run[0].0, run[0].1), run[1..], e, status);
    }
  }

  // Whether an edit in the open modal writes the form: it is re-applied from outside, or a
  // render drops the deployer's wallet from the draft.
  predicate WritesForm(s: Model, e: Event, status: Status) {
    var deployer := status.selectedKey;
    match e
    case SetWallet(key, _, _, render) =>
      render && deployer != "" && (key == deployer || HasKey(s.working.wallets, deployer))
    case PatchAutosell(key, _, _, render) =>
      && render && deployer != "" && HasKey(s.working.wallets, deployer)
      && NormalizeWallet(Get(s.working.wallets, key, EMPTY_WALLET)).selected
    case Toggle(_) => deployer != "" && HasKey(s.working.wallets, deployer)
    case Render => deployer != "" && HasKey(s.working.wallets, deployer)
    case ApplyForm => true
    case _ => false
  }

  // While the modal is open an edit leaves every form as it is exactly when it does not write
  // the form; when it does, the form shows the unsaved draft.
  lemma FormHeldWhileOpen(s: Model, e: Event, status: Status)
    requires s.modalOpen && IsEdit(s, e, status)
    ensures (forall f: Form :: Step(s.(form := f), e, status).form == f) <==> !WritesForm(s, e, status)
    ensures WritesForm(s, e, status) ==> Step(s, e, status).form == FormOf(Step(s, e, status).working)
  {
    hide Step, FormOf, WritesForm, IsEdit;
    EditForm(s, e, status, s.form);
    if WritesForm(s, e, status) {
      var g := FormOf(Step(s, e, status).working);
      var f := g.(enabled := !g.enabled);
      EditForm(s, e, status, f);
      assert Step(s.(form := f), e, status).form != f;
    } else {
      forall f: Form ensures Step(s.(form := f), e, status).form == f {
        EditForm(s, e, status, f);
      }
    }
  }

  lemma EditForm(s: Model, e: Event, status: Status, f: Form)
    requires s.modalOpen && IsEdit(s, e, status)
    ensures var t := Step(s.(form := f), e, status);
            && t.working == Step(s, e, status).working
            && t.form == if WritesForm(s, e, status) then FormOf(t.working) else f
  {
    hide FormOf, Clone, Persisted, SetState, Complaints, NormalizeWallet, Embed, HasKey, Get, Put, Rendered, Merge;
    match e
    case SetWallet(key, patch, _, _) =>
      PatchedKeys(s, key, patch, status.selectedKey);
      RenderedWhileOpen(Patched(s.(form := f), key, patch), status);
      RenderedWhileOpen(Patched(s, key, patch), status);
    case PatchAutosell(key, patch, _, _) =>
      PatchedKeys(s, key, patch, status.selectedKey);
      UnkeyedUnselected(s.working.wallets, key);
      RenderedWhileOpen(Patched(s.(form := f), key, patch), status);
      RenderedWhileOpen(Patched(s, key, patch), status);
    case Toggle(on) =>
      RenderedWhileOpen(s.(form := f, working := s.working.(enabled := on)), status);
      RenderedWhileOpen(s.(working := s.working.(enabled := on)), status);
    case Render =>
      RenderedWhileOpen(s.(form := f), status);
      RenderedWhileOpen(s, status);
    case _ =>
  }

  // A draft with the deployer's wallet, not selected; the modal is shown and sniping switched on.
  function UnsavedToggle(status: Status): Run {
    [(ReplaceState(RawDraft(Bool(false), Some([(status.selectedKey, Some(EMPTY_WALLET))]))), status),
     (Show, status), (Toggle(true), status)]
  }

  // Then the form says sniping is on, though neither the snapshot nor the store does.
  lemma UnsavedDraftInForm(status: Status)
    requires status.selectedKey != ""
    ensures var t := RunFrom(INITIAL, UnsavedToggle(status));
            t.modalOpen && t.form.enabled && !t.committed.enabled && t.stored == None
  {
    hide FormOf, NormalizeWallet, Embed, Deselected, Step, Complaints;
    var run := UnsavedToggle(status);
    var s1 := Step(INITIAL, run[0].0, status);
    var s2 := Step(s1, Show, status);
    var s3 := Step(s2, Toggle(true), status);
    assert RunFrom(INITIAL, run) == s3 by {
      assert run[1..] == [(Show, status), (Toggle(true), status)] && run[1..][1..] == [(Toggle(true), status)];
      assert RunFrom(s2, [(Toggle(true), status)]) == RunFrom(s3, []);
    }
    LoadedKeyed(status);
    ShownKeyed(s1, status);
    ToggledForm(s2, status);
  }

  lemma LoadedKeyed(status: Status)
    requires status.selectedKey != ""
    ensures var s := Step(INITIAL, UnsavedToggle(status)[0].0, status);
            !s.working.enabled && HasKey(s.working.wallets, status.selectedKey) && s.stored == None
  {
    hide NormalizeWallet, Embed, Clone;
    var raw := [(status.selectedKey, Some(EMPTY_WALLET))];
    assert raw[1..] == [] && NormalizeWallets([]) == [];
    var wallets := SetState(RawDraft(Bool(false), Some(raw))).wallets;
    assert wallets[0].0 == status.selectedKey;
  }

  lemma ShownKeyed(s: Model, status: Status)
    requires !s.working.enabled && HasKey(s.working.wallets, status.selectedKey) && status.selectedKey != ""
    ensures var t := Step(s, Show, status);
            && t.modalOpen && !t.committed.enabled && t.stored == s.stored
            && HasKey(t.working.wallets, status.selectedKey)
  {
    hide NormalizeWallets, Present, EmbedWallets, HasSelected, FormOf, Deselected, Get;
    var key := status.selectedKey;
    PutKeys(s.working.wallets, key, Deselected(Get(s.working.wallets, key, EMPTY_WALLET)));
  }

  lemma ToggledForm(s: Model, status: Status)
    requires s.modalOpen && status.selectedKey != "" && HasKey(s.working.wallets, status.selectedKey)
    ensures var t := Step(s, Toggle(true), status);
            t.modalOpen && t.form.enabled && t.committed == s.committed && t.stored == s.stored
  {
    hide Deselected, Get, Put, HasKey, SelectedEntries;
  }

  lemma PatchedKeys(s: Model, key: string, patch: Patch, k: string)
    ensures HasKey(Patched(s, key, patch).working.wallets, k) <==> k == key || HasKey(s.working.wallets, k)
  {
    hide NormalizeWallet, Embed, HasKey, Get, Merge;
    var current := Embed(NormalizeWallet(Get(s.working.wallets, key, EMPTY_WALLET)));
    PutKeys(s.working.wallets, key, Merge(current, patch));
    PutKeepsKeys(s.working.wallets, key, Merge(current, patch));
  }

  lemma UnkeyedUnselected(wallets: Entries<RawWallet>, key: string)
    ensures NormalizeWallet(Get(wallets, key, EMPTY_WALLET)).selected ==> HasKey(wallets, key)
  {
    hide NormalizeWallet;
    NormalizedSelected(EMPTY_WALLET);
    GetAbsent(wallets, key);
  }

  lemma {:induction false} GetAbsent(wallets: Entries<RawWallet>, key: string)
    ensures HasKey(wallets, key) || Get(wallets, key, EMPTY_WALLET) == EMPTY_WALLET
  {
    if wallets != [] && wallets[0].0 != key {
      GetAbsent(wallets[1..], key);
      if HasKey(wallets[1..], key) {
        var i :| 0 <= i < |wallets[1..]| && wallets[1..][i].0 == key;
        assert wallets[i + 1].0 == key;
      }
    }
  }

  // What a render does to the form of an open modal.
  lemma RenderedWhileOpen(s: Model, status: Status)
    requires s.modalOpen
    ensures var t := Rendered(s, status);
            && (forall f: Form :: Rendered(s.(form := f), status).working == t.working)
            && t.form == if status.selectedKey != "" && HasKey(s.working.wallets, status.selectedKey)
                         then FormOf(t.working) else s.form
  {
    hide FormOf, NormalizeWallet, Embed, HasKey, Get, Put, Deselected;
  }

  lemma {:induction false} PutKeepsKeys<T>(entries: Entries<T>, key: string, value: T)
    ensures forall k: string :: HasKey(entries, k) ==> HasKey(Put(entries, key, value), k)
  {
    var put := Put(entries, key, value);
    if entries != [] {
      PutKeepsKeys(entries[1..], key, value);
      forall k | HasKey(entries, k) ensures HasKey(put, k) {
        var i :| 0 <= i < |entries| && entries[i].0 == k;
        if i == 0 || entries[0].0 == key {
          assert put[i].0 == k;
        } else {
          assert entries[1..][i - 1].0 == k;
          assert HasKey(entries[1..], k);
          var rest := Put(entries[1..], key, value);
          var j :| 0 <= j < |rest| && rest[j].0 == k;
          assert put[j + 1].0 == k;
        }
      }
    }
  }

  lemma {:induction false} PutKeys<T>(entries: Entries<T>, key: string, value: T)
    ensures HasKey(Put(entries, key, value), key)
    ensures forall fallback: T :: Get(Put(entries, key, value), key, fallback) == value
    ensures forall k: string :: HasKey(Put(entries, key, value), k) ==> k == key || HasKey(entries, k)
    ensures DistinctKeys(entries) ==> DistinctKeys(Put(entries, key, value))
  {
    var put := Put(entries, key, value);
    if entries == [] || entries[0].0 == key {
      assert put[0] == (key, value);
      forall k | HasKey(put, k) ensures k == key || HasKey(entries, k) {
        var i :| 0 <= i < |put| && put[i].0 == k;
        assert i > 0 ==> entries[i] == put[i];
      }
    } else {
      var rest := Put(entries[1..], key, value);
      PutKeys(entries[1..], key, value);
      assert put == [entries[0]] + rest;
      var at :| 0 <= at < |rest| && rest[at].0 == key;
      assert put[at + 1].0 == key;
      forall k | HasKey(rest, k) ensures k == key || HasKey(entries, k) {
        if k != key {
          var i :| 0 <= i < |entries[1..]| && entries[1..][i].0 == k;
          assert entries[i + 1].0 == k;
        }
      }
      forall k | HasKey(put, k) ensures k == key || HasKey(entries, k) {
        var i :| 0 <= i < |put| && put[i].0 == k;
        assert if i == 0 then entries[0].0 == k else rest[i - 1].0 == k;
      }
      if DistinctKeys(entries) {
        forall i | 0 <= i < |rest| ensures rest[i].0 != entries[0].0 {
          assert HasKey(rest, rest[i].0);
          if rest[i].0 != key {
            assert HasKey(entries[1..], rest[i].0);
            var j :| 0 <= j < |entries[1..]| && entries[1..][j].0 == rest[i].0;
            assert entries[j + 1].0 == rest[i].0;
          }
        }
      }
    }
  }

  // --- every reachable state -----------------------------------------------------------------------

  predicate WellKeyed(w: Working) {
    DistinctKeys(w.wallets) && !HasKey(w.wallets, "")
  }

  // JavaScript objects have distinct keys; the handlers never patch the empty one.
  predicate WellFormedEvent(e: Event) {
    match e
    case SetWallet(key, _, _, _) => key != ""
    case PatchAutosell(key, _, _, _) => key != ""
    case ReplaceState(RawDraft(_, Some(wallets))) => DistinctKeys(wallets)
    case _ => true
  }

  predicate WellFormedRun(run: Run) {
    forall i | 0 <= i < |run| :: WellFormedEvent(run[i].0)
  }

  // The drafts are well keyed, and the snapshot is always normalised.
  predicate Invariant(s: Model) {
    WellKeyed(s.working) && WellKeyed(s.committed) && Clone(s.committed) == s.committed
  }

  lemma {:induction false} NormalizedKeys(wallets: Entries<Option<RawWallet>>)
    ensures forall k: string :: HasKey(NormalizeWallets(wallets), k) ==> HasKey(wallets, k) && k != ""
    ensures DistinctKeys(wallets) ==> DistinctKeys(NormalizeWallets(wallets))
  {
    hide NormalizeWallet;
    if wallets != [] {
      NormalizedKeys(wallets[1..]);
      var rest, all := NormalizeWallets(wallets[1..]), NormalizeWallets(wallets);
      forall k | HasKey(wallets[1..], k) ensures HasKey(wallets, k) {
        var i :| 0 <= i < |wallets[1..]| && wallets[1..][i].0 == k;
        assert wallets[i + 1].0 == k;
      }
      forall k | HasKey(all, k) ensures HasKey(wallets, k) && k != "" {
        var i :| 0 <= i < |all| && all[i].0 == k;
        assert wallets[0].0 == k || HasKey(rest, k);
      }
      if DistinctKeys(wallets) && wallets[0].0 != "" {
        forall i | 0 <= i < |rest| ensures rest[i].0 != wallets[0].0 {
          assert HasKey(rest, rest[i].0);
          assert HasKey(wallets[1..], rest[i].0);
          var j :| 0 <= j < |wallets[1..]| && wallets[1..][j].0 == rest[i].0;
          assert wallets[j + 1].0 == rest[i].0;
        }
      }
    }
  }

  lemma SetStateKeyed(value: RawDraft)
    requires value.RawDraft? && value.wallets.Some? ==> DistinctKeys(value.wallets.value)
    ensures WellKeyed(SetState(value))
  {
    hide NormalizeWallets, NormalizeWallet, Embed, HasSelected;
    var wallets := if value.RawDraft? && value.wallets.Some? then value.wallets.value else [];
    NormalizedKeys(wallets);
    var d := NormalizeDraft(value);
    assert d.wallets == if value.RawDraft? && value.wallets.Some? then NormalizeWallets(wallets) else [];
    forall i | 0 <= i < |d.wallets| ensures EmbedWallets(d.wallets)[i].0 != "" {
      assert HasKey(d.wallets, d.wallets[i].0);
    }
  }

  lemma CloneKeyed(w: Working)
    requires WellKeyed(w)
    ensures WellKeyed(Clone(w))
  {
    hide SetState;
    SetStateKeyed(RawDraft(Bool(w.enabled), Some(Present(w.wallets))));
  }

  lemma RenderedInvariant(s: Model, status: Status)
    requires Invariant(s)
    ensures Invariant(Rendered(s, status))
  {
    hide FormOf, Clone, Deselected, Get, HasKey, DistinctKeys;
    var key := status.selectedKey;
    PutKeys(s.working.wallets, key, Deselected(Get(s.working.wallets, key, EMPTY_WALLET)));
  }

  lemma PatchedInvariant(s: Model, key: string, patch: Patch)
    requires Invariant(s) && key != ""
    ensures Invariant(Patched(s, key, patch))
  {
    hide Clone, Get, HasKey, DistinctKeys, Merge, NormalizeWallet, Embed;
    var current := Embed(NormalizeWallet(Get(s.working.wallets, key, EMPTY_WALLET)));
    PutKeys(s.working.wallets, key, Merge(current, patch));
  }

  lemma CommittedInvariant(s: Model)
    requires WellKeyed(s.working)
    ensures Invariant(Committed(s))
  {
    hide Clone, FormOf, Persisted, WellKeyed;
    CloneKeyed(s.working);
    CloneStable(s.working);
  }

  lemma NothingKeyed()
    ensures WellKeyed(Working(false, [])) && Clone(Working(false, [])) == Working(false, [])
  {
    EmptyWallets();
    assert NormalizeDraft(RawDraft(Bool(false), Some(Present([])))) == Draft(false, []);
  }

  lemma StepInvariant(s: Model, e: Event, status: Status)
    requires Invariant(s) && WellFormedEvent(e)
    ensures Invariant(Step(s, e, status))
  {
    hide Clone, FormOf, Persisted, WellKeyed, SetState, Complaints, Rendered, Patched, NormalizeWallet,
         DistinctKeys, Get;
    match e
    case SetWallet(key, patch, commit, render) =>
      AfterPatchInvariant(s, key, patch, commit, render, status);
    case PatchAutosell(key, patch, commit, render) =>
      AfterPatchInvariant(s, key, patch, commit, render, status);
    case Toggle(on) =>
      ToggleKeyed(s.working, on);
      RenderedInvariant(s.(working := s.working.(enabled := on)), status);
    case ReplaceState(value) =>
      SetStateKeyed(value);
      CloneKeyed(SetState(value));
      CloneStable(SetState(value));
    case Render =>
      RenderedInvariant(s, status);
    case ApplyForm =>
    case Show =>
      CloneKeyed(s.working);
      CloneStable(s.working);
      RenderedInvariant(s.(committed := Clone(s.working), modalOpen := true), status);
    case Hide =>
      CloneKeyed(s.committed);
    case Save =>
      CommittedInvariant(s.(modalOpen := false));
    case Commit =>
      CommittedInvariant(s);
    case Reset =>
      NothingKeyed();
      CommittedInvariant(s.(working := Working(false, [])));
      RenderedInvariant(Committed(s.(working := Working(false, []))), status);
  }

  lemma ToggleKeyed(w: Working, on: bool)
    requires WellKeyed(w)
    ensures WellKeyed(w.(enabled := on))
  {
  }

  lemma AfterPatchInvariant(s: Model, key: string, patch: Patch, commit: bool, render: bool, status: Status)
    requires Invariant(s) && key != ""
    ensures Invariant(AfterPatch(Patched(s, key, patch), commit, render, status))
  {
    hide Clone, FormOf, Persisted, WellKeyed, Rendered, Patched;
    PatchedInvariant(s, key, patch);
    var p := Patched(s, key, patch);
    CommittedInvariant(p);
    RenderedInvariant(p, status);
    RenderedInvariant(Committed(p), status);
  }

  lemma {:induction false} RunInvariant(s: Model, run: Run)
    requires Invariant(s) && WellFormedRun(run)
    ensures Invariant(RunFrom(s, run))
    decreases |run|
  {
    hide Step, Invariant, WellFormedEvent;
    if run != [] {
      StepInvariant(s, run[0].0, run[0].1);
      RunInvariant(Step(s, run[0].0, run[0].1), run[1..]);
    }
  }

  lemma ReachableInvariant(run: Run)
    requires WellFormedRun(run)
    ensures Invariant(RunFrom(INITIAL, run))
  {
    hide RunFrom, WellFormedRun, Clone;
    NothingKeyed();
    RunInvariant(INITIAL, run);
  }

  // --- what a patch does ----------------------------------------------------------------------------

  predicate Patches(patch: Option<Js>, before: Js, after: Js) {
    (patch.Some? ==> after == patch.value) && (patch.None? ==> after == before)
  }

  // Every field of the wallet is the patched one, or that of the wallet before.
  predicate PatchedBy(before: RawWallet, p: Patch, after: RawWallet) {
    && Patches(p.selected, before.selected, after.selected)
    && Patches(p.amountSol, before.amountSol, after.amountSol)
    && Patches(p.triggerMode, before.triggerMode, after.triggerMode)
    && Patches(p.submitDelayMs, before.submitDelayMs, after.submitDelayMs)
    && Patches(p.targetBlockOffset, before.targetBlockOffset, after.targetBlockOffset)
    && Patches(p.retryOnce, before.retryOnce, after.retryOnce)
    && Patches(p.sellEnabled, before.sellEnabled, after.sellEnabled)
    && Patches(p.sellPercent, before.sellPercent, after.sellPercent)
    && Patches(p.sellTriggerMode, before.sellTriggerMode, after.sellTriggerMode)
    && Patches(p.sellTargetBlockOffset, before.sellTargetBlockOffset, after.sellTargetBlockOffset)
    && Patches(p.sellMarketCapThreshold, before.sellMarketCapThreshold, after.sellMarketCapThreshold)
    && Patches(p.sellMarketCapTimeoutSeconds, before.sellMarketCapTimeoutSeconds, after.sellMarketCapTimeoutSeconds)
    && Patches(p.sellMarketCapTimeoutAction, before.sellMarketCapTimeoutAction, after.sellMarketCapTimeoutAction)
  }

  lemma MergePatches(w: RawWallet, p: Patch)
    ensures PatchedBy(w, p, Merge(w, p))
  {
  }

  lemma {:induction false} PutOthers<T>(entries: Entries<T>, key: string, value: T, k: string, fallback: T)
    requires k != key
    ensures HasKey(Put(entries, key, value), k) <==> HasKey(entries, k)
    ensures Get(Put(entries, key, value), k, fallback) == Get(entries, k, fallback)
  {
    hide HasKey;
    PutKeys(entries, key, value);
    PutKeepsKeys(entries, key, value);
    if entries != [] && entries[0].0 != key {
      PutOthers(entries[1..], key, value, k, fallback);
      assert Put(entries, key, value)[1..] == Put(entries[1..], key, value);
    }
  }

  // The deployer's wallet is dropped from what is bought; no other wallet changes.
  lemma RenderLaw(s: Model, status: Status, key: string)
    ensures var t := Rendered(s, status);
            && t.working.enabled == s.working.enabled
            && t.committed == s.committed && t.modalOpen == s.modalOpen && t.stored == s.stored
            && (HasKey(t.working.wallets, key) <==> HasKey(s.working.wallets, key))
            && (key != status.selectedKey || key == "" || !HasKey(s.working.wallets, key) ==>
                  Get(t.working.wallets, key, EMPTY_WALLET) == Get(s.working.wallets, key, EMPTY_WALLET))
            && (key == status.selectedKey != "" && HasKey(s.working.wallets, key) ==>
                  Get(t.working.wallets, key, EMPTY_WALLET) ==
                  Embed(NormalizeWallet(Get(s.working.wallets, key, EMPTY_WALLET)))
                    .(selected := Bool(false), amountSol := Str("")))
            && (!s.modalOpen ==> t.form == FormOf(t.working))
  {
    hide NormalizeWallet, Embed, HasKey, Get, Put, FormOf;
    var deployer := status.selectedKey;
    var dropped := Deselected(Get(s.working.wallets, deployer, EMPTY_WALLET));
    PutKeys(s.working.wallets, deployer, dropped);
    if key != deployer {
      PutOthers(s.working.wallets, deployer, dropped, key, EMPTY_WALLET);
    }
  }

  lemma AfterPatchKeeps(s: Model, commit: bool, render: bool, status: Status, key: string)
    requires key != status.selectedKey
    ensures var t := AfterPatch(s, commit, render, status);
            && Get(t.working.wallets, key, EMPTY_WALLET) == Get(s.working.wallets, key, EMPTY_WALLET)
            && (HasKey(t.working.wallets, key) <==> HasKey(s.working.wallets, key))
            && t.working.enabled == s.working.enabled && t.modalOpen == s.modalOpen
            && t.committed == (if commit && !s.modalOpen then Clone(s.working) else s.committed)
            && t.stored == (if commit && !s.modalOpen then Persisted(s.working) else s.stored)
  {
    hide NormalizeWallet, Embed, HasKey, Get, Put, FormOf, Clone, Persisted, Rendered;
    RenderLaw(s, status, key);
    RenderLaw(Committed(s), status, key);
  }

  // A patch overwrites the given fields of one normalised wallet, and leaves every other wallet
  // but the deployer's, and the switch, as they are. It is committed if asked, while the modal is closed.
  lemma PatchLaw(s: Model, key: string, patch: Patch, commit: bool, render: bool, status: Status, other: string)
    requires key != status.selectedKey
    ensures var t := Step(s, SetWallet(key, patch, commit, render), status);
            && PatchedBy(Embed(NormalizeWallet(Get(s.working.wallets, key, EMPTY_WALLET))), patch,
                         Get(t.working.wallets, key, EMPTY_WALLET))
            && HasKey(t.working.wallets, key)
            && t.working.enabled == s.working.enabled && t.modalOpen == s.modalOpen
            && (!(commit && !s.modalOpen) ==> t.committed == s.committed && t.stored == s.stored)
    ensures var t := Step(s, SetWallet(key, patch, commit, render), status);
            other != key && other != status.selectedKey ==>
              && Get(t.working.wallets, other, EMPTY_WALLET) == Get(s.working.wallets, other, EMPTY_WALLET)
              && (HasKey(t.working.wallets, other) <==> HasKey(s.working.wallets, other))
  {
    hide NormalizeWallet, Embed, HasKey, Get, Put, FormOf, Clone, Persisted, AfterPatch, PatchedBy, Merge;
    var current := Embed(NormalizeWallet(Get(s.working.wallets, key, EMPTY_WALLET)));
    var m := Patched(s, key, patch);
    MergePatches(current, patch);
    PutKeys(s.working.wallets, key, Merge(current, patch));
    AfterPatchKeeps(m, commit, render, status, key);
    if other != key && other != status.selectedKey {
      PutOthers(s.working.wallets, key, Merge(current, patch), other, EMPTY_WALLET);
      AfterPatchKeeps(m, commit, render, status, other);
    }
  }

  // Sell settings patch a selected wallet in the same way, and leave any other one alone.
  lemma AutosellLaw(s: Model, key: string, patch: Patch, commit: bool, render: bool, status: Status)
    ensures var before := Get(s.working.wallets, key, EMPTY_WALLET);
            Step(s, PatchAutosell(key, patch, commit, render), status) ==
            if before.selected.truthy then Step(s, SetWallet(key, patch, commit, render), status) else s
  {
    hide NormalizeWallet, Get, AfterPatch, Patched;
    NormalizedSelected(Get(s.working.wallets, key, EMPTY_WALLET));
  }

  // --- what the other steps do -----------------------------------------------------------------------

  // Replacing the draft leaves form and store alone; while the modal is closed the snapshot is the
  // new draft itself, as that is normalised already.
  lemma ReplaceLaw(s: Model, value: RawDraft, status: Status)
    ensures var t := Step(s, ReplaceState(value), status);
            && t.working == SetState(value)
            && t.committed == (if s.modalOpen then s.committed else t.working)
            && t == s.(working := t.working, committed := t.committed)
  {
    hide SetState, NormalizeDraft, Present, EmbedWallets;
    if !s.modalOpen {
      SetStateStable(value);
    }
  }

  lemma SetStateStable(value: RawDraft)
    ensures Clone(SetState(value)) == SetState(value)
  {
    hide NormalizeDraft, Present, EmbedWallets;
    DraftStable(value);
  }

  // The switch changes nothing else but what a render drops.
  lemma ToggleLaw(s: Model, status: Status, on: bool, key: string)
    ensures var t := Step(s, Toggle(on), status);
            && t.working.enabled == on && t.modalOpen == s.modalOpen
            && t.committed == s.committed && t.stored == s.stored
            && (key != status.selectedKey ==>
                  Get(t.working.wallets, key, EMPTY_WALLET) == Get(s.working.wallets, key, EMPTY_WALLET))
  {
    hide FormOf, Clone, Get, HasKey, Put, NormalizeWallet, Embed, Deselected, Rendered;
    RenderLaw(s.(working := s.working.(enabled := on)), status, key);
  }

  // Showing the modal keeps every wallet but the deployer's; hiding does nothing to a closed one.
  lemma ShowLaw(s: Model, status: Status, key: string)
    ensures !s.modalOpen ==> Step(s, Hide, status) == s
    ensures var t := Step(s, Show, status);
            && t.working.enabled == s.working.enabled
            && (key != status.selectedKey ==>
                  Get(t.working.wallets, key, EMPTY_WALLET) == Get(s.working.wallets, key, EMPTY_WALLET))
  {
    hide FormOf, Clone, Get, HasKey, Put, NormalizeWallet, Embed, Deselected, Rendered;
    RenderLaw(s.(committed := Clone(s.working), modalOpen := true), status, key);
  }

  // A reset leaves nothing selected, stored or shown, whether or not the modal is open.
  lemma ResetLaw(s: Model, status: Status)
    ensures Step(s, Reset, status) ==
            Model(Working(false, []), Working(false, []), s.modalOpen, Form(false, [], NoStrategy), None)
  {
    NothingKeyed();
    EmptyWallets();
    assert SelectedEntries([]) == [] && WithPositiveAmount([]) == [];
  }
}
