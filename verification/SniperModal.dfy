/** The sniper feature's editing session: a working draft, a committed snapshot, and the modal. */
module SniperModal {
  import opened Common
  import opened JsValues
  import opened SniperDraft
  import opened SniperForm
  import opened SniperValidation

  // The feature's state, its form fields, and the stored draft.
  datatype Model = Model(working: Working, committed: Working, modalOpen: bool, form: Form, stored: Option<Draft>)

  // The fields a patch overwrites.
  datatype Patch = Patch(
    selected: Option<Js>, amountSol: Option<Js>, triggerMode: Option<Js>, submitDelayMs: Option<Js>,
    targetBlockOffset: Option<Js>, retryOnce: Option<Js>, sellEnabled: Option<Js>, sellPercent: Option<Js>,
    sellTriggerMode: Option<Js>, sellTargetBlockOffset: Option<Js>, sellMarketCapThreshold: Option<Js>,
    sellMarketCapTimeoutSeconds: Option<Js>, sellMarketCapTimeoutAction: Option<Js>)

  function Over(patch: Option<Js>, current: Js): Js {
    if patch.Some? then patch.value else current
  }

  function Merge(w: RawWallet, p: Patch): RawWallet {
    RawWallet(
      Over(p.selected, w.selected), Over(p.amountSol, w.amountSol), Over(p.triggerMode, w.triggerMode),
      Over(p.submitDelayMs, w.submitDelayMs), Over(p.targetBlockOffset, w.targetBlockOffset),
      Over(p.retryOnce, w.retryOnce), Over(p.sellEnabled, w.sellEnabled), Over(p.sellPercent, w.sellPercent),
      Over(p.sellTriggerMode, w.sellTriggerMode), Over(p.sellTargetBlockOffset, w.sellTargetBlockOffset),
      Over(p.sellMarketCapThreshold, w.sellMarketCapThreshold),
      Over(p.sellMarketCapTimeoutSeconds, w.sellMarketCapTimeoutSeconds),
      Over(p.sellMarketCapTimeoutAction, w.sellMarketCapTimeoutAction))
  }

  // What the user, or the rest of the console, does to the feature.
  datatype Event =
    | SetWallet(key: string, patch: Patch, commit: bool, render: bool)
    | PatchAutosell(key: string, patch: Patch, commit: bool, render: bool)
    | Toggle(on: bool)
    | ReplaceState(value: RawDraft)
    | Render
    | ApplyForm
    | Show
    | Hide
    | Save
    | Commit
    | Reset

  function NormalizeWorking(w: Working): Draft {
    NormalizeDraft(RawDraft(Bool(w.enabled), Some(Present(w.wallets))))
  }

  // cloneDraftState: the normalised draft as a fresh object.
  function Clone(w: Working): Working {
    SetState(RawDraft(Bool(w.enabled), Some(Present(w.wallets))))
  }

  predicate NotDefault(w: Wallet) {
    || w.selected || w.amountSol != "" || !w.triggerMode.BlockOffset? || w.submitDelayMs > 0
    || w.targetBlockOffset > 0 || w.retryOnce || w.sellEnabled || w.sellPercent != ""
    || !w.sellTriggerMode.SellBlockOffset? || w.sellTargetBlockOffset > 0 || w.sellMarketCapThreshold != ""
    || w.sellMarketCapTimeoutSeconds.Some? || w.sellMarketCapTimeoutAction.Sell?
  }

  predicate HasWalletState(wallets: Entries<RawWallet>) {
    exists i | 0 <= i < |wallets| :: NotDefault(NormalizeWallet(wallets[i].1))
  }

  // persistDraft, then setStoredSniperDraft: what ends up stored.
  function Persisted(w: Working): Option<Draft> {
    var d := NormalizeWorking(w);
    if (w.enabled || HasWalletState(w.wallets)) && (d.enabled || d.wallets != []) then Some(d) else None
  }

  function Committed(s: Model): Model {
    s.(committed := Clone(s.working), form := FormOf(s.working), stored := Persisted(s.working))
  }

  function Restored(s: Model): Model {
    var working := Clone(s.committed);
    s.(working := working, form := FormOf(working))
  }

  function Deselected(raw: RawWallet): RawWallet {
    Embed(NormalizeWallet(raw)).(selected := Bool(false), amountSol := Str(""))
  }

  // renderUI, whose wallet list drops the deployer's own wallet from the draft.
  function Rendered(s: Model, status: Status): Model {
    var shown := if s.modalOpen then s else s.(form := FormOf(s.working));
    var key := status.selectedKey;
    if key == "" || !HasKey(shown.working.wallets, key) then shown
    else
      var raw := Get(shown.working.wallets, key, EMPTY_WALLET);
      var working := shown.working.(wallets := Put(shown.working.wallets, key, Deselected(raw)));
      shown.(working := working, form := FormOf(working))
  }

  function Patched(s: Model, key: string, patch: Patch): Model {
    var current := Embed(NormalizeWallet(Get(s.working.wallets, key, EMPTY_WALLET)));
    s.(working := s.working.(wallets := Put(s.working.wallets, key, Merge(current, patch))))
  }

  function AfterPatch(s: Model, commit: bool, render: bool, status: Status): Model {
    var kept := if commit && !s.modalOpen then Committed(s) else s;
    if render then Rendered(kept, status) else kept
  }

  function Step(s: Model, e: Event, status: Status): Model {
    match e
    case SetWallet(key, patch, commit, render) => AfterPatch(Patched(s, key, patch), commit, render, status)
    case PatchAutosell(key, patch, commit, render) =>
      if !NormalizeWallet(Get(s.working.wallets, key, EMPTY_WALLET)).selected then s
      else AfterPatch(Patched(s, key, patch), commit, render, status)
    case Toggle(on) => Rendered(s.(working := s.working.(enabled := on)), status)
    case ReplaceState(value) =>
      var working := SetState(value);
      s.(working := working, committed := if s.modalOpen then s.committed else Clone(working))
    case Render => Rendered(s, status)
    case ApplyForm => s.(form := FormOf(s.working))
    case Show => Rendered(s.(committed := Clone(s.working), modalOpen := true), status)
    case Hide => if s.modalOpen then Restored(s.(modalOpen := false)) else s
    case Save => if Complaints(s.working, status) != [] then s else Committed(s.(modalOpen := false))
    case Commit => Committed(s)
    case Reset => Rendered(Committed(s.(working := Working(false, []))), status)
  }

  const INITIAL := Model(Working(false, []), Working(false, []), false, Form(false, [], NoStrategy), None)

  type Run = seq<(Event, Status)>

  function RunFrom(s: Model, run: Run): Model
    decreases |run|
  {
    if run == [] then s else RunFrom(Step(s, run[0].0, run[0].1), run[1..])
  }

  // --- the implementation ----------------------------------------------------------------------

  // A draft object; the feature mutates the working one in place.
  class DraftObject {
    var enabled: bool
    var wallets: Entries<RawWallet>

    constructor (w: Working)
      ensures enabled == w.enabled && wallets == w.wallets
    {
      enabled, wallets := w.enabled, w.wallets;
    }

    function Value(): Working
      reads this
    {
      Working(enabled, wallets)
    }
  }

  class SniperFeature {
    var working: DraftObject
    var committed: DraftObject
    var modalOpen: bool
    var form: Form
    var stored: Option<Draft>

    // The snapshot never shares its object with the draft being edited.
    ghost predicate Valid()
      reads this
    {
      working != committed
    }

    ghost function View(): Model
      reads this, working, committed
    {
      Model(working.Value(), committed.Value(), modalOpen, form, stored)
    }

    constructor ()
      ensures Valid() && fresh(working) && fresh(committed)
      ensures View() == INITIAL
    {
      working := new DraftObject(Working(false, []));
      committed := new DraftObject(Working(false, []));
      modalOpen, form, stored := false, Form(false, [], NoStrategy), None;
    }

    method ApplyStateToForm()
      modifies this`form
      ensures form == FormOf(working.Value())
    {
      form := FormOf(working.Value());
    }

    method CommitState()
      requires Valid()
      modifies this
      ensures Valid() && working == old(working) && fresh(committed)
      ensures View() == Committed(old(View()))
    {
      hide FormOf, Clone, Persisted, Put, Deselected;
      committed := new DraftObject(Clone(working.Value()));
      ApplyStateToForm();
      stored := Persisted(working.Value());
    }

    method RestoreCommittedState()
      requires Valid()
      modifies this
      ensures Valid() && committed == old(committed) && fresh(working)
      ensures View() == Restored(old(View()))
    {
      hide FormOf, Clone, Persisted, Put, Deselected;
      working := new DraftObject(Clone(committed.Value()));
      ApplyStateToForm();
    }

    method RenderUI(status: Status)
      requires Valid()
      modifies this`form, working
      ensures Valid() && View() == Rendered(old(View()), status)
    {
      hide FormOf, Clone, Persisted, Put, Deselected;
      if !modalOpen {
        ApplyStateToForm();
      }
      var key := status.selectedKey;
      if key != "" && HasKey(working.wallets, key) {
        working.wallets := Put(working.wallets, key, Deselected(Get(working.wallets, key, EMPTY_WALLET)));
        ApplyStateToForm();
      }
    }

    method PatchWallet(key: string, patch: Patch, commit: bool, render: bool, status: Status)
      requires Valid()
      modifies this, working
      ensures Valid() && working == old(working) && (committed == old(committed) || fresh(committed))
      ensures View() == AfterPatch(Patched(old(View()), key, patch), commit, render, status)
    {
      hide FormOf, Clone, Persisted, Put, Deselected;
      var current := Embed(NormalizeWallet(Get(working.wallets, key, EMPTY_WALLET)));
      working.wallets := Put(working.wallets, key, Merge(current, patch));
      if commit && !modalOpen {
        CommitState();
      }
      if render {
        RenderUI(status);
      }
    }

    method SetWalletPatch(key: string, patch: Patch, commit: bool, render: bool, status: Status)
      requires Valid()
      modifies this, working
      ensures Valid() && working == old(working) && (committed == old(committed) || fresh(committed))
      ensures View() == Step(old(View()), SetWallet(key, patch, commit, render), status)
    {
      PatchWallet(key, patch, commit, render, status);
    }

    method ApplyAutosellPatch(key: string, patch: Patch, commit: bool, render: bool, status: Status)
      returns (applied: bool)
      requires Valid()
      modifies this, working
      ensures Valid() && working == old(working) && (committed == old(committed) || fresh(committed))
      ensures applied == old(NormalizeWallet(Get(working.wallets, key, EMPTY_WALLET)).selected)
      ensures View() == Step(old(View()), PatchAutosell(key, patch, commit, render), status)
    {
      hide FormOf, Clone, Persisted, Put, Deselected;
      applied := NormalizeWallet(Get(working.wallets, key, EMPTY_WALLET)).selected;
      if applied {
        PatchWallet(key, patch, commit, render, status);
      }
    }

    method ToggleEnabled(on: bool, status: Status)
      requires Valid()
      modifies this`form, working
      ensures Valid() && View() == Step(old(View()), Toggle(on), status)
    {
      hide FormOf, Clone, Persisted, Put, Deselected;
      working.enabled := on;
      RenderUI(status);
    }

    method SetStateTo(value: RawDraft, status: Status)
      requires Valid()
      modifies this
      ensures Valid() && fresh(working) && (committed == old(committed) || fresh(committed))
      ensures View() == Step(old(View()), ReplaceState(value), status)
    {
      hide FormOf, Clone, Persisted, Put, Deselected;
      working := new DraftObject(SetState(value));
      if !modalOpen {
        committed := new DraftObject(Clone(working.Value()));
      }
    }

    method ShowModal(status: Status)
      requires Valid()
      modifies this, working
      ensures Valid() && working == old(working) && fresh(committed)
      ensures View() == Step(old(View()), Show, status)
    {
      hide FormOf, Clone, Persisted, Put, Deselected;
      committed := new DraftObject(Clone(working.Value()));
      modalOpen := true;
      RenderUI(status);
    }

    method HideModal(status: Status)
      requires Valid()
      modifies this
      ensures Valid() && committed == old(committed)
      ensures if old(modalOpen) then fresh(working) else working == old(working)
      ensures View() == Step(old(View()), Hide, status)
    {
      hide FormOf, Clone, Persisted, Put, Deselected;
      if modalOpen {
        modalOpen := false;
        RestoreCommittedState();
      }
    }

    method SaveModal(status: Status)
      requires Valid()
      modifies this
      ensures Valid() && working == old(working) && (committed == old(committed) || fresh(committed))
      ensures View() == Step(old(View()), Save, status)
    {
      hide FormOf, Clone, Persisted, Put, Deselected;
      var errors := ValidateState(working.Value(), status);
      if errors != [] {
        return;
      }
      modalOpen := false;
      CommitState();
      HideModal(status);
    }

    method ResetState(status: Status)
      requires Valid()
      modifies this
      ensures Valid() && fresh(working) && fresh(committed)
      ensures View() == Step(old(View()), Reset, status)
    {
      hide FormOf, Clone, Persisted, Put, Deselected;
      working := new DraftObject(Working(false, []));
      committed := new DraftObject(Clone(working.Value()));
      CommitState();
      RenderUI(status);
    }
  }
}
