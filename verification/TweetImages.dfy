/** Tweet images in the launch form: a candidate row, one selected image, and uploads that may finish late. */
module TweetImages {
  import opened Common

  // An entry of the row; source is the text it is previewed and uploaded from.
  datatype Candidate = Candidate(id: string, source: string, removed: bool)

  // The image the launch will use: one candidate for this session only, or a stored image.
  datatype Image = Session(candidateId: string) | Stored(source: string)

  // An upload in flight. Once settled only its clean-up callback is left to happen.
  datatype Upload = Upload(candidateId: string, source: string, settled: bool)

  // An upload that became the launch image, and how many selections had been made by then.
  datatype Install = Install(selection: nat, candidateId: string, source: string)

  // Candidate state, launch image and shared upload promise; the uploads in flight; and history.
  datatype State = State(
    candidates: seq<Candidate>, selectedId: string, fromX: bool, image: Option<Image>, pending: Option<nat>,
    uploads: map<nat, Upload>, nextUpload: nat, selections: nat, installs: seq<Install>)

  const INITIAL := State([], "", false, None, None, map[], 0, 0, [])

  datatype Event =
    | Load(candidates: seq<Candidate>, fromX: bool)
    | Select(id: string, persist: bool)
    | Remove(id: string)
    | Persist
    | Settle(upload: nat, ok: bool)
    | Finish(upload: nat)
    | SaveCrop(id: string, source: string)
    | AddLibrary(id: string, source: string)
    | AddImported(images: seq<(string, string)>, selectFirst: bool)
    | SelectImported(id: string, source: string)
    | SetStored(image: Option<string>)

  // --- the row -------------------------------------------------------------------------------------

  // The first entry with this id, or the length of the row.
  function Find(cs: seq<Candidate>, id: string): (k: nat)
    ensures k <= |cs|
    ensures k < |cs| ==> cs[k].id == id
    ensures forall j :: 0 <= j < k ==> cs[j].id != id
  {
    if cs == [] then 0 else if cs[0].id == id then 0 else 1 + Find(cs[1..], id)
  }

  // The first entry with this id that is still shown.
  function FindShown(cs: seq<Candidate>, id: string): (k: nat)
    ensures k <= |cs|
    ensures k < |cs| ==> cs[k].id == id && !cs[k].removed
    ensures forall j :: 0 <= j < k ==> cs[j].id != id || cs[j].removed
  {
    if cs == [] then 0 else if cs[0].id == id && !cs[0].removed then 0 else 1 + FindShown(cs[1..], id)
  }

  function FirstShown(cs: seq<Candidate>): (k: nat)
    ensures k <= |cs|
    ensures k < |cs| ==> !cs[k].removed
    ensures forall j :: 0 <= j < k ==> cs[j].removed
  {
    if cs == [] then 0 else if !cs[0].removed then 0 else 1 + FirstShown(cs[1..])
  }

  predicate Shown(cs: seq<Candidate>, id: string) {
    FindShown(cs, id) < |cs|
  }

  // upsertLibraryImageJ7Candidate, for an image that has a preview.
  function Upserted(cs: seq<Candidate>, id: string, source: string): seq<Candidate> {
    var k := Find(cs, id);
    if k < |cs| then cs[k := Candidate(id, source, false)] else [Candidate(id, source, false)] + cs
  }

  function UpsertedAll(cs: seq<Candidate>, images: seq<(string, string)>): seq<Candidate>
    decreases |images|
  {
    if images == [] then cs
    else UpsertedAll(Upserted(cs, images[0].0, images[0].1), images[1..])
  }

  // --- the steps -----------------------------------------------------------------------------------

  // persistSelectedJ7ImageForMetadata, up to its upload.
  function Persisted(s: State): State {
    var k := FindShown(s.candidates, s.selectedId);
    if s.selectedId == "" || k == |s.candidates| || s.image != Some(Session(s.selectedId)) || s.pending.Some? then s
    else s.(uploads := s.uploads[s.nextUpload := Upload(s.selectedId, s.candidates[k].source, false)],
            pending := Some(s.nextUpload), nextUpload := s.nextUpload + 1)
  }

  // selectJ7ImageCandidate
  function Selected(s: State, id: string, persist: bool): State {
    if !Shown(s.candidates, id) then s
    else
      var t := s.(pending := if s.image == Some(Session(id)) then s.pending else None,
                  selectedId := id, image := Some(Session(id)), selections := s.selections + 1);
      if persist then Persisted(t) else t
  }

  // removeJ7ImageCandidate
  function Removed(s: State, id: string): State {
    var k := Find(s.candidates, id);
    if k == |s.candidates| then s
    else
      var t := s.(candidates := s.candidates[k := s.candidates[k].(removed := true)]);
      if s.selectedId != id then t
      else
        var next := FirstShown(t.candidates);
        if next < |t.candidates| && !s.fromX then Selected(t, t.candidates[next].id, true)
        else t.(selectedId := "", image := None)
  }

  // The upload's reply: it becomes the launch image only if its candidate is still the session image.
  function Settled(s: State, p: nat, ok: bool): State
    requires p in s.uploads
  {
    var u := s.uploads[p];
    var t := s.(uploads := s.uploads[p := u.(settled := true)]);
    if ok && s.selectedId == u.candidateId && s.image == Some(Session(u.candidateId))
    then t.(image := Some(Stored(u.source)), installs := s.installs + [Install(s.selections, u.candidateId, u.source)])
    else t
  }

  // The upload's finally callback.
  function Finished(s: State, p: nat): State {
    s.(uploads := s.uploads - {p}, pending := if s.pending == Some(p) then None else s.pending)
  }

  // loadJ7TweetContextFromShell, for the candidates left after normalising and sorting.
  function Loaded(s: State, cs: seq<Candidate>, fromX: bool): State {
    var t := s.(candidates := cs, fromX := fromX);
    if cs != [] && !fromX then Selected(t, cs[0].id, true) else t.(selectedId := "", image := None)
  }

  // saveJ7CroppedCandidate
  function Cropped(s: State, id: string, source: string): State {
    Selected(s.(candidates := [Candidate(id, source, false)] + s.candidates), id, true)
  }

  // addLibraryImageToJ7Row
  function LibraryAdded(s: State, id: string, source: string): State {
    s.(candidates := Upserted(s.candidates, id, source), selectedId := id, pending := None)
  }

  // addImportedVampImagesToJ7Row
  function ImportedAdded(s: State, images: seq<(string, string)>, selectFirst: bool): State {
    if images == [] then s
    else s.(candidates := UpsertedAll(s.candidates, images), pending := None,
            selectedId := if selectFirst then images[0].0 else s.selectedId)
  }

  predicate Enabled(s: State, e: Event) {
    match e
    case Load(cs, _) => forall c | c in cs :: c.id != "" && !c.removed
    case Settle(p, _) => p in s.uploads && !s.uploads[p].settled
    case Finish(p) => p in s.uploads && s.uploads[p].settled
    case SaveCrop(id, _) => id != ""
    case AddLibrary(id, _) => id != ""
    case AddImported(images, _) => forall image | image in images :: image.0 != ""
    case SelectImported(id, _) => id != ""
    case _ => true
  }

  function Step(s: State, e: Event): State {
    if !Enabled(s, e) then s
    else
      match e
      case Load(cs, fromX) => Loaded(s, cs, fromX)
      case Select(id, persist) => Selected(s, id, persist)
      case Remove(id) => Removed(s, id)
      case Persist => Persisted(s)
      case Settle(p, ok) => Settled(s, p, ok)
      case Finish(p) => Finished(s, p)
      case SaveCrop(id, source) => Cropped(s, id, source)
      case AddLibrary(id, source) => LibraryAdded(s, id, source)
      case AddImported(images, selectFirst) => ImportedAdded(s, images, selectFirst)
      case SelectImported(id, source) => s.(candidates := Upserted(s.candidates, id, source), selectedId := id)
      case SetStored(image) => s.(image := if image.Some? then Some(Stored(image.value)) else None)
  }

  function RunFrom(s: State, run: seq<Event>): State
    decreases |run|
  {
    if run == [] then s else RunFrom(Step(s, run[0]), run[1..])
  }

  // --- the implementation --------------------------------------------------------------------------

  class ImageRow {
    var candidates: seq<Candidate>
    var selectedId: string
    var fromX: bool
    var image: Option<Image>
    var pending: Option<nat>

    // The uploads in flight.
    var uploads: map<nat, Upload>
    var nextUpload: nat

    ghost var selections: nat
    ghost var installs: seq<Install>

    ghost function View(): State
      reads this
    {
      State(candidates, selectedId, fromX, image, pending, uploads, nextUpload, selections, installs)
    }

    constructor ()
      ensures View() == INITIAL
    {
      candidates, selectedId, fromX, image, pending := [], "", false, None, None;
      uploads, nextUpload, selections, installs := map[], 0, 0, [];
    }

    method PersistSelected()
      modifies this
      ensures View() == Persisted(old(View()))
    {
      if selectedId == "" {
        return;
      }
      var k := FindShown(candidates, selectedId);
      if k == |candidates| || image != Some(Session(selectedId)) {
        return;
      }
      if pending == None {
        uploads := uploads[nextUpload := Upload(candidates[k].id, candidates[k].source, false)];
        pending := Some(nextUpload);
        nextUpload := nextUpload + 1;
      }
    }

    method SelectCandidate(id: string, persist: bool)
      modifies this
      ensures View() == Selected(old(View()), id, persist)
    {
      var k := FindShown(candidates, id);
      if k == |candidates| {
        return;
      }
      if image != Some(Session(id)) {
        pending := None;
      }
      selectedId := candidates[k].id;
      image := Some(Session(candidates[k].id));
      selections := selections + 1;
      if persist {
        PersistSelected();
      }
    }

    method RemoveCandidate(id: string)
      modifies this
      ensures View() == Removed(old(View()), id)
    {
      var k := Find(candidates, id);
      if k == |candidates| {
        return;
      }
      candidates := candidates[k := candidates[k].(removed := true)];
      if selectedId == id {
        var next := FirstShown(candidates);
        if next < |candidates| && !fromX {
          SelectCandidate(candidates[next].id, true);
          return;
        }
        selectedId := "";
        image := None;
      }
    }

    method OnUploaded(p: nat, ok: bool)
      requires p in uploads
      modifies this
      ensures View() == Settled(old(View()), p, ok)
    {
      var u := uploads[p];
      uploads := uploads[p := u.(settled := true)];
      if !ok || selectedId != u.candidateId || image != Some(Session(u.candidateId)) {
        return;
      }
      image := Some(Stored(u.source));
      installs := installs + [Install(selections, u.candidateId, u.source)];
    }

    method OnFinally(p: nat)
      modifies this
      ensures View() == Finished(old(View()), p)
    {
      uploads := uploads - {p};
      if pending == Some(p) {
        pending := None;
      }
    }

    method LoadContext(loaded: seq<Candidate>, x: bool)
      modifies this
      ensures View() == Loaded(old(View()), loaded, x)
    {
      fromX := x;
      candidates := loaded;
      if candidates != [] && !fromX {
        SelectCandidate(candidates[0].id, true);
      } else {
        selectedId := "";
        image := None;
      }
    }

    method SaveCropped(id: string, source: string)
      modifies this
      ensures View() == Cropped(old(View()), id, source)
    {
      candidates := [Candidate(id, source, false)] + candidates;
      SelectCandidate(id, false);
      PersistSelected();
    }

    method Upsert(id: string, source: string)
      modifies this
      ensures View() == old(View()).(candidates := Upserted(old(candidates), id, source))
    {
      var k := Find(candidates, id);
      if k < |candidates| {
        candidates := candidates[k := Candidate(id, source, false)];
      } else {
        candidates := [Candidate(id, source, false)] + candidates;
      }
    }

    method AddLibraryImage(id: string, source: string)
      modifies this
      ensures View() == LibraryAdded(old(View()), id, source)
    {
      Upsert(id, source);
      selectedId := id;
      pending := None;
    }

    method AddImportedImages(images: seq<(string, string)>, selectFirst: bool)
      modifies this
      ensures View() == ImportedAdded(old(View()), images, selectFirst)
    {
      var i := 0;
      while i < |images|
        invariant 0 <= i <= |images|
        invariant UpsertedAll(candidates, images[i..]) == UpsertedAll(old(candidates), images)
        invariant View() == old(View()).(candidates := candidates)
      {
        assert images[i..][1..] == images[i + 1..];
        Upsert(images[i].0, images[i].1);
        i := i + 1;
      }
      if images == [] {
        return;
      }
      pending := None;
      if selectFirst {
        selectedId := images[0].0;
      }
    }
  }

  // --- what every run keeps ------------------------------------------------------------------------

  // The selected id is empty or names an entry that is still shown.
  predicate SelectionShown(s: State) {
    s.selectedId == "" || Shown(s.candidates, s.selectedId)
  }

  // The shared promise is an upload in flight, and never one of another candidate than the session image.
  predicate AwaitsOwn(s: State) {
    s.pending.Some? ==>
      && s.pending.value in s.uploads
      && (s.image.Some? && s.image.value.Session? ==>
            s.uploads[s.pending.value].candidateId == s.image.value.candidateId)
  }

  // Installs come from ever later selections; a session image has not been installed yet.
  predicate InstallsOnce(s: State) {
    && (forall i, j | 0 <= i < j < |s.installs| :: s.installs[i].selection < s.installs[j].selection)
    && (forall i | 0 <= i < |s.installs| ::
          if s.image.Some? && s.image.value.Session? then s.installs[i].selection < s.selections
          else s.installs[i].selection <= s.selections)
  }

  predicate Numbered(s: State) {
    && (forall c | c in s.candidates :: c.id != "")
    && (forall p | p in s.uploads :: p < s.nextUpload)
    && (s.image.Some? && s.image.value.Session? ==> s.image.value.candidateId != "")
  }

  predicate Invariant(s: State) {
    SelectionShown(s) && AwaitsOwn(s) && InstallsOnce(s) && Numbered(s)
  }

  lemma ShownAt(cs: seq<Candidate>, k: nat)
    requires k < |cs| && !cs[k].removed
    ensures Shown(cs, cs[k].id)
  {
  }

  lemma UpsertedShows(cs: seq<Candidate>, id: string, source: string)
    ensures var after := Upserted(cs, id, source);
            && Shown(after, id)
            && (forall other | Shown(cs, other) :: Shown(after, other))
            && (forall c | c in after :: c in cs || c == Candidate(id, source, false))
  {
    var after := Upserted(cs, id, source);
    var k := Find(cs, id);
    ShownAt(after, if k < |cs| then k else 0);
    forall other | Shown(cs, other) ensures Shown(after, other) {
      var j := FindShown(cs, other);
      ShownAt(after, if k < |cs| then j else j + 1);
    }
  }

  lemma {:induction false} UpsertedAllShows(cs: seq<Candidate>, images: seq<(string, string)>)
    ensures var after := UpsertedAll(cs, images);
            && (forall other | Shown(cs, other) :: Shown(after, other))
            && (forall image | image in images :: Shown(after, image.0))
            && (forall c | c in after ::
                  c in cs || exists image | image in images :: c == Candidate(image.0, image.1, false))
    decreases |images|
  {
    hide Upserted, Shown;
    if images != [] {
      var next := Upserted(cs, images[0].0, images[0].1);
      UpsertedShows(cs, images[0].0, images[0].1);
      UpsertedAllShows(next, images[1..]);
      forall image | image in images ensures Shown(UpsertedAll(cs, images), image.0) {
        if image != images[0] {
          assert image in images[1..];
        }
      }
    }
  }

  lemma PersistedInvariant(s: State)
    requires Invariant(s)
    ensures Invariant(Persisted(s))
  {
    hide Shown;
  }

  lemma SelectedInvariant(s: State, id: string, persist: bool)
    requires InstallsOnce(s) && Numbered(s) && AwaitsOwn(s)
    requires SelectionShown(s) || Shown(s.candidates, id)
    ensures Invariant(Selected(s, id, persist))
  {
    hide Persisted;
    if Shown(s.candidates, id) {
      var t := s.(pending := if s.image == Some(Session(id)) then s.pending else None,
                  selectedId := id, image := Some(Session(id)), selections := s.selections + 1);
      PersistedInvariant(t);
    }
  }

  lemma RemovedInvariant(s: State, id: string)
    requires Invariant(s)
    ensures Invariant(Removed(s, id))
  {
    hide Selected, Shown;
    var k := Find(s.candidates, id);
    if k < |s.candidates| {
      var t := s.(candidates := s.candidates[k := s.candidates[k].(removed := true)]);
      assert forall c | c in t.candidates :: c.id != "";
      if s.selectedId != id {
        if s.selectedId != "" {
          ShownFound(s.candidates, s.selectedId);
          ShownAt(t.candidates, FindShown(s.candidates, s.selectedId));
        }
      } else if FirstShown(t.candidates) < |t.candidates| {
        ShownAt(t.candidates, FirstShown(t.candidates));
        SelectedInvariant(t, t.candidates[FirstShown(t.candidates)].id, true);
      }
    }
  }

  lemma LoadedInvariant(s: State, cs: seq<Candidate>, fromX: bool)
    requires Invariant(s) && Enabled(s, Load(cs, fromX))
    ensures Invariant(Loaded(s, cs, fromX))
  {
    hide Selected;
    if cs != [] && !fromX {
      ShownAt(cs, 0);
      SelectedInvariant(s.(candidates := cs, fromX := fromX), cs[0].id, true);
    }
  }

  lemma CroppedInvariant(s: State, id: string, source: string)
    requires Invariant(s) && id != ""
    ensures Invariant(Cropped(s, id, source))
  {
    hide Selected;
    var cs := [Candidate(id, source, false)] + s.candidates;
    ShownAt(cs, 0);
    SelectedInvariant(s.(candidates := cs), id, true);
  }

  lemma ImportedInvariant(s: State, images: seq<(string, string)>, selectFirst: bool)
    requires Invariant(s) && Enabled(s, AddImported(images, selectFirst))
    ensures Invariant(ImportedAdded(s, images, selectFirst))
  {
    hide UpsertedAll, Shown;
    UpsertedAllShows(s.candidates, images);
  }

  lemma UpsertInvariant(s: State, id: string, source: string, pending: Option<nat>)
    requires Invariant(s) && id != "" && (pending == None || pending == s.pending)
    ensures Invariant(s.(candidates := Upserted(s.candidates, id, source), selectedId := id, pending := pending))
  {
    hide Upserted, Shown;
    UpsertedShows(s.candidates, id, source);
  }

  lemma SettledInvariant(s: State, p: nat, ok: bool)
    requires Invariant(s) && p in s.uploads
    ensures Invariant(Settled(s, p, ok))
  {
    hide Shown;
  }

  lemma FinishedInvariant(s: State, p: nat)
    requires Invariant(s)
    ensures Invariant(Finished(s, p))
  {
    hide Shown;
  }

  lemma StepInvariant(s: State, e: Event)
    requires Invariant(s)
    ensures Invariant(Step(s, e))
  {
    hide Shown, Selected, Persisted, Removed, Loaded, Cropped, LibraryAdded, ImportedAdded, Settled, Finished, Upserted;
    if Enabled(s, e) {
      match e
      case Load(cs, fromX) => LoadedInvariant(s, cs, fromX);
      case Select(id, persist) => SelectedInvariant(s, id, persist);
      case Remove(id) => RemovedInvariant(s, id);
      case Persist => PersistedInvariant(s);
      case Settle(p, ok) => SettledInvariant(s, p, ok);
      case Finish(p) => FinishedInvariant(s, p);
      case SaveCrop(id, source) => CroppedInvariant(s, id, source);
      case AddLibrary(id, source) => LibraryInvariant(s, id, source);
      case AddImported(images, selectFirst) => ImportedInvariant(s, images, selectFirst);
      case SelectImported(id, source) => UpsertInvariant(s, id, source, s.pending);
      case SetStored(image) =>
    }
  }

  lemma LibraryInvariant(s: State, id: string, source: string)
    requires Invariant(s) && id != ""
    ensures Invariant(LibraryAdded(s, id, source))
  {
    UpsertInvariant(s, id, source, None);
  }

  lemma {:induction false} RunInvariant(s: State, run: seq<Event>)
    requires Invariant(s)
    ensures Invariant(RunFrom(s, run))
    decreases |run|
  {
    hide Step, Invariant;
    if run != [] {
      StepInvariant(s, run[0]);
      RunInvariant(Step(s, run[0]), run[1..]);
    }
  }

  lemma ReachableInvariant(run: seq<Event>)
    ensures Invariant(RunFrom(INITIAL, run))
  {
    hide RunFrom;
    RunInvariant(INITIAL, run);
  }

  // --- main results --------------------------------------------------------------------------------

  // In every interleaving the selected id is empty or names an entry still shown, the shared
  // promise never stands for another candidate than the session image, and no selection is
  // installed twice.
  lemma RowIsSound(run: seq<Event>)
    ensures var s := RunFrom(INITIAL, run);
            && (s.selectedId == "" || exists c | c in s.candidates :: c.id == s.selectedId && !c.removed)
            && (s.pending.Some? ==> s.pending.value in s.uploads)
            && (s.pending.Some? && s.image.Some? && s.image.value.Session? ==>
                  s.uploads[s.pending.value].candidateId == s.image.value.candidateId)
            && (forall i, j | 0 <= i < j < |s.installs| :: s.installs[i].selection < s.installs[j].selection)
  {
    hide RunFrom;
    ReachableInvariant(run);
    var s := RunFrom(INITIAL, run);
    if s.selectedId != "" {
      assert s.candidates[FindShown(s.candidates, s.selectedId)] in s.candidates;
    }
  }

  // Whatever happened before, an upload becomes the launch image only by its own successful
  // reply, and only while its candidate is the session image, selected and still shown.
  lemma InstallsWhileSelected(run: seq<Event>, e: Event)
    ensures var s := RunFrom(INITIAL, run);
            var t := Step(s, e);
            t.installs != s.installs ==>
              && e.Settle? && e.ok && e.upload in s.uploads && !s.uploads[e.upload].settled
              && s.selectedId == s.uploads[e.upload].candidateId
              && s.image == Some(Session(s.selectedId))
              && (exists c | c in s.candidates :: c.id == s.selectedId && !c.removed)
              && t.image == Some(Stored(s.uploads[e.upload].source))
              && t.installs == s.installs + [Install(s.selections, s.selectedId, s.uploads[e.upload].source)]
  {
    hide RunFrom, Shown;
    ReachableInvariant(run);
    var s := RunFrom(INITIAL, run);
    var t := Step(s, e);
    if t.installs != s.installs {
      OnlySettlesInstall(s, e);
      NamedShown(s);
    }
  }

  lemma NamedShown(s: State)
    requires SelectionShown(s)
    ensures s.selectedId == "" || exists c | c in s.candidates :: c.id == s.selectedId && !c.removed
  {
    if s.selectedId != "" {
      assert s.candidates[FindShown(s.candidates, s.selectedId)] in s.candidates;
    }
  }

  lemma OnlySettlesInstall(s: State, e: Event)
    requires Numbered(s) && Step(s, e).installs != s.installs
    ensures e.Settle? && Enabled(s, e) && e.ok && s.selectedId == s.uploads[e.upload].candidateId
    ensures s.image == Some(Session(s.selectedId))
    ensures Step(s, e).image == Some(Stored(s.uploads[e.upload].source))
    ensures Step(s, e).installs == s.installs + [Install(s.selections, s.selectedId, s.uploads[e.upload].source)]
  {
    hide Shown, Upserted, UpsertedAll;
  }

  // A persist request for the selected session image always awaits an upload of that very
  // candidate - a new one, or the one already under way - whose success makes it the launch image.
  lemma PersistCompletes(run: seq<Event>)
    ensures var s := RunFrom(INITIAL, run);
            s.selectedId != "" && s.image == Some(Session(s.selectedId)) ==>
              var t := Step(s, Persist);
              && t.pending.Some? && t.pending.value in t.uploads
              && t.uploads[t.pending.value].candidateId == s.selectedId
              && (!t.uploads[t.pending.value].settled ==>
                    Step(t, Settle(t.pending.value, true)).image == Some(Stored(t.uploads[t.pending.value].source)))
  {
    hide RunFrom, Shown;
    ReachableInvariant(run);
    var s := RunFrom(INITIAL, run);
    if s.selectedId != "" {
      assert FindShown(s.candidates, s.selectedId) < |s.candidates| by { ShownFound(s.candidates, s.selectedId); }
    }
  }

  lemma ShownFound(cs: seq<Candidate>, id: string)
    requires Shown(cs, id)
    ensures FindShown(cs, id) < |cs|
  {
  }

  // --- whose source is stored -------------------------------------------------------------------

  // Everything the event puts into the row has the source its id stands for.
  predicate Follows(e: Event, source: string -> string) {
    match e
    case Load(cs, _) => forall c | c in cs :: c.source == source(c.id)
    case SaveCrop(id, text) => text == source(id)
    case AddLibrary(id, text) => text == source(id)
    case AddImported(images, _) => forall image | image in images :: image.1 == source(image.0)
    case SelectImported(id, text) => text == source(id)
    case _ => true
  }

  predicate Faithful(s: State, source: string -> string) {
    && (forall c | c in s.candidates :: c.source == source(c.id))
    && (forall p | p in s.uploads :: s.uploads[p].source == source(s.uploads[p].candidateId))
    && (forall i | 0 <= i < |s.installs| :: s.installs[i].source == source(s.installs[i].candidateId))
  }

  lemma SelectedFaithful(s: State, id: string, persist: bool, source: string -> string)
    requires Faithful(s, source)
    ensures Faithful(Selected(s, id, persist), source)
  {
  }

  lemma RemovedFaithful(s: State, id: string, source: string -> string)
    requires Faithful(s, source)
    ensures Faithful(Removed(s, id), source)
  {
    hide Shown, Selected;
    var k := Find(s.candidates, id);
    if k < |s.candidates| {
      var t := s.(candidates := s.candidates[k := s.candidates[k].(removed := true)]);
      assert s.candidates[k] in s.candidates;
      if FirstShown(t.candidates) < |t.candidates| {
        SelectedFaithful(t, t.candidates[FirstShown(t.candidates)].id, true, source);
      }
    }
  }

  lemma StepFaithful(s: State, e: Event, source: string -> string)
    requires Faithful(s, source) && Follows(e, source)
    ensures Faithful(Step(s, e), source)
  {
    hide Shown, Selected, Upserted, UpsertedAll, Removed;
    match e
    case Load(cs, fromX) =>
      if cs != [] {
        SelectedFaithful(s.(candidates := cs, fromX := fromX), cs[0].id, true, source);
      }
    case Select(id, persist) => SelectedFaithful(s, id, persist, source);
    case Remove(id) => RemovedFaithful(s, id, source);
    case SaveCrop(id, text) =>
      SelectedFaithful(s.(candidates := [Candidate(id, text, false)] + s.candidates), id, true, source);
    case AddImported(images, _) => UpsertedAllShows(s.candidates, images);
    case AddLibrary(id, text) => UpsertedShows(s.candidates, id, text);
    case SelectImported(id, text) => UpsertedShows(s.candidates, id, text);
    case _ =>
  }

  lemma {:induction false} RunFaithful(s: State, run: seq<Event>, source: string -> string)
    requires Faithful(s, source) && forall e | e in run :: Follows(e, source)
    ensures Faithful(RunFrom(s, run), source)
    decreases |run|
  {
    hide Step, Faithful, Follows;
    if run != [] {
      StepFaithful(s, run[0], source);
      RunFaithful(Step(s, run[0]), run[1..], source);
    }
  }

  // As long as an id never changes its source, what is installed is the source of the entry
  // selected at that moment.
  lemma InstallsSelectedSource(run: seq<Event>, e: Event, source: string -> string)
    requires forall event | event in run :: Follows(event, source)
    ensures var s := RunFrom(INITIAL, run);
            var t := Step(s, e);
            t.installs != s.installs ==>
              exists c | c in s.candidates :: c.id == s.selectedId && !c.removed && t.image == Some(Stored(c.source))
  {
    hide RunFrom, Step, Follows;
    RunFaithful(INITIAL, run, source);
    InstallsWhileSelected(run, e);
  }

  // The ids and sources an event puts into the row.
  function Writes(e: Event): seq<(string, string)> {
    match e
    case Load(cs, _) => seq(|cs|, i requires 0 <= i < |cs| => (cs[i].id, cs[i].source))
    case SaveCrop(id, source) => [(id, source)]
    case AddLibrary(id, source) => [(id, source)]
    case AddImported(images, _) => images
    case SelectImported(id, source) => [(id, source)]
    case _ => []
  }

  predicate Wrote(run: seq<Event>, id: string, source: string) {
    exists e | e in run :: (id, source) in Writes(e)
  }

  // Library entries are named after their image's id, and only they are.
  predicate IsLibraryId(id: string) {
    "library-" <= id
  }

  // The run takes its library images from the library, a relation of ids to sources; the ids of
  // tweet images and crops are generated and so never stand for two sources.
  ghost predicate DrawsOn(run: seq<Event>, library: (string, string) -> bool) {
    && (forall id, source | IsLibraryId(id) && Wrote(run, id, source) :: library(id, source))
    && (forall id, a, b | !IsLibraryId(id) && Wrote(run, id, a) && Wrote(run, id, b) :: a == b)
  }

  // Whatever the event installs is the source of the entry selected at that moment.
  predicate SourceKept(s: State, e: Event) {
    Step(s, e).installs != s.installs ==>
      exists c | c in s.candidates ::
        c.id == s.selectedId && !c.removed && Step(s, e).image == Some(Stored(c.source))
  }

  ghost predicate NeverMisplaced(library: (string, string) -> bool) {
    forall run: seq<Event>, e: Event | DrawsOn(run, library) :: SourceKept(RunFrom(INITIAL, run), e)
  }

  // No library entry ever changes its source.
  ghost predicate Immutable(library: (string, string) -> bool) {
    forall id, a, b | IsLibraryId(id) && library(id, a) && library(id, b) :: a == b
  }

  // The source the run gives to an id.
  ghost function SourceIn(run: seq<Event>, id: string): string {
    if exists source :: Wrote(run, id, source) then
      var source :| Wrote(run, id, source); source
    else ""
  }

  lemma RunFollows(run: seq<Event>, library: (string, string) -> bool)
    requires DrawsOn(run, library) && Immutable(library)
    ensures var source := id => SourceIn(run, id); forall event | event in run :: Follows(event, source)
  {
    var source := id => SourceIn(run, id);
    assert forall id, text | Wrote(run, id, text) :: SourceIn(run, id) == text;
    forall event | event in run ensures Follows(event, source) {
      assert forall w | w in Writes(event) :: Wrote(run, w.0, w.1);
      EventFollows(event, source);
    }
  }

  lemma EventFollows(e: Event, source: string -> string)
    requires forall w | w in Writes(e) :: w.1 == source(w.0)
    ensures Follows(e, source)
  {
    match e
    case Load(cs, _) =>
      forall c | c in cs ensures c.source == source(c.id) {
        var i :| 0 <= i < |cs| && cs[i] == c;
        assert Writes(e)[i] in Writes(e);
      }
    case SaveCrop(id, text) => assert (id, text) in Writes(e);
    case AddLibrary(id, text) => assert (id, text) in Writes(e);
    case AddImported(images, _) =>
    case SelectImported(id, text) => assert (id, text) in Writes(e);
    case _ =>
  }

  // A library image is picked, its entry selected and its upload begun; then the image is
  // replaced, picked again and selected again before the upload ends.
  function Replacing(tweet: Candidate, id: string, first: string, second: string): seq<Event> {
    [Load([tweet], true), SetStored(Some(first)), AddLibrary(id, first), Select(id, false), Persist,
     SetStored(Some(second)), AddLibrary(id, second), Select(id, false)]
  }

  lemma RunCons(s: State, e: Event, run: seq<Event>)
    ensures RunFrom(s, [e] + run) == RunFrom(Step(s, e), run)
  {
    hide Step;
    assert ([e] + run)[1..] == run;
  }

  lemma RunFour(s: State, a: Event, b: Event, c: Event, d: Event, rest: seq<Event>)
    ensures RunFrom(s, [a, b, c, d] + rest) == RunFrom(Step(Step(Step(Step(s, a), b), c), d), rest)
  {
    hide Step, RunFrom;
    assert [a, b, c, d] + rest == [a] + ([b] + ([c] + ([d] + rest)));
    RunCons(s, a, [b] + ([c] + ([d] + rest)));
    RunCons(Step(s, a), b, [c] + ([d] + rest));
    RunCons(Step(Step(s, a), b), c, [d] + rest);
    RunCons(Step(Step(Step(s, a), b), c), d, rest);
  }

  // Up to the selection of the entry: nothing is uploaded yet.
  lemma PickedFirst(tweet: Candidate, id: string, first: string)
    requires tweet.id != "" && tweet.id != id && !tweet.removed && id != ""
    ensures var s := Step(Step(Step(Step(INITIAL, Load([tweet], true)), SetStored(Some(first))),
                               AddLibrary(id, first)), Select(id, false));
            && s.candidates == [Candidate(id, first, false), tweet] && s.selectedId == id
            && s.image == Some(Session(id)) && s.pending == None && s.uploads == map[] && s.nextUpload == 0
            && s.installs == []
  {
    var s1 := Step(INITIAL, Load([tweet], true));
    assert s1.candidates == [tweet];
    var s2 := Step(s1, SetStored(Some(first)));
    assert [tweet][1..] == [];
    var s3 := Step(s2, AddLibrary(id, first));
    assert s3.candidates == [Candidate(id, first, false)] + [tweet];
  }

  lemma PickedAgain(s: State, tweet: Candidate, id: string, first: string, second: string)
    requires s.candidates == [Candidate(id, first, false), tweet] && s.selectedId == id && id != ""
    requires s.image == Some(Session(id)) && s.pending == None && s.uploads == map[] && s.nextUpload == 0
    requires s.installs == []
    ensures var t := Step(Step(Step(Step(s, Persist), SetStored(Some(second))), AddLibrary(id, second)),
                          Select(id, false));
            && t.candidates == [Candidate(id, second, false), tweet] && t.selectedId == id
            && t.image == Some(Session(id)) && t.uploads == map[0 := Upload(id, first, false)] && t.installs == []
  {
    assert FindShown(s.candidates, id) == 0;
    var s1 := Step(s, Persist);
    assert s1.uploads == map[0 := Upload(id, first, false)];
    var s2 := Step(s1, SetStored(Some(second)));
    assert Find(s2.candidates, id) == 0;
    var s3 := Step(s2, AddLibrary(id, second));
    assert s3.candidates == [Candidate(id, second, false), tweet];
  }

  // An upload is known by its candidate's id alone: after the replacement the old image is
  // installed for the new entry, and the right source is stored only if nothing changed.
  lemma ReplacedDuringUpload(tweet: Candidate, id: string, first: string, second: string)
    requires tweet.id != "" && tweet.id != id && !tweet.removed && id != ""
    ensures var s := RunFrom(INITIAL, Replacing(tweet, id, first, second));
            var t := Step(s, Settle(0, true));
            && s.candidates == [Candidate(id, second, false), tweet] && s.selectedId == id
            && t.image == Some(Stored(first)) && t.installs == [Install(s.selections, id, first)]
            && (SourceKept(s, Settle(0, true)) <==> first == second)
  {
    hide RunFrom, Step, Shown;
    var picked := Step(Step(Step(Step(INITIAL, Load([tweet], true)), SetStored(Some(first))),
                            AddLibrary(id, first)), Select(id, false));
    var s := Step(Step(Step(Step(picked, Persist), SetStored(Some(second))), AddLibrary(id, second)),
                  Select(id, false));
    var again := [Persist, SetStored(Some(second)), AddLibrary(id, second), Select(id, false)];
    assert Replacing(tweet, id, first, second) ==
           [Load([tweet], true), SetStored(Some(first)), AddLibrary(id, first), Select(id, false)] + again;
    RunFour(INITIAL, Load([tweet], true), SetStored(Some(first)), AddLibrary(id, first), Select(id, false), again);
    assert again == again + [];
    RunFour(picked, Persist, SetStored(Some(second)), AddLibrary(id, second), Select(id, false), []);
    RunNothing(s);
    PickedFirst(tweet, id, first);
    PickedAgain(picked, tweet, id, first, second);
    SettledFirst(s, tweet, id, first, second);
  }

  lemma RunNothing(s: State)
    ensures RunFrom(s, []) == s
  {
  }

  lemma SettledFirst(s: State, tweet: Candidate, id: string, first: string, second: string)
    requires s.candidates == [Candidate(id, second, false), tweet] && s.selectedId == id && tweet.id != id
    requires s.image == Some(Session(id)) && s.uploads == map[0 := Upload(id, first, false)] && s.installs == []
    ensures var t := Step(s, Settle(0, true));
            && t.image == Some(Stored(first)) && t.installs == [Install(s.selections, id, first)]
            && (SourceKept(s, Settle(0, true)) <==> first == second)
  {
    var t := Step(s, Settle(0, true));
    assert t.installs == [Install(s.selections, id, first)];
    assert t.installs[0] !in s.installs;
    assert s.candidates[0] in s.candidates;
  }

  lemma ReplacingWrites(id: string, first: string, second: string, e: Event)
    requires e in Replacing(Candidate("x", "x", false), id, first, second)
    ensures forall w | w in Writes(e) :: w == ("x", "x") || w == (id, first) || w == (id, second)
  {
  }

  lemma ReplacingDraws(id: string, first: string, second: string, library: (string, string) -> bool)
    requires IsLibraryId(id) && library(id, first) && library(id, second)
    ensures DrawsOn(Replacing(Candidate("x", "x", false), id, first, second), library)
  {
    hide Replacing, Writes, IsLibraryId;
    var run := Replacing(Candidate("x", "x", false), id, first, second);
    forall other, source | Wrote(run, other, source)
      ensures (other == "x" && source == "x") || (other == id && (source == first || source == second))
    {
      var e :| e in run && (other, source) in Writes(e);
      ReplacingWrites(id, first, second, e);
    }
    assert !IsLibraryId("x") by { TweetIdApart(); }
  }

  lemma TweetIdApart()
    ensures !IsLibraryId("x")
  {
  }

  // What is installed is always the selected entry's source exactly when no library entry ever
  // changes its source.
  lemma InstallsOwnSourceExactly(library: (string, string) -> bool)
    ensures NeverMisplaced(library) <==> Immutable(library)
  {
    hide RunFrom, Step, DrawsOn, SourceKept, Follows;
    if Immutable(library) {
      forall run: seq<Event>, e: Event | DrawsOn(run, library) ensures SourceKept(RunFrom(INITIAL, run), e) {
        RunFollows(run, library);
        InstallsSelectedSource(run, e, id => SourceIn(run, id));
        KeptIs(RunFrom(INITIAL, run), e);
      }
    } else {
      var id, a, b :| IsLibraryId(id) && library(id, a) && library(id, b) && a != b;
      ReplacingDraws(id, a, b, library);
      ReplacedDuringUpload(Candidate("x", "x", false), id, a, b);
    }
  }

  lemma KeptIs(s: State, e: Event)
    requires Step(s, e).installs != s.installs ==>
               exists c | c in s.candidates ::
                 c.id == s.selectedId && !c.removed && Step(s, e).image == Some(Stored(c.source))
    ensures SourceKept(s, e)
  {
  }

  // --- what each step does -------------------------------------------------------------------------

  // An upload of this candidate is awaited and not over before its clean-up; unless one was
  // already awaited for the same session image, it is a new one of this source.
  predicate AwaitsUpload(s: State, t: State, id: string, source: string) {
    && t.pending.Some? && t.pending.value in t.uploads && t.uploads[t.pending.value].candidateId == id
    && if s.image == Some(Session(id)) && s.pending.Some?
       then t.pending == s.pending && t.uploads == s.uploads && t.nextUpload == s.nextUpload
       else t.pending == Some(s.nextUpload) && t.nextUpload == s.nextUpload + 1
            && t.uploads == s.uploads[s.nextUpload := Upload(id, source, false)]
  }

  // Selecting an entry still shown, at k the first one of its id.
  lemma SelectLaw(s: State, id: string, persist: bool, k: nat)
    requires Invariant(s) && k < |s.candidates| && s.candidates[k].id == id && !s.candidates[k].removed
    requires forall j | 0 <= j < k :: s.candidates[j].id != id || s.candidates[j].removed
    ensures var t := Step(s, Select(id, persist));
            && t.selectedId == id && t.image == Some(Session(id))
            && t.candidates == s.candidates && t.fromX == s.fromX && t.installs == s.installs
            && t.selections == s.selections + 1
            && (persist ==> AwaitsUpload(s, t, id, s.candidates[k].source))
            && (!persist ==>
                  t.uploads == s.uploads && t.nextUpload == s.nextUpload
                  && t.pending == if s.image == Some(Session(id)) then s.pending else None)
  {
    hide FirstShown, Find, InstallsOnce;
    assert id != "";
    assert FindShown(s.candidates, id) == k;
  }

  lemma SelectNothing(s: State, id: string, persist: bool)
    requires forall c | c in s.candidates :: c.id != id || c.removed
    ensures Step(s, Select(id, persist)) == s
  {
  }

  // Removing: the first entry of the id is marked. If it was selected, the first entry still
  // shown takes its place and is uploaded, unless there is none or the row comes from X.
  lemma RemoveLaw(run: seq<Event>, id: string, k: nat)
    requires var s := RunFrom(INITIAL, run);
             k < |s.candidates| && s.candidates[k].id == id && forall j | 0 <= j < k :: s.candidates[j].id != id
    ensures var s := RunFrom(INITIAL, run);
            var t := Step(s, Remove(id));
            && t.candidates == s.candidates[k := Candidate(id, s.candidates[k].source, true)]
            && t.fromX == s.fromX && t.installs == s.installs
            && (s.selectedId != id ==> t == s.(candidates := t.candidates))
            && (s.selectedId == id && (s.fromX || forall c | c in t.candidates :: c.removed) ==>
                  t == s.(candidates := t.candidates, selectedId := "", image := None))
            && (s.selectedId == id && !s.fromX ==>
                  forall n | 0 <= n < |t.candidates| && !t.candidates[n].removed
                             && (forall j | 0 <= j < n :: t.candidates[j].removed) ::
                    && t.selectedId == t.candidates[n].id && t.image == Some(Session(t.candidates[n].id))
                    && t.selections == s.selections + 1
                    && AwaitsUpload(s, t, t.candidates[n].id, t.candidates[n].source))
  {
    hide RunFrom, Shown, AwaitsUpload;
    ReachableInvariant(run);
    RemoveStep(RunFrom(INITIAL, run), id, k);
  }

  lemma RemoveStep(s: State, id: string, k: nat)
    requires Invariant(s)
    requires k < |s.candidates| && s.candidates[k].id == id && forall j | 0 <= j < k :: s.candidates[j].id != id
    ensures var t := Step(s, Remove(id));
            && t.candidates == s.candidates[k := Candidate(id, s.candidates[k].source, true)]
            && t.fromX == s.fromX && t.installs == s.installs
            && (s.selectedId != id ==> t == s.(candidates := t.candidates))
            && (s.selectedId == id && (s.fromX || forall c | c in t.candidates :: c.removed) ==>
                  t == s.(candidates := t.candidates, selectedId := "", image := None))
            && (s.selectedId == id && !s.fromX ==>
                  forall n | 0 <= n < |t.candidates| && !t.candidates[n].removed
                             && (forall j | 0 <= j < n :: t.candidates[j].removed) ::
                    && t.selectedId == t.candidates[n].id && t.image == Some(Session(t.candidates[n].id))
                    && t.selections == s.selections + 1
                    && AwaitsUpload(s, t, t.candidates[n].id, t.candidates[n].source))
  {
    hide Selected, Shown, AwaitsUpload, Invariant;
    assert Find(s.candidates, id) == k;
    var m := s.(candidates := s.candidates[k := s.candidates[k].(removed := true)]);
    var n := FirstShown(m.candidates);
    if s.selectedId == id && !s.fromX && n < |m.candidates| {
      MarkedKeeps(s, k);
      SelectMarked(s, m, n);
      assert m.candidates[n] in m.candidates;
    }
  }

  lemma MarkedKeeps(s: State, k: nat)
    requires Invariant(s) && k < |s.candidates|
    ensures var m := s.(candidates := s.candidates[k := s.candidates[k].(removed := true)]);
            AwaitsOwn(m) && InstallsOnce(m) && Numbered(m)
  {
    hide Shown;
  }

  lemma SelectMarked(s: State, m: State, n: nat)
    requires AwaitsOwn(m) && InstallsOnce(m) && Numbered(m)
    requires m == s.(candidates := m.candidates)
    requires n < |m.candidates| && !m.candidates[n].removed && forall j | 0 <= j < n :: m.candidates[j].removed
    ensures var t := Selected(m, m.candidates[n].id, true);
            && t.selectedId == m.candidates[n].id && t.image == Some(Session(m.candidates[n].id))
            && t.candidates == m.candidates && t.fromX == m.fromX && t.installs == m.installs
            && t.selections == m.selections + 1
            && AwaitsUpload(s, t, m.candidates[n].id, m.candidates[n].source)
  {
    hide FirstShown, Find, InstallsOnce;
    assert m.candidates[n] in m.candidates;
    assert FindShown(m.candidates, m.candidates[n].id) == n;
  }

  lemma RemoveNothing(s: State, id: string)
    requires forall c | c in s.candidates :: c.id != id
    ensures Step(s, Remove(id)) == s
  {
  }

  // A loaded row replaces the old one; its first entry is selected and uploaded unless the row
  // is empty or comes from X.
  lemma LoadLaw(run: seq<Event>, cs: seq<Candidate>, fromX: bool)
    requires forall c | c in cs :: c.id != "" && !c.removed
    ensures var s := RunFrom(INITIAL, run);
            var t := Step(s, Load(cs, fromX));
            && t.candidates == cs && t.fromX == fromX && t.installs == s.installs
            && (cs != [] && !fromX ==>
                  t.selectedId == cs[0].id && t.image == Some(Session(cs[0].id))
                  && t.selections == s.selections + 1 && AwaitsUpload(s, t, cs[0].id, cs[0].source))
            && (cs == [] || fromX ==>
                  t == s.(candidates := cs, fromX := fromX, selectedId := "", image := None))
  {
    hide RunFrom, Selected, Shown, AwaitsUpload;
    ReachableInvariant(run);
    var s := RunFrom(INITIAL, run);
    if cs != [] && !fromX {
      var m := s.(candidates := cs, fromX := fromX);
      SelectMarked(s.(fromX := fromX), m, 0);
      AwaitsSame(s, s.(fromX := fromX), Step(s, Load(cs, fromX)), cs[0].id, cs[0].source);
    }
  }

  lemma AwaitsSame(s: State, u: State, t: State, id: string, source: string)
    requires u.image == s.image && u.pending == s.pending && u.uploads == s.uploads && u.nextUpload == s.nextUpload
    ensures AwaitsUpload(s, t, id, source) <==> AwaitsUpload(u, t, id, source)
  {
  }

  // A crop is put first, selected and uploaded.
  lemma CropLaw(run: seq<Event>, id: string, source: string)
    requires id != ""
    ensures var s := RunFrom(INITIAL, run);
            var t := Step(s, SaveCrop(id, source));
            && t.candidates == [Candidate(id, source, false)] + s.candidates && t.fromX == s.fromX
            && t.selectedId == id && t.image == Some(Session(id)) && t.installs == s.installs
            && t.selections == s.selections + 1 && AwaitsUpload(s, t, id, source)
  {
    hide RunFrom, Selected, Shown, AwaitsUpload;
    ReachableInvariant(run);
    var s := RunFrom(INITIAL, run);
    SelectMarked(s, s.(candidates := [Candidate(id, source, false)] + s.candidates), 0);
  }

  // Entering a library image: the entry of its id is shown again with the new source, or a new
  // one is put first; no other entry changes.
  lemma UpsertLaw(cs: seq<Candidate>, id: string, source: string, k: nat)
    requires k <= |cs| && (forall j | 0 <= j < k :: cs[j].id != id) && (k < |cs| ==> cs[k].id == id)
    ensures Upserted(cs, id, source) ==
            if k < |cs| then cs[k := Candidate(id, source, false)] else [Candidate(id, source, false)] + cs
  {
    assert Find(cs, id) == k;
  }

  // Picking a library image selects its entry and drops the awaited upload; the launch image is
  // left to the library. An imported image is entered the same way but keeps what is awaited.
  lemma LibraryLaw(s: State, id: string, source: string)
    requires id != ""
    ensures var t := Step(s, AddLibrary(id, source));
            t == s.(candidates := t.candidates, selectedId := id, pending := None)
            && t.candidates == Upserted(s.candidates, id, source)
    ensures var t := Step(s, SelectImported(id, source));
            t == s.(candidates := t.candidates, selectedId := id) && t.candidates == Upserted(s.candidates, id, source)
  {
  }

  // Imported images are entered one after the other; the first is selected if asked.
  lemma ImportLaw(s: State, images: seq<(string, string)>, selectFirst: bool)
    requires images != [] && forall image | image in images :: image.0 != ""
    ensures var t := Step(s, AddImported(images, selectFirst));
            && t == s.(candidates := t.candidates, pending := None,
                       selectedId := if selectFirst then images[0].0 else s.selectedId)
            && t.candidates == UpsertedAll(s.candidates, images)
    ensures UpsertedAll(s.candidates, [images[0]]) == Upserted(s.candidates, images[0].0, images[0].1)
    ensures UpsertedAll(s.candidates, images) ==
            UpsertedAll(Upserted(s.candidates, images[0].0, images[0].1), images[1..])
  {
    assert [images[0]][1..] == [];
  }

  // An upload's end: it is installed exactly when it succeeded and its candidate is the selected
  // session image; either way it is over, and its clean-up forgets it.
  lemma SettleLaw(s: State, p: nat, ok: bool)
    requires p in s.uploads && !s.uploads[p].settled
    ensures var u := s.uploads[p];
            var t := Step(s, Settle(p, ok));
            var installs := ok && s.selectedId == u.candidateId && s.image == Some(Session(u.candidateId));
            && t.uploads == s.uploads[p := Upload(u.candidateId, u.source, true)]
            && t.image == (if installs then Some(Stored(u.source)) else s.image)
            && t.installs == s.installs + (if installs then [Install(s.selections, u.candidateId, u.source)] else [])
            && t == s.(uploads := t.uploads, image := t.image, installs := t.installs)
  {
  }

  lemma FinishLaw(s: State, p: nat)
    requires p in s.uploads && s.uploads[p].settled
    ensures var t := Step(s, Finish(p));
            && p !in t.uploads
            && (forall q | q in s.uploads && q != p :: q in t.uploads && t.uploads[q] == s.uploads[q])
            && (forall q | q in t.uploads :: q in s.uploads)
            && t.pending == (if s.pending == Some(p) then None else s.pending)
            && t == s.(uploads := t.uploads, pending := t.pending)
  {
  }

  // Choosing a stored image, or none, elsewhere changes the launch image alone.
  lemma StoredLaw(s: State, source: string)
    ensures Step(s, SetStored(Some(source))) == s.(image := Some(Stored(source)))
    ensures Step(s, SetStored(None)) == s.(image := None)
  {
  }
}
