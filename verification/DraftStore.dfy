/** The global draft store: one draft kept under a legacy key, with per-launchpad drafts of an
    intermediate release migrated on first read. */
module DraftStore {
  import opened Common

  // Plain JSON. A primitive is known by its text; arrays are not part of this model.
  datatype Json = Prim(text: string) | Obj(fields: map<string, Json>) {
    predicate Truthy() {
      Obj? || text !in {"null", "false", "0", "\"\""}
    }
  }

  const NULL := Prim("null")

  // What a storage key holds: the empty string, text that is no JSON, or the text of a value.
  datatype Stored = Blank | Garbage | Text(value: Json)

  type Storage = map<string, Stored>

  const LAUNCHPADS := ["pump", "bonk", "bagsapp"]

  function ScopedKey(prefix: string, launchpad: string): string {
    prefix + "." + launchpad + ".v2"
  }

  // `const { launchpad, ...rest } = parsed`
  function WithoutLaunchpad(v: Json): Json {
    if v.Obj? then Obj(v.fields - {"launchpad"}) else v
  }

  function Item(storage: Storage, key: string): Stored {
    if key in storage then storage[key] else Blank
  }

  // --- reading and writing, as one function of the storage --------------------------------------

  // The draft found under the scoped keys of the launchpads from `from` on.
  function ScanScoped(storage: Storage, prefix: string, from: nat): Stored
    requires from <= |LAUNCHPADS|
    decreases |LAUNCHPADS| - from
  {
    if from == |LAUNCHPADS| then Blank
    else
      var item := Item(storage, ScopedKey(prefix, LAUNCHPADS[from]));
      if item.Blank? then ScanScoped(storage, prefix, from + 1) else item
  }

  function Answer(found: Stored): Json {
    if found.Text? then WithoutLaunchpad(found.value) else NULL
  }

  function ReadValue(storage: Storage, prefix: string, legacy: Option<string>): Json {
    if legacy.Some? && !Item(storage, legacy.value).Blank? then Answer(Item(storage, legacy.value))
    else Answer(ScanScoped(storage, prefix, 0))
  }

  function ReadStorage(storage: Storage, prefix: string, legacy: Option<string>): Storage {
    if legacy.None? || !Item(storage, legacy.value).Blank? then storage
    else
      var value := Answer(ScanScoped(storage, prefix, 0));
      if value.Truthy() then storage[legacy.value := Text(value)] else storage
  }

  function ScopedKeys(prefix: string): set<string> {
    {ScopedKey(prefix, "pump"), ScopedKey(prefix, "bonk"), ScopedKey(prefix, "bagsapp")}
  }

  function WriteStorage(storage: Storage, prefix: string, legacy: Option<string>, value: Json): Storage {
    (if legacy.None? then storage
     else if value.Truthy() then storage[legacy.value := Text(value)]
     else storage - {legacy.value}) - ScopedKeys(prefix)
  }

  // --- the implementation ------------------------------------------------------------------------

  class LocalStorage {
    var items: Storage

    constructor (items: Storage)
      ensures this.items == items
    {
      this.items := items;
    }

    // readStoredGlobalDraft
    method ReadGlobalDraft(prefix: string, legacy: Option<string>) returns (draft: Json)
      modifies this
      ensures draft == ReadValue(old(items), prefix, legacy)
      ensures items == ReadStorage(old(items), prefix, legacy)
    {
      if legacy.Some? {
        var raw := Item(items, legacy.value);
        if raw.Garbage? {
          return NULL;
        } else if raw.Text? {
          return WithoutLaunchpad(raw.value);
        }
      }
      for i := 0 to |LAUNCHPADS|
        invariant items == old(items)
        invariant ScanScoped(items, prefix, 0) == ScanScoped(items, prefix, i)
      {
        var raw := Item(items, ScopedKey(prefix, LAUNCHPADS[i]));
        if raw.Garbage? {
          return NULL;
        } else if raw.Text? {
          draft := WithoutLaunchpad(raw.value);
          if draft.Truthy() && legacy.Some? {
            items := items[legacy.value := Text(draft)];
          }
          return draft;
        }
      }
      return NULL;
    }

    // setStoredGlobalDraft
    method SetGlobalDraft(prefix: string, legacy: Option<string>, value: Json)
      modifies this
      ensures items == WriteStorage(old(items), prefix, legacy, value)
    {
      if legacy.Some? {
        items := if value.Truthy() then items[legacy.value := Text(value)] else items - {legacy.value};
      }
      ghost var written := items;
      for i := 0 to |LAUNCHPADS|
        invariant items == written - (set j | 0 <= j < i :: ScopedKey(prefix, LAUNCHPADS[j]))
      {
        items := items - {ScopedKey(prefix, LAUNCHPADS[i])};
      }
      assert (set j | 0 <= j < 3 :: ScopedKey(prefix, LAUNCHPADS[j])) == ScopedKeys(prefix) by {
        assert LAUNCHPADS[0] == "pump" && LAUNCHPADS[1] == "bonk" && LAUNCHPADS[2] == "bagsapp";
      }
    }
  }

  // --- the store as one optional cell ---------------------------------------------------------------

  datatype Op = Get | Set(value: Json)

  // The cell every write replaces and every read returns.
  function CellAfter(cell: Json, op: Op): Json {
    match op
    case Get => cell
    case Set(v) => if v.Truthy() then WithoutLaunchpad(v) else NULL
  }

  function CellReads(cell: Json, ops: seq<Op>): seq<Json>
    decreases |ops|
  {
    if ops == [] then []
    else (if ops[0].Get? then [cell] else []) + CellReads(CellAfter(cell, ops[0]), ops[1..])
  }

  function StorageAfter(storage: Storage, prefix: string, legacy: Option<string>, op: Op): Storage {
    match op
    case Get => ReadStorage(storage, prefix, legacy)
    case Set(v) => WriteStorage(storage, prefix, legacy, v)
  }

  function StorageReads(storage: Storage, prefix: string, legacy: Option<string>, ops: seq<Op>): seq<Json>
    decreases |ops|
  {
    if ops == [] then []
    else
      (if ops[0].Get? then [ReadValue(storage, prefix, legacy)] else [])
      + StorageReads(StorageAfter(storage, prefix, legacy, ops[0]), prefix, legacy, ops[1..])
  }

  // The keys the console uses: a legacy key that is none of the scoped ones.
  predicate Separate(prefix: string, legacy: Option<string>) {
    legacy.Some? && legacy.value !in ScopedKeys(prefix)
  }

  lemma NoScopedDrafts(storage: Storage, prefix: string)
    requires storage.Keys !! ScopedKeys(prefix)
    ensures ScanScoped(storage, prefix, 0).Blank?
  {
    assert LAUNCHPADS[0] == "pump" && LAUNCHPADS[1] == "bonk" && LAUNCHPADS[2] == "bagsapp";
    assert ScanScoped(storage, prefix, 3).Blank?;
    assert ScanScoped(storage, prefix, 2).Blank?;
    assert ScanScoped(storage, prefix, 1).Blank?;
  }

  // A read after a write returns what was written, less its launchpad, whatever any key held
  // before - for every value exactly when the legacy key is given and is not a scoped key.
  lemma ReadAfterWrite(storage: Storage, prefix: string, legacy: Option<string>)
    ensures (forall v: Json ::
               ReadValue(WriteStorage(storage, prefix, legacy, v), prefix, legacy) == CellAfter(NULL, Set(v)))
            <==> Separate(prefix, legacy)
  {
    hide ScanScoped, ScopedKeys;
    if Separate(prefix, legacy) {
      forall v: Json
        ensures ReadValue(WriteStorage(storage, prefix, legacy, v), prefix, legacy) == CellAfter(NULL, Set(v))
      {
        WriteThenRead(storage, prefix, legacy, v);
      }
    } else {
      WriteLost(storage, prefix, legacy);
    }
  }

  lemma WriteThenRead(storage: Storage, prefix: string, legacy: Option<string>, v: Json)
    requires Separate(prefix, legacy)
    ensures ReadValue(WriteStorage(storage, prefix, legacy, v), prefix, legacy) == CellAfter(NULL, Set(v))
  {
    hide ScanScoped, ScopedKeys;
    NoScopedDrafts(WriteStorage(storage, prefix, legacy, v), prefix);
  }

  // Without a separate legacy key the write is lost.
  lemma WriteLost(storage: Storage, prefix: string, legacy: Option<string>)
    requires !Separate(prefix, legacy)
    ensures var v := Obj(map[]);
            ReadValue(WriteStorage(storage, prefix, legacy, v), prefix, legacy) != CellAfter(NULL, Set(v))
  {
    hide ScanScoped, ScopedKeys;
    NoScopedDrafts(WriteStorage(storage, prefix, legacy, Obj(map[])), prefix);
  }

  lemma WithoutTwice(v: Json)
    ensures WithoutLaunchpad(WithoutLaunchpad(v)) == WithoutLaunchpad(v)
  {
    if v.Obj? {
      assert v.fields - {"launchpad"} - {"launchpad"} == v.fields - {"launchpad"};
    }
  }

  // Reading, which may migrate a scoped draft, never changes what is read next.
  lemma ReadKeepsValue(storage: Storage, prefix: string, legacy: Option<string>)
    ensures ReadValue(ReadStorage(storage, prefix, legacy), prefix, legacy) == ReadValue(storage, prefix, legacy)
    ensures ReadStorage(ReadStorage(storage, prefix, legacy), prefix, legacy) == ReadStorage(storage, prefix, legacy)
  {
    hide ScanScoped;
    var found := ScanScoped(storage, prefix, 0);
    if found.Text? {
      WithoutTwice(found.value);
    }
  }

  // A migrating read answers with the first launchpad, in order, that has a stored draft.
  lemma MigrationOrder(storage: Storage, prefix: string, legacy: string, i: nat)
    requires i < |LAUNCHPADS| && Item(storage, legacy).Blank?
    requires forall j | 0 <= j < i :: Item(storage, ScopedKey(prefix, LAUNCHPADS[j])).Blank?
    requires Item(storage, ScopedKey(prefix, LAUNCHPADS[i])).Text?
    ensures ReadValue(storage, prefix, Some(legacy)) ==
            WithoutLaunchpad(Item(storage, ScopedKey(prefix, LAUNCHPADS[i])).value)
  {
    ScanSkips(storage, prefix, 0, i);
  }

  lemma {:induction false} ScanSkips(storage: Storage, prefix: string, from: nat, to: nat)
    requires from <= to <= |LAUNCHPADS|
    requires forall j | from <= j < to :: Item(storage, ScopedKey(prefix, LAUNCHPADS[j])).Blank?
    ensures ScanScoped(storage, prefix, from) == ScanScoped(storage, prefix, to)
    decreases |LAUNCHPADS| - from
  {
    if from < to {
      ScanSkips(storage, prefix, from + 1, to);
    }
  }

  // Over any sequence of reads and writes, whatever the storage held at first, the store
  // answers like a single optional cell holding what the first read would find.
  lemma {:induction false} RefinesCell(storage: Storage, prefix: string, legacy: Option<string>, ops: seq<Op>)
    requires Separate(prefix, legacy)
    ensures StorageReads(storage, prefix, legacy, ops) == CellReads(ReadValue(storage, prefix, legacy), ops)
    decreases |ops|
  {
    hide ReadValue, ReadStorage, WriteStorage, WithoutLaunchpad, ScopedKeys;
    if ops != [] {
      var next := StorageAfter(storage, prefix, legacy, ops[0]);
      RefinesCell(next, prefix, legacy, ops[1..]);
      if ops[0].Get? {
        ReadKeepsValue(storage, prefix, legacy);
      } else {
        WriteThenRead(storage, prefix, legacy, ops[0].value);
      }
    }
  }

  // --- field by field --------------------------------------------------------------------------------

  // An object keeps every field but its launchpad; anything else is kept as it is.
  predicate LosesLaunchpad(v: Json, read: Json) {
    match v
    case Prim(_) => read == v
    case Obj(f) =>
      && read.Obj? && "launchpad" !in read.fields
      && (forall k | k in f && k != "launchpad" :: k in read.fields && read.fields[k] == f[k])
      && (forall k | k in read.fields :: k in f)
  }

  // After writing an object the read has its fields but the launchpad; a truthy primitive reads
  // as itself and a falsy one as null.
  lemma ReadBackFields(storage: Storage, prefix: string, legacy: Option<string>, v: Json)
    requires Separate(prefix, legacy)
    ensures var read := ReadValue(WriteStorage(storage, prefix, legacy, v), prefix, legacy);
            if v.Obj? || v.text !in {"null", "false", "0", "\"\""}
            then LosesLaunchpad(v, read) else read == Prim("null")
  {
    hide ScanScoped, ScopedKeys, ReadValue, WriteStorage;
    WriteThenRead(storage, prefix, legacy, v);
  }

  // A migrating read answers with the fields of the first launchpad's draft, and keeps them
  // under the legacy key unless the draft is falsy.
  lemma MigratedFields(storage: Storage, prefix: string, legacy: string, i: nat)
    requires i < |LAUNCHPADS| && Item(storage, legacy).Blank?
    requires forall j | 0 <= j < i :: Item(storage, ScopedKey(prefix, LAUNCHPADS[j])).Blank?
    requires Item(storage, ScopedKey(prefix, LAUNCHPADS[i])).Text?
    ensures var v := Item(storage, ScopedKey(prefix, LAUNCHPADS[i])).value;
            var read := ReadValue(storage, prefix, Some(legacy));
            && LosesLaunchpad(v, read)
            && ReadStorage(storage, prefix, Some(legacy)) ==
               if v.Obj? || v.text !in {"null", "false", "0", "\"\""} then storage[legacy := Text(read)] else storage
  {
    MigrationOrder(storage, prefix, legacy, i);
    ScanSkips(storage, prefix, 0, i);
  }

  // Text that is no JSON reads as null and is left alone, wherever it is found first.
  lemma GarbageReadsNull(storage: Storage, prefix: string, legacy: string)
    requires Item(storage, legacy).Garbage?
    ensures ReadValue(storage, prefix, Some(legacy)) == Prim("null")
    ensures ReadStorage(storage, prefix, Some(legacy)) == storage
  {
  }

  // A write puts the value under the legacy key, or clears it for a falsy one, clears the three
  // scoped keys and touches no other key.
  lemma WriteTouches(storage: Storage, prefix: string, legacy: string, v: Json, key: string)
    requires Separate(prefix, Some(legacy))
    ensures var after := WriteStorage(storage, prefix, Some(legacy), v);
            && (v.Obj? || v.text !in {"null", "false", "0", "\"\""} ==> legacy in after && after[legacy] == Text(v))
            && (v.Prim? && v.text in {"null", "false", "0", "\"\""} ==> legacy !in after)
            && (prefix + ".pump.v2" !in after && prefix + ".bonk.v2" !in after && prefix + ".bagsapp.v2" !in after)
            && (key !in {legacy, prefix + ".pump.v2", prefix + ".bonk.v2", prefix + ".bagsapp.v2"} ==>
                  (key in after <==> key in storage) && (key in storage ==> after[key] == storage[key]))
  {
    ScopedNames(prefix);
  }

  lemma ScopedNames(prefix: string)
    ensures ScopedKeys(prefix) == {prefix + ".pump.v2", prefix + ".bonk.v2", prefix + ".bagsapp.v2"}
  {
    assert forall pad: string :: prefix + "." + pad + ".v2" == prefix + ("." + pad + ".v2");
    assert "." + "pump" + ".v2" == ".pump.v2" && "." + "bonk" + ".v2" == ".bonk.v2";
    assert "." + "bagsapp" + ".v2" == ".bagsapp.v2";
  }
}
