/** `ThicketDB`: opening with the schema gate, fresh initialisation, model
    lookup by name or file path, insert-or-overwrite, counting and the
    name-sorted iteration. */
module Database {
  import opened Wrappers
  import opened Dicts
  import opened Strings
  import opened Records
  import opened LabelStore
  import opened Views

  datatype DbError =
    | OldSchema                // ThicketDBOldSchemaError
    | NotFound                 // FileNotFoundError re-raised without `create`
    | MissingKey(key: string)  // KeyError on a JSON object

  /** Python truthiness of an optional string argument. */
  predicate Truthy(s: Option<string>) {
    s.Some? && s.value != ""
  }

  function ModelCount(d: Document): nat {
    Len(d.models)
  }

  /** `initialize()`: an empty, current-schema document. */
  function Initialize(sdk: SdkVersion): (d: Document)
    ensures WellFormed(d)
    ensures d.info.schemaVersion == SchemaVersion && d.info.sdk == sdk
    ensures ModelCount(d) == 0 && d.models.entries == map[]
    ensures |d.labels.keys| == 0 && d.labels.entries == map[]
  {
    Document(Info(sdk, SchemaVersion), Empty(), Empty())
  }

  /** `ThicketDB(filename, locales, create=...)`.  `stored` is the decoded
      file, None when the file does not exist; writing the fresh document
      back (`save`) is I/O and not part of the value. */
  function Open(stored: Option<Document>, create: bool, sdk: SdkVersion): (r: Result<Document, DbError>)
    ensures r.Success? ==> r.value.info.schemaVersion >= SchemaVersion
    ensures stored.Some? && stored.value.info.schemaVersion < SchemaVersion ==> r == Failure(OldSchema)
    ensures stored.Some? && stored.value.info.schemaVersion >= SchemaVersion ==> r == Success(stored.value)
    ensures stored.None? && create ==> r == Success(Initialize(sdk))
    ensures stored.None? && !create ==> r == Failure(NotFound)
  {
    match stored
    case Some(d) =>
      if d.info.schemaVersion < SchemaVersion then Failure(OldSchema) else Success(d)
    case None =>
      if create then Success(Initialize(sdk)) else Failure(NotFound)
  }

  /** A document written by `initialize` passes the schema gate unchanged when
      it is opened again. */
  lemma InitializedDocumentReopens(sdk: SdkVersion, create: bool)
    ensures Open(Some(Initialize(sdk)), create, sdk) == Success(Initialize(sdk))
  {
  }

  /* ---------------- get_model ---------------- */

  /** Key `k` is stored with file path `fp` and no key listed after it is. */
  ghost predicate IsLastWithPath(models: Dict<ModelRecord>, k: string, fp: string)
    requires models.Valid()
  {
    exists i :: 0 <= i < |models.keys| && models.keys[i] == k && models.entries[k].filepath == fp
      && forall j :: i < j < |models.keys| ==> models.entries[models.keys[j]].filepath != fp
  }

  /** The `for n in models: if filepath matches: name = n` scan over the
      first `n` keys: the last key whose record has file path `fp`. */
  function LastWithPath(models: Dict<ModelRecord>, n: nat, fp: string): (r: Option<string>)
    requires models.Valid() && n <= |models.keys|
    ensures r.None? <==> forall i :: 0 <= i < n ==> models.entries[models.keys[i]].filepath != fp
    ensures r.Some? ==> exists i :: (0 <= i < n && models.keys[i] == r.value
      && models.entries[r.value].filepath == fp
      && forall j :: i < j < n ==> models.entries[models.keys[j]].filepath != fp)
    decreases n
  {
    if n == 0 then None
    else
      var k := models.keys[n - 1];
      assert k in models.entries;
      if models.entries[k].filepath == fp then Some(k)
      else LastWithPath(models, n - 1, fp)
  }

  /** The name lookup does not select a model: no name, or a non-empty name
      that is not stored.  (An empty name is falsy but not None: it skips the
      lookup and also blocks the path scan.) */
  predicate NameMisses(models: Dict<ModelRecord>, name: Option<string>) {
    name.None? || (name.value != "" && name.value !in models.entries)
  }

  function View(d: Document, name: string): (m: Model)
    requires WellFormed(d) && name in d.models.entries
    ensures m.name == name && m.filepath == d.models.entries[name].filepath
  {
    ModelView(d.labels, name, d.models.entries[name])
  }

  /** `get_model(filepath, name)`. */
  function GetModel(d: Document, filepath: Option<string>, name: Option<string>): (r: Option<Model>)
    requires WellFormed(d)
    ensures r.Some? ==> r.value.name in d.models.entries && r.value == View(d, r.value.name)
    ensures Truthy(name) && name.value in d.models.entries ==> r == Some(View(d, name.value))
    ensures name == Some("") ==> r.None?
    ensures NameMisses(d.models, name) && !Truthy(filepath) ==> r.None?
    ensures NameMisses(d.models, name) && Truthy(filepath) ==>
      (r.Some? <==> exists k :: k != "" && k in d.models.entries && IsLastWithPath(d.models, k, filepath.value))
    ensures NameMisses(d.models, name) && Truthy(filepath) && r.Some? ==>
      r.value.filepath == filepath.value && IsLastWithPath(d.models, r.value.name, filepath.value)
  {
    var models := d.models;
    var byName := if Truthy(name) && name.value !in models.entries then None else name;
    var chosen := if byName.None? && Truthy(filepath) then LastWithPath(models, |models.keys|, filepath.value) else byName;
    if Truthy(chosen) then Some(View(d, chosen.value)) else None
  }

  /** At most one key can be the last one stored with a given path. */
  lemma LastWithPathUnique(models: Dict<ModelRecord>, k1: string, k2: string, fp: string)
    requires models.Valid()
    requires IsLastWithPath(models, k1, fp) && IsLastWithPath(models, k2, fp)
    ensures k1 == k2
  {
  }

  /* ---------------- add_model / the insert inside build ---------------- */

  /** Insert-or-overwrite of one worker record: the model is stored under its
      own name and its labels are merged with `update_labels`. */
  function AddModel(d: Document, w: WorkerRecord): (r: Document)
    requires WellFormed(d) && WellFormedWorker(w)
    ensures WellFormed(r)
    ensures r.info == d.info
    ensures Get(r.models, w.model.name) == Some(w.model)
    ensures forall n :: n != w.model.name ==> Get(r.models, n) == Get(d.models, n)
    ensures ModelCount(r) == ModelCount(d) + (if w.model.name in d.models.entries then 0 else 1)
    ensures r.labels == UpdateLabels(d.labels, w.labels)
  {
    Document(d.info, UpdateLabels(d.labels, w.labels), Put(d.models, w.model.name, w.model))
  }

  /** Adding two records with the same name leaves one entry for that name,
      holding the second record, and the count of a single add. */
  lemma ReAddOverwrites(d: Document, w1: WorkerRecord, w2: WorkerRecord)
    requires WellFormed(d) && WellFormedWorker(w1) && WellFormedWorker(w2)
    requires w1.model.name == w2.model.name
    ensures Get(AddModel(AddModel(d, w1), w2).models, w2.model.name) == Some(w2.model)
    ensures ModelCount(AddModel(AddModel(d, w1), w2)) == ModelCount(AddModel(d, w1))
    ensures forall n :: n != w1.model.name ==> Get(AddModel(AddModel(d, w1), w2).models, n) == Get(d.models, n)
  {
  }

  /** `add_model` as written: it reads `m_rec["name"]`, but the record
      `parse_model` returns has only the keys "model" and "labels". */
  function AddModelAsWritten(d: Document, w: WorkerRecord): Result<Document, DbError>
    requires WellFormed(d) && WellFormedWorker(w)
  {
    if "name" in WorkerRecordKeys(w) then Success(AddModel(d, w))
    else Failure(MissingKey("name"))
  }

  /** Every call of `add_model` as written raises `KeyError('name')`. */
  lemma AddModelAsWrittenAlwaysFails(d: Document, w: WorkerRecord)
    requires WellFormed(d) && WellFormedWorker(w)
    ensures AddModelAsWritten(d, w) == Failure(MissingKey("name"))
  {
    assert "name" !in WorkerRecordKeys(w);
  }

  /* ---------------- iteration ---------------- */

  function SortedNames(d: Document): (names: seq<string>)
    requires WellFormed(d)
    ensures |names| == ModelCount(d)
    ensures StrictlySorted(names)
    ensures forall n :: n in names <==> n in d.models.entries
  {
    var names := Sort(d.models.keys);
    assert forall n :: n in names <==> n in multiset(d.models.keys);
    assert |names| == |multiset(names)| == |multiset(d.models.keys)|;
    names
  }

  /** The views of the models stored under `names`, in that order. */
  function ViewsOf(d: Document, names: seq<string>): (r: seq<Model>)
    requires WellFormed(d)
    requires forall i :: 0 <= i < |names| ==> names[i] in d.models.entries
    ensures |r| == |names|
    ensures forall i :: 0 <= i < |r| ==> r[i] == View(d, names[i])
  {
    seq(|names|, i requires 0 <= i < |names| => View(d, names[i]))
  }

  /** `iter(db)`: a freshly built list with one view per stored model,
      ascending by name. */
  function Iterate(d: Document): (r: seq<Model>)
    requires WellFormed(d)
    ensures |r| == ModelCount(d)
    ensures forall i :: 0 <= i < |r| ==> r[i].name in d.models.entries && r[i] == View(d, r[i].name)
    ensures forall n :: n in d.models.entries ==> exists i :: 0 <= i < |r| && r[i].name == n
    ensures forall i, j :: 0 <= i < j < |r| ==> Lt(r[i].name, r[j].name)
  {
    var names := SortedNames(d);
    var r := ViewsOf(d, names);
    ViewsOfNames(d, names, r);
    r
  }

  /** The facts `Iterate` states, derived from the name list alone. */
  lemma ViewsOfNames(d: Document, names: seq<string>, r: seq<Model>)
    requires WellFormed(d)
    requires StrictlySorted(names) && (forall n :: n in names <==> n in d.models.entries)
    requires |r| == |names| && forall i :: 0 <= i < |r| ==> r[i] == View(d, names[i])
    ensures forall i :: 0 <= i < |r| ==> r[i].name == names[i]
    ensures forall i :: 0 <= i < |r| ==> r[i].name in d.models.entries && r[i] == View(d, r[i].name)
    ensures forall n :: n in d.models.entries ==> exists i :: 0 <= i < |r| && r[i].name == n
    ensures forall i, j :: 0 <= i < j < |r| ==> Lt(r[i].name, r[j].name)
  {
    forall i | 0 <= i < |r| ensures r[i].name == names[i] {
      assert names[i] in d.models.entries;
    }
    forall n | n in d.models.entries ensures exists i :: 0 <= i < |r| && r[i].name == n {
      var i :| 0 <= i < |names| && names[i] == n;
      assert r[i].name == n;
    }
  }

  function Names(ms: seq<Model>): seq<string> {
    seq(|ms|, i requires 0 <= i < |ms| => ms[i].name)
  }

  /** The names iteration yields are the stored names, strictly ascending. */
  lemma IterationNames(d: Document)
    requires WellFormed(d)
    ensures StrictlySorted(Names(Iterate(d)))
    ensures forall x :: x in Names(Iterate(d)) <==> x in d.models.entries
  {
    var r := Iterate(d);
    var names := Names(r);
    forall i, j | 0 <= i < j < |names| ensures Lt(names[i], names[j]) {
      assert names[i] == r[i].name && names[j] == r[j].name;
    }
    forall x ensures x in names <==> x in d.models.entries {
      if x in names {
        var i :| 0 <= i < |names| && names[i] == x;
        assert r[i].name in d.models.entries;
      }
      if x in d.models.entries {
        var i :| 0 <= i < |r| && r[i].name == x;
        assert names[i] == x;
      }
    }
  }

  lemma ExampleNamesSorted(names: seq<string>, keys: set<string>)
    requires StrictlySorted(names)
    requires forall x :: x in names <==> x in keys
    requires keys == {"Zebrawood", "Acacia", "Maple"}
    ensures names == ["Acacia", "Maple", "Zebrawood"]
  {
    var want := ["Acacia", "Maple", "Zebrawood"];
    assert Lt("Acacia", "Maple") && Lt("Maple", "Zebrawood") && Lt("Acacia", "Zebrawood") by {
      assert "Acacia"[0] == 'A' && "Maple"[0] == 'M' && "Zebrawood"[0] == 'Z';
    }
    assert StrictlySorted(want);
    StrictlySortedUnique(names, want);
  }

  /** Iterating models named `Zebrawood`, `Acacia` and `Maple` yields
      `Acacia`, `Maple`, `Zebrawood`. */
  lemma IterationOrderExample(d: Document)
    requires WellFormed(d)
    requires d.models.entries.Keys == {"Zebrawood", "Acacia", "Maple"}
    ensures Names(Iterate(d)) == ["Acacia", "Maple", "Zebrawood"]
  {
    IterationNames(d);
    var names := Names(Iterate(d));
    assert forall x :: x in names <==> x in d.models.entries.Keys;
    ExampleNamesSorted(names, d.models.entries.Keys);
  }
}
