/** `ThicketPropGroup`: the properties that identify a Laubwerk model and the
    parameters its mesh is generated with.  Comparison and copying treat a
    property group as its map of set properties, in the order Blender lists
    them; the import reads the typed attributes. */
module PropGroup {
  import opened Wrappers
  import opened Dicts
  import opened Records
  import opened Database

  /* ---------------- comparison and copying ---------------- */

  /** Property `k` of `self` is present in `other` with the same value. */
  predicate KeyMatches<V(==)>(self: Dict<V>, other: Dict<V>, k: string) {
    Get(other, k).Some? && Get(other, k) == Get(self, k)
  }

  /** Every property set on `self` is set on `other` to the same value;
      `other` may set more. */
  ghost predicate Covers<V>(self: Dict<V>, other: Dict<V>) {
    forall k :: k in self.entries ==> k in other.entries && other.entries[k] == self.entries[k]
  }

  /** The keys `eq_lod` looks at. */
  const LodKeys: set<string> :=
    {"leaf_density", "use_lod_max_level", "lod_max_level", "use_lod_min_thick", "lod_min_thick", "lod_subdiv", "leaf_amount"}

  /** The loop shared by `__eq__` and `eq_lod`: walk `ks`, skip the keys
      `relevant` rejects, and fail on the first key missing from `other`
      (the KeyError branch) or holding a different value. */
  function MatchFrom<V(==)>(ks: seq<string>, self: Dict<V>, other: Dict<V>, relevant: string -> bool): (r: bool)
    ensures r <==> forall i :: 0 <= i < |ks| && relevant(ks[i]) ==> KeyMatches(self, other, ks[i])
    decreases |ks|
  {
    if |ks| == 0 then true
    else if !relevant(ks[0]) then MatchFrom(ks[1..], self, other, relevant)
    else if Get(other, ks[0]).None? then false
    else if Get(self, ks[0]) != Get(other, ks[0]) then false
    else MatchFrom(ks[1..], self, other, relevant)
  }

  /** `__eq__`: true exactly when `self` is covered by `other`. */
  function Eq<V(==)>(self: Dict<V>, other: Dict<V>): (r: bool)
    requires self.Valid()
    ensures r <==> Covers(self, other)
  {
    var r := MatchFrom(self.keys, self, other, _ => true);
    assert forall k :: k in self.entries ==> k in self.keys;
    r
  }

  /** `__ne__`: the negation of `__eq__`. */
  function Ne<V(==)>(self: Dict<V>, other: Dict<V>): (r: bool)
    requires self.Valid()
    ensures r <==> !Covers(self, other)
  {
    !Eq(self, other)
  }

  /** `eq_lod`: like `__eq__`, restricted to the level-of-detail keys. */
  function EqLod<V(==)>(self: Dict<V>, other: Dict<V>): (r: bool)
    requires self.Valid()
    ensures r <==> forall k :: k in self.entries && k in LodKeys ==>
      k in other.entries && other.entries[k] == self.entries[k]
  {
    var r := MatchFrom(self.keys, self, other, k => k in LodKeys);
    assert forall k :: k in self.entries ==> k in self.keys;
    r
  }

  /** Equal groups are equal in their level of detail. */
  lemma EqImpliesEqLod<V>(self: Dict<V>, other: Dict<V>)
    requires self.Valid() && Eq(self, other)
    ensures EqLod(self, other)
  {
  }

  /** `__eq__` is transitive. */
  lemma EqTransitive<V>(a: Dict<V>, b: Dict<V>, c: Dict<V>)
    requires a.Valid() && b.Valid() && Eq(a, b) && Eq(b, c)
    ensures Eq(a, c)
  {
  }

  /** `__eq__` is not symmetric: a group that sets a property the other
      lacks is not equal to it, while the other may equal it. */
  lemma EqAsymmetric<V>(a: Dict<V>, b: Dict<V>, k: string)
    requires a.Valid() && b.Valid() && Covers(a, b)
    requires k in b.entries && k !in a.entries
    ensures Eq(a, b) && !Eq(b, a)
  {
  }

  /** A concrete instance: `{lod_subdiv: 2}` equals `{lod_subdiv: 2,
      leaf_amount: 50}`, but not the other way round. */
  lemma EqAsymmetricExample()
    ensures var a := Put(Empty<int>(), "lod_subdiv", 2);
            var b := Put(a, "leaf_amount", 50);
            Eq(a, b) && !Eq(b, a)
  {
    var a := Put(Empty<int>(), "lod_subdiv", 2);
    var b := Put(a, "leaf_amount", 50);
    assert "leaf_amount" in b.entries && "leaf_amount" !in a.entries;
  }

  /** `copy_to`: every property of `self` is written into `other`. */
  function CopyTo<V>(self: Dict<V>, other: Dict<V>): (r: Dict<V>)
    requires self.Valid() && other.Valid()
    ensures r.Valid()
    ensures forall k :: k in self.entries ==> Get(r, k) == Get(self, k)
    ensures forall k :: k !in self.entries ==> Get(r, k) == Get(other, k)
  {
    Update(other, self)
  }

  /** After `self.copy_to(other)`, `self == other` holds. */
  lemma CopyToMakesEqual<V>(self: Dict<V>, other: Dict<V>)
    requires self.Valid() && other.Valid()
    ensures Eq(self, CopyTo(self, other))
  {
    var r := CopyTo(self, other);
    forall k | k in self.entries ensures k in r.entries && r.entries[k] == self.entries[k] {
      assert Get(r, k) == Get(self, k);
    }
  }

  /* ---------------- the import arguments ---------------- */

  /** The value of a batch variant or season that keeps the original's. */
  const Unchanged: string := "UNCHANGED"

  /** The level-of-detail properties. */
  datatype Lod = Lod(leafDensity: real, useLodMaxLevel: bool, lodMaxLevel: int,
                     useLodMinThick: bool, lodMinThick: real, lodSubdiv: int, leafAmount: real)

  /** The typed attributes `import_lbw` reads. */
  datatype Props = Props(name: string, variant: string, season: string, lod: Lod,
                         viewportLod: string, renderLod: string, batchMode: bool, batchName: string, batchVariant: string,
                         batchSeason: string, batchUseLod: bool)

  /** The keyword arguments handed to the mesh generator; the two optional
      ones are only set when their `use_` switch is on. */
  datatype MeshArgs = MeshArgs(variant: string, season: string, leafDensity: real,
                               maxBranchLevel: Option<int>, minThickness: Option<real>,
                               maxSubdivLevel: int, leafAmount: real)

  /** What the import resolves to before any mesh is built: the file, the
      detail levels of the viewport and render meshes, and the mesh
      arguments. */
  datatype ImportPlan = ImportPlan(filepath: string, viewportLod: string, renderLod: string, args: MeshArgs)

  /** `db.get_model(name=n).filepath` raises AttributeError when no model is
      found; `orig_tp` is unbound when it is read without an original. */
  datatype ImportError = UnknownModel(name: string) | NoOriginal

  /** `db.get_model(name=n).filepath`, or None where it would raise. */
  function ModelPath(db: Document, n: string): (r: Option<string>)
    requires WellFormed(db)
    ensures r.Some? <==> n != "" && n in db.models.entries
    ensures r.Some? ==> r.value == db.models.entries[n].filepath
  {
    match GetModel(db, None, Some(n))
    case None => None
    case Some(m) => Some(m.filepath)
  }

  /** The mesh arguments taken from the level-of-detail properties of `tp`. */
  function LodArgs(variant: string, season: string, lod: Lod): MeshArgs {
    MeshArgs(variant, season, lod.leafDensity / 100.0,
             if lod.useLodMaxLevel then Some(lod.lodMaxLevel) else None,
             if lod.useLodMinThick then Some(lod.lodMinThick) else None,
             lod.lodSubdiv, lod.leafAmount / 100.0)
  }

  /** The argument resolution at the head of `import_lbw`, step by step in
      the order `import_lbw` takes it, failing where it would raise. */
  function ResolveImport(db: Document, tp: Props, original: Option<Props>): (r: Result<ImportPlan, ImportError>)
    requires WellFormed(db)
    ensures r.Success? ==> tp.name != "" && tp.name in db.models.entries
    ensures !tp.batchMode && tp.name != "" && tp.name in db.models.entries ==>
      r == Success(ImportPlan(db.models.entries[tp.name].filepath, tp.viewportLod, tp.renderLod,
                              LodArgs(tp.variant, tp.season, tp.lod)))
    ensures r == Failure(NoOriginal) ==> tp.batchMode && original.None?
    ensures tp.batchMode && r.Success? &&
      (tp.batchName == "" || !tp.batchUseLod || tp.batchVariant == Unchanged || tp.batchSeason == Unchanged)
      ==> original.Some?
    ensures tp.batchMode && original.Some? && tp.name != "" && tp.name in db.models.entries ==>
      var src := if tp.batchName == "" then original.value.name else tp.batchName;
      (r.Success? <==> src != "" && src in db.models.entries)
    ensures tp.batchMode && original.None? && tp.name != "" && tp.name in db.models.entries ==>
      (r.Success? <==> tp.batchName != "" && tp.batchName in db.models.entries && tp.batchUseLod
                       && tp.batchVariant != Unchanged && tp.batchSeason != Unchanged)
    ensures tp.batchMode && r.Success? ==>
      var src := if tp.batchName == "" then original.value.name else tp.batchName;
      var geo := if tp.batchUseLod then tp else original.value;
      && src != "" && src in db.models.entries
      && r.value.filepath == db.models.entries[src].filepath
      && r.value.viewportLod == geo.viewportLod && r.value.renderLod == geo.renderLod
      && r.value.args.variant == (if tp.batchVariant == Unchanged then original.value.variant else tp.batchVariant)
      && r.value.args.season == (if tp.batchSeason == Unchanged then original.value.season else tp.batchSeason)
      && r.value.args == LodArgs(r.value.args.variant, r.value.args.season, geo.lod)
  {
    match ModelPath(db, tp.name)
    case None => Failure(UnknownModel(tp.name))
    case Some(ownPath) =>
      if !tp.batchMode then Success(ImportPlan(ownPath, tp.viewportLod, tp.renderLod, LodArgs(tp.variant, tp.season, tp.lod)))
      else if tp.batchName == "" && original.None? then Failure(NoOriginal)
      else
        var src := if tp.batchName == "" then original.value.name else tp.batchName;
        match ModelPath(db, src)
        case None => Failure(UnknownModel(src))
        case Some(path) =>
          if !tp.batchUseLod && original.None? then Failure(NoOriginal)
          else
            // `tp = orig_tp`: the original also supplies the detail levels.
            var geo := if tp.batchUseLod then tp else original.value;
            if tp.batchVariant == Unchanged && original.None? then Failure(NoOriginal)
            else
              var variant := if tp.batchVariant == Unchanged then original.value.variant else tp.batchVariant;
              if tp.batchSeason == Unchanged && original.None? then Failure(NoOriginal)
              else
                var season := if tp.batchSeason == Unchanged then original.value.season else tp.batchSeason;
                Success(ImportPlan(path, geo.viewportLod, geo.renderLod, LodArgs(variant, season, geo.lod)))
  }

  /** A batch that changes nothing (no new name, the original's geometry,
      every choice UNCHANGED) re-imports the original exactly as the
      original's own import would. */
  lemma UnchangedBatchReimportsOriginal(db: Document, tp: Props, original: Props)
    requires WellFormed(db)
    requires tp.name != "" && tp.name in db.models.entries
    requires tp.batchMode && tp.batchName == "" && !tp.batchUseLod
    requires tp.batchVariant == Unchanged && tp.batchSeason == Unchanged
    requires !original.batchMode
    ensures ResolveImport(db, tp, Some(original)) == ResolveImport(db, original, None)
  {
  }

  /** Outside batch mode the original is never consulted. */
  lemma NonBatchIgnoresOriginal(db: Document, tp: Props, o1: Option<Props>, o2: Option<Props>)
    requires WellFormed(db) && !tp.batchMode
    ensures ResolveImport(db, tp, o1) == ResolveImport(db, tp, o2)
  {
  }
}
