/** The read-only views `DBSeason`, `DBVariant` and `DBModel` that
    `thicket_db.py` materialises from the stored records on every access,
    with their labels resolved and the variant preview falling back to the
    model's. */
module Views {
  import opened Wrappers
  import opened Dicts
  import opened Records
  import opened LabelStore

  datatype Season = Season(name: string, labelText: string)

  datatype Variant = Variant(
    name: string,
    labelText: string,
    seasons: seq<Season>,
    defaultSeason: Season,
    preview: string)

  datatype Model = Model(
    name: string,
    md5: string,
    filepath: string,
    labelText: string,
    preview: string,
    variants: seq<Variant>,
    defaultVariant: Variant)

  /** `DBSeason(db, name)`: the season and its display label. */
  function SeasonView(labels: Labels, name: string): (r: Season)
    ensures r.name == name
    ensures r.labelText == GetLabel(labels, name)
  {
    Season(name, GetLabel(labels, name))
  }

  /** `DBVariant(db, name, v_rec, model_preview)`: one season view per listed
      season, in order; a variant without its own preview shows the
      model's. */
  function VariantView(labels: Labels, name: string, v: VariantRecord, modelPreview: string): (r: Variant)
    ensures r.name == name && r.labelText == GetLabel(labels, name)
    ensures |r.seasons| == |v.seasons|
    ensures forall i :: 0 <= i < |v.seasons| ==> r.seasons[i] == SeasonView(labels, v.seasons[i])
    ensures r.defaultSeason == SeasonView(labels, v.defaultSeason)
    ensures v.preview == "" ==> r.preview == modelPreview
    ensures v.preview != "" ==> r.preview == v.preview
  {
    Variant(
      name,
      GetLabel(labels, name),
      seq(|v.seasons|, i requires 0 <= i < |v.seasons| => SeasonView(labels, v.seasons[i])),
      SeasonView(labels, v.defaultSeason),
      if v.preview == "" then modelPreview else v.preview)
  }

  /** `DBModel(db, name)` over the record stored under `name`: one variant
      view per stored variant, in the record's key order, and the default
      variant is one of them. */
  function ModelView(labels: Labels, name: string, m: ModelRecord): (r: Model)
    requires WellFormedModel(m)
    ensures r.name == name && r.labelText == GetLabel(labels, name)
    ensures |r.variants| == |m.variants.keys|
    ensures forall i :: 0 <= i < |r.variants| ==> r.variants[i].name == m.variants.keys[i]
    ensures r.defaultVariant in r.variants && r.defaultVariant.name == m.defaultVariant
  {
    var vs := m.variants;
    var r := Model(
      name,
      m.md5,
      m.filepath,
      GetLabel(labels, name),
      m.preview,
      seq(|vs.keys|, i requires 0 <= i < |vs.keys| => VariantView(labels, vs.keys[i], vs.entries[vs.keys[i]], m.preview)),
      VariantView(labels, m.defaultVariant, vs.entries[m.defaultVariant], m.preview));
    DefaultVariantListed(m, r);
    r
  }

  /** The default variant's view is among the listed views. */
  lemma DefaultVariantListed(m: ModelRecord, r: Model)
    requires WellFormedModel(m) && |r.variants| == |m.variants.keys|
    requires forall i :: 0 <= i < |r.variants| ==> r.variants[i].name == m.variants.keys[i]
    requires forall i :: 0 <= i < |r.variants| && m.variants.keys[i] == m.defaultVariant ==> r.variants[i] == r.defaultVariant
    ensures r.defaultVariant in r.variants
  {
    var i :| 0 <= i < |m.variants.keys| && m.variants.keys[i] == m.defaultVariant;
    assert r.variants[i] == r.defaultVariant;
  }

  /** The position of the first element called `name`, as the `for ... if
      s.name == name: return s` loops find it. */
  function FirstNamed<T>(xs: seq<T>, nameOf: T -> string, name: string): (r: Option<nat>)
    ensures r.None? <==> forall i :: 0 <= i < |xs| ==> nameOf(xs[i]) != name
    ensures r.Some? ==> r.value < |xs| && nameOf(xs[r.value]) == name
    ensures r.Some? ==> forall j :: 0 <= j < r.value ==> nameOf(xs[j]) != name
    decreases |xs|
  {
    if |xs| == 0 then None
    else if nameOf(xs[0]) == name then Some(0)
    else
      match FirstNamed(xs[1..], nameOf, name)
      case None => None
      case Some(k) => Some(k + 1)
  }

  function SeasonName(s: Season): string { s.name }

  function VariantName(v: Variant): string { v.name }

  /** `DBVariant.get_season(name)`: the first season called `name`, or the
      default season when `name` is None or names no season. */
  function GetSeason(v: Variant, name: Option<string>): (r: Season)
    ensures name.Some? && (exists i :: 0 <= i < |v.seasons| && v.seasons[i].name == name.value) ==>
      r.name == name.value && r in v.seasons
    ensures name.None? || (forall i :: 0 <= i < |v.seasons| ==> v.seasons[i].name != name.value) ==>
      r == v.defaultSeason
  {
    if name.None? then v.defaultSeason
    else
      match FirstNamed(v.seasons, SeasonName, name.value)
      case Some(i) => v.seasons[i]
      case None => v.defaultSeason
  }

  /** `DBModel.get_variant(name)`: the first variant called `name`, or the
      default variant when `name` is None or names no variant. */
  function GetVariant(m: Model, name: Option<string>): (r: Variant)
    ensures name.Some? && (exists i :: 0 <= i < |m.variants| && m.variants[i].name == name.value) ==>
      r.name == name.value && r in m.variants
    ensures name.None? || (forall i :: 0 <= i < |m.variants| ==> m.variants[i].name != name.value) ==>
      r == m.defaultVariant
  {
    if name.None? then m.defaultVariant
    else
      match FirstNamed(m.variants, VariantName, name.value)
      case Some(i) => m.variants[i]
      case None => m.defaultVariant
  }

  /** Selecting a variant of a model view by name yields the view of the
      stored variant record of that name; any other request (None, or a
      name the record lacks) yields the view of `default_variant`. */
  lemma GetVariantOfRecord(labels: Labels, name: string, m: ModelRecord, want: Option<string>)
    requires WellFormedModel(m)
    ensures want.Some? && want.value in m.variants.entries ==>
      GetVariant(ModelView(labels, name, m), want)
        == VariantView(labels, want.value, m.variants.entries[want.value], m.preview)
    ensures want.None? || want.value !in m.variants.entries ==>
      GetVariant(ModelView(labels, name, m), want)
        == VariantView(labels, m.defaultVariant, m.variants.entries[m.defaultVariant], m.preview)
  {
    var view := ModelView(labels, name, m);
    var vs := m.variants;
    if want.Some? {
      if want.value in vs.entries {
        var i :| 0 <= i < |vs.keys| && vs.keys[i] == want.value;
        assert view.variants[i].name == want.value;
        var r := GetVariant(view, want);
        var j :| 0 <= j < |view.variants| && view.variants[j] == r;
        assert vs.keys[j] == want.value;
      } else {
        forall i | 0 <= i < |view.variants| ensures view.variants[i].name != want.value {
          assert vs.keys[i] in vs.entries;
        }
      }
    }
  }

  /** Selecting a season of a variant view by name yields the view of that
      season when the record lists it, and the view of `default_season`
      otherwise. */
  lemma GetSeasonOfRecord(labels: Labels, name: string, v: VariantRecord, modelPreview: string, want: Option<string>)
    ensures want.Some? && want.value in v.seasons ==>
      GetSeason(VariantView(labels, name, v, modelPreview), want) == SeasonView(labels, want.value)
    ensures want.None? || want.value !in v.seasons ==>
      GetSeason(VariantView(labels, name, v, modelPreview), want) == SeasonView(labels, v.defaultSeason)
  {
    var view := VariantView(labels, name, v, modelPreview);
    if want.Some? && want.value in v.seasons {
      var i :| 0 <= i < |v.seasons| && v.seasons[i] == want.value;
      assert view.seasons[i].name == want.value;
    }
  }
}
