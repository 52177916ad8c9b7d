/** The persisted Thicket database document (`thicket_db.py`): an `info`
    block, the label store and the model records, each a JSON object. */
module Records {
  import opened Dicts

  /** `SCHEMA_VERSION`: the document layout this code reads and writes. */
  const SchemaVersion: int := 2

  /** The Laubwerk SDK version captured by `initialize`; informational only. */
  datatype SdkVersion = SdkVersion(version: string, major: int, minor: int, micro: int)

  datatype Info = Info(sdk: SdkVersion, schemaVersion: int)

  /** One entry of a model's `variants` object. */
  datatype VariantRecord = VariantRecord(
    index: int,
    seasons: seq<string>,
    defaultSeason: string,
    preview: string)

  /** One entry of the `models` object, as `parse_model` emits it. */
  datatype ModelRecord = ModelRecord(
    name: string,
    filepath: string,
    md5: string,
    preview: string,
    defaultVariant: string,
    variants: Dict<VariantRecord>)

  /** label key -> (locale -> translated string).  Inner locale objects are
      plain maps: nothing in the code depends on their order. */
  type Labels = Dict<map<string, string>>

  datatype Document = Document(info: Info, labels: Labels, models: Dict<ModelRecord>)

  /** What one `parse_model` worker prints: `{"model": ..., "labels": ...}`. */
  datatype WorkerRecord = WorkerRecord(model: ModelRecord, labels: Labels)

  /** The top-level JSON keys of a worker record. */
  function WorkerRecordKeys(w: WorkerRecord): set<string> {
    {"model", "labels"}
  }

  /** A model record the views can be built from: its `default_variant`
      names one of its variants (the views index `variants[default_variant]`). */
  ghost predicate WellFormedModel(m: ModelRecord) {
    m.variants.Valid() && m.defaultVariant in m.variants.entries
  }

  /** The document shape every reader relies on. */
  ghost predicate WellFormed(d: Document) {
    && d.labels.Valid()
    && d.models.Valid()
    && forall n :: n in d.models.entries ==> WellFormedModel(d.models.entries[n])
  }

  ghost predicate WellFormedWorker(w: WorkerRecord) {
    WellFormedModel(w.model) && w.labels.Valid()
  }
}
