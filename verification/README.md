# Thicket model database and panel logic, in Dafny

Thicket is a Blender add-on that imports Laubwerk plant models. This project models two parts of it.

The first is the model database (`thicket_db.py`). It is a JSON document with three parts:

- `info`, which carries the schema version;
- `labels`, which maps a label key to a map from locale to text;
- `models`, which maps a model name to its record: file path, md5, preview, default variant, and variants.

The database operations are modelled as pure functions over that document:

- the schema gate on open and fresh initialisation;
- label lookup with fallback, the label merge, and the flattened translation table;
- model lookup by name with a file-path fallback;
- variant and season selection with default fallback;
- name-sorted iteration;
- insert-or-overwrite of worker records;
- the locale rewrite used when labels are fetched from the SDK.

The build loop is a method over the list of model files. It keeps a pending list and a FIFO queue of at most `num_jobs` in-flight jobs. The worker process for each file is replaced by an oracle `parse` that gives the decoded worker output, or None when it does not decode.

The second part is the decision logic of the add-on panel (`__init__.py`):

- the sidebar mode state machine (`next_mode`);
- the preview-key fallback chain (`get_preview`);
- comparison and copying of property groups, treated as maps from property name to value;
- the batch-mode argument resolution at the head of `import_lbw`.

Module layout:

| file | module | contents |
|---|---|---|
| wrappers.dfy | Wrappers | `Option`, `Result` |
| dicts.dfy | Dicts | insertion-ordered dictionaries keyed by strings |
| strings.dfy | Strings | code-point string order, sorting, `str.replace` for single characters |
| records.dfy | Records | the stored document and worker records |
| labels.dfy | LabelStore | `get_label`, `update_labels`, `get_translation_dict`, `retrieve_labels` |
| views.dfy | Views | `DBSeason`, `DBVariant`, `DBModel` and their selectors |
| database.dfy | Database | open and schema gate, `initialize`, `get_model`, `add_model`, iteration |
| build.dfy | Build | the `build` job-queue loop and the merge of worker outputs |
| ui_mode.dfy | UiMode | `next_mode` |
| previews.dfy | Previews | `get_preview` |
| prop_group.dfy | PropGroup | `__eq__`, `__ne__`, `eq_lod`, `copy_to`, `import_lbw` argument resolution |

Python dictionaries keep insertion order, and two results depend on it:

- `get_model`'s path scan takes the last match in key order;
- `get_translation_dict` lets the key listed last win when two label keys share a display label.

So a dictionary is modelled as a key sequence plus a map (`Dicts.Dict`). `Put` appends new keys and keeps the position of existing ones.

The module globals `db`, `thicket_ui_mode` and `thicket_previews` are passed as arguments.

The schema gate rejects only older documents: thicket_db.py:129 compares with `<`, so a document whose `schema_version` is newer than `SCHEMA_VERSION` opens.

## Model

| member | source | states |
|---|---|---|
| LabelStore.GetLabelIn | thicket_db.py:181-188 | returns `labels[key][locale]` when both the key and the locale are present; otherwise returns the key itself, never failing |
| LabelStore.UpdateLabels | thicket_db.py:169-170 | a top-level update: every key of the argument gets its whole locale map replaced; other keys keep their map and their position; the key set is the union |
| LabelStore.GetLabelAfterUpdate | thicket_db.py:169-170 | after a merge, an updated key resolves through the new locale map alone (no per-locale merge); every other key resolves as before |
| LabelStore.GetTranslationDict | thicket_db.py:172-179 | a locale is present iff some key has a non-empty translation in it; every entry is a non-empty translation filed under `('*', get_label(key))`; every non-empty translation is filed; when labels collide, the key listed last supplies the text |
| LabelStore.TranslationOfUniqueLabel | thicket_db.py:172-179 | a key whose display label no other key shares (within the locale) has exactly its own translation in the table |
| LabelStore.LbwLocale | thicket_db.py:338-342 | the SDK locale code contains no `_`; `zh_HANS` becomes `zh-CN`; any other code keeps its length and every character, except that each `_` becomes `-` (`en_US` becomes `en-US`) |
| LabelStore.LbwLocaleDashAgnostic | thicket_db.py:338-342 | two codes other than `zh_HANS` that differ only in `_` versus `-` request the same SDK string |
| LabelStore.RetrieveLabels | thicket_db.py:333-349 | the result is keyed by requested locales only; every locale whose lookup succeeds is present; a locale whose lookup fails is left out; each value is the lookup of the rewritten code |
| Views.SeasonView | thicket_db.py:50-53 | a season view carries the season's name and its resolved display label |
| Views.VariantView | thicket_db.py:56-64 | a variant view carries its label, one season view per listed season in order, and the default season's view; a variant with an empty preview shows the model's preview, otherwise its own |
| Views.ModelView | thicket_db.py:75-86 | a model view lists exactly one variant view per stored variant, in the record's key order, and its default variant is one of them, named `default_variant` |
| Views.FirstNamed | thicket_db.py:68-71 | the first position with the requested name, None iff no element has that name |
| Views.GetSeason | thicket_db.py:66-72 | a season with the requested name when one is listed; the default season when the name is None or unlisted |
| Views.GetVariant | thicket_db.py:88-94 | a variant with the requested name when one is listed; the default variant when the name is None or unlisted |
| Views.GetVariantOfRecord | thicket_db.py:76-94 | selecting on a model view gives the view of the stored variant record of that name, or the view of `default_variant` |
| Views.GetSeasonOfRecord | thicket_db.py:57-72 | selecting on a variant view gives the view of the requested season when the record lists it, else the view of `default_season` |
| Database.Initialize | thicket_db.py:144-155 | a well-formed document with empty labels and models and `schema_version == SCHEMA_VERSION` |
| Database.Open | thicket_db.py:121-137 | an older schema fails with the old-schema error; a current or newer one opens as stored; a missing file with `create` yields exactly the freshly initialised document, and without it not-found; no opened document is older than `SCHEMA_VERSION` |
| Database.InitializedDocumentReopens | thicket_db.py:121-131 | a freshly initialised document passes the schema gate unchanged |
| Database.LastWithPath | thicket_db.py:196-200 | the path scan without `break`: None iff no stored record has the path, else the key of the last record, in key order, that does |
| Database.GetModel | thicket_db.py:190-203 | a stored non-empty name wins regardless of the path; an empty name yields None; otherwise a truthy path selects the last record with that path, and None when there is none; any result is the view of a stored model |
| Database.LastWithPathUnique | thicket_db.py:196-200 | at most one key is the last one stored with a given path, so the scan result is determined |
| Database.AddModel | thicket_db.py:241-242 | insert-or-overwrite by name: the new record is stored under its name; other models are untouched; the count grows by one only for a new name; labels are merged with `update_labels` |
| Database.ReAddOverwrites | thicket_db.py:241-242 | adding the same name twice keeps only the second record, and the count is that of a single add |
| Database.AddModelAsWrittenAlwaysFails | thicket_db.py:205-208 | `add_model` as written raises `KeyError('name')` on every worker record |
| Dicts.LenIsCardinality | thicket_db.py:210-211 | `model_count()`, the length of the models object, is the number of distinct stored names |
| Database.SortedNames | thicket_db.py:100-103 | the stored names, each exactly once, strictly ascending by code point |
| Database.Iterate | thicket_db.py:97-111 | one view per stored model (length equals `model_count`), every model present, names strictly ascending, each element the view of its stored record |
| Database.IterationNames | thicket_db.py:141-142 | the names an iteration yields are exactly the stored names, in strictly ascending order |
| Database.IterationOrderExample | thicket_db.py:100-103 | models Zebrawood, Acacia and Maple iterate as Acacia, Maple, Zebrawood |
| Build.NumJobs | thicket_db.py:220-222 | `cpu_count()` when it is a positive number, 4 when it is None or 0; never below 1 |
| Build.Reverse | thicket_db.py:229-230 | popping from the end of the list takes the files last-first |
| Build.LatestRecordFound | thicket_db.py:237-242 | the merge finds a record for a name iff some drained job produced that name |
| Build.LatestRecordIsLast | thicket_db.py:237-242 | the record found for a name is the one from the last job, in drain order, that produced it |
| Build.Ingest | thicket_db.py:239-245 | a decoded output stores its model under its name and touches no other model, and its labels are merged with `update_labels` (a key it carries gets its locale map, other keys keep theirs); an undecodable output leaves the whole document unchanged |
| Build.IngestAll | thicket_db.py:227-245 | after merging a run of outputs, each model name holds the record of the last output that carried it, or its earlier value when none did |
| Build.IngestAllLabels | thicket_db.py:227-245 | after merging a run of outputs, each label key holds the locale map of the last output whose labels carried it, or its earlier map when none did |
| Build.FillJobs | thicket_db.py:229-235 | the inner loop spawns from the end of the pending list until `num_jobs` jobs are in flight or no file is left; the bookkeeping invariant is kept |
| Build.DrainOldest | thicket_db.py:236-245 | `popleft` removes the oldest job, which exists; its output is merged; the invariant is kept |
| Build.Build | thicket_db.py:213-254 | drains every file in FIFO order of spawning (`files` reversed); the document is the fresh one merged with those outputs in that order; peak concurrency is `min(num_jobs, len(files))`; both queues are empty at exit |
| Build.FailedJobSkipped | thicket_db.py:237-245 | a job whose output fails to decode leaves the same document as if its file had not been listed |
| Build.CountOfDistinct | thicket_db.py:241-242 | with distinct new names, the model count grows by exactly the number of decoded outputs |
| Build.LastJobWins | thicket_db.py:241-242 | the stored model of a name is the record of the last drained job that produced it |
| Build.UnproducedNameKept | thicket_db.py:237-245 | a name no job produced keeps its prior value |
| Build.BuildFaultContainment | thicket_db.py:227-254 | with distinct names, a build stores exactly one model per decoded output, each under its own name, whatever the other jobs did |
| UiMode.ParseOp | __init__.py:880-886 | only the seven known operator names are recognised, each as the operator it names |
| UiMode.TableDeterministic | __init__.py:888-922 | the transition table names at most one target per (mode, operator) pair |
| UiMode.Step | __init__.py:888-922 | a changed mode is a move listed in the transition table, and every listed move is taken |
| UiMode.NextMode | __init__.py:877-924 | an unknown operator leaves the mode unchanged; otherwise the result follows the transition table, and any unlisted pair is a self-loop |
| UiMode.MakeUniqueStays | __init__.py:880-924 | MAKE_UNIQUE is accepted but never changes the mode |
| UiMode.CancelTwiceReachesView | __init__.py:888-917 | from any mode, two CANCELs reach VIEW |
| UiMode.EveryModeReachable | __init__.py:888-922 | every mode can be reached from VIEW |
| Previews.PreviewBase | __init__.py:164 | the base key has no spaces and no dots; a name with a space gives a base with `_`; every other character except `_` occurs in it iff it occurs in the model name |
| Previews.FirstPresent | __init__.py:165-173 | the first candidate present in the collection, or the last candidate when none is |
| Previews.PreviewKey | __init__.py:164-173 | the chosen key is the first present of `base_variant` (only for a non-empty variant), then `base`, then `missing_preview`; it is present or it is `missing_preview` |
| Previews.GetPreview | __init__.py:164-174 | succeeds whenever `missing_preview` is loaded, and returns the image under the chosen key |
| Previews.VariantPreviewPreferred | __init__.py:165-170 | a loaded variant preview is chosen over the model's |
| Previews.PreviewBaseChar | __init__.py:164 | one character at a time: a space becomes `_`, a dot is dropped, any other character is kept |
| Previews.PreviewBaseConcat | __init__.py:164 | the base of a concatenation is the concatenation of the bases, so characters keep their order; with `PreviewBaseChar` this fixes the base of every name |
| Previews.PreviewBaseExample | __init__.py:164 | the model name `O k.` gives the base key `O_k` |
| Previews.PreviewBaseIdempotent | __init__.py:164 | deriving the base key of a base key changes nothing |
| PropGroup.MatchFrom | __init__.py:418-424 | the scan is true iff every relevant key is present in the other group with an equal value |
| PropGroup.Eq | __init__.py:417-424 | `__eq__` is true iff every property of `self` is set in `other` to the same value |
| PropGroup.Ne | __init__.py:426-427 | `__ne__` is the negation of `__eq__` |
| PropGroup.EqLod | __init__.py:429-439 | `eq_lod` is the same comparison restricted to the seven level-of-detail keys |
| PropGroup.EqImpliesEqLod | __init__.py:417-439 | equal groups are equal in level of detail |
| PropGroup.EqTransitive | __init__.py:417-424 | `__eq__` is transitive |
| PropGroup.EqAsymmetric | __init__.py:417-424 | `__eq__` is not symmetric: when `b` covers `a` and sets a property `a` lacks, `a == b` holds and `b == a` does not |
| PropGroup.EqAsymmetricExample | __init__.py:417-424 | a concrete instance: `{lod_subdiv: 2}` equals `{lod_subdiv: 2, leaf_amount: 50}`, but not the other way round |
| PropGroup.CopyTo | __init__.py:441-443 | every property of `self` takes its value in the target; properties only in the target are unchanged |
| PropGroup.CopyToMakesEqual | __init__.py:417-443 | after `self.copy_to(other)`, `self == other` |
| PropGroup.ModelPath | __init__.py:446 | `get_model(name=n).filepath` succeeds iff `n` is a non-empty stored name, giving that record's path |
| PropGroup.ResolveImport | __init__.py:445-498 | the own name must resolve. Outside batch mode the group's own path, variant, season, geometry and viewport and render detail levels are used. Without an original, a batch succeeds iff `batch_name` is a stored name, `batch_use_lod` is set, and neither variant nor season is UNCHANGED. In batch mode: the model imported is `batch_name` if non-empty, else the original's; an UNCHANGED variant or season takes the original's; geometry and the viewport and render detail levels come from the original unless `batch_use_lod`; a missing original fails exactly where it is read |
| PropGroup.UnchangedBatchReimportsOriginal | __init__.py:456-468 | a batch with no new name, no own geometry and UNCHANGED choices resolves to exactly the original's own import arguments |
| PropGroup.NonBatchIgnoresOriginal | __init__.py:452-468 | outside batch mode the original has no influence |

## Left out

- File I/O is not modelled: JSON `load`/`dump`, `save`, `glob` enumeration of model files, and `md5sum`. Opening takes the decoded document (or its absence), and the build takes the file list.
- The JSON decode-error branch of opening (thicket_db.py:138-139) only logs and leaves the database unset, so it has no result to state.
- Worker subprocesses (`Popen`, `communicate`, command-line flags) are the oracle `parse`. A worker output that decodes is assumed to be a well-formed record. If it lacks `model` or `labels`, `build` raises KeyError, which the model does not represent.
- `parse_model`'s Laubwerk SDK calls (`lbw.load`, `m.params`, preview file checks) are not modelled. Its output is the `WorkerRecord` input. `get_lang_string` is the `lookup` argument of `RetrieveLabels`.
- Build.Build: the except branch logs the last popped file `f` instead of the failing job's file. Logging is not modelled.
- The post-loop "files remaining" and "jobs still running" log checks are returned as `filesLeft` and `jobsLeft`. The logging itself is not modelled.
- Build.Build: wall-clock parallelism is not modelled. Jobs are drained one at a time in spawn order, exactly as the loop waits for them.
- Printing (`print_info`, `read`) and the command-line `main` are not modelled.
- `thicket_lbw.py` is not part of this model. It builds Blender meshes, objects and shader graphs through the host and the SDK.
- The Blender UI is not part of this model: panels, `draw*` methods, operator `execute` bodies, `populate_previews`, `thicket_init`, registration, preferences, `delete_model` and `make_unique`.
- PropGroup.ResolveImport: the object-reuse decisions after the argument resolution (__init__.py:478-495) and the mesh creation are not modelled. They select host objects. The plan carries what the mesh creation at __init__.py:498 is given: the path, the viewport and render detail levels, and the mesh arguments.
- PropGroup.ResolveImport: property values are Dafny reals. The division by 100 is exact, not float-rounded.
- The enum item callbacks (`variant_callback`, `season_callback` and the batch callbacks) are not modelled. They only build UI lists.
- Logging in `next_mode` and `get_preview` is not modelled.
- Views.ModelView and Database.GetModel require a well-formed document, in which each `default_variant` names a stored variant. On a malformed one `DBModel` raises KeyError while building a view.

## Findings

| source | as written | input that shows it | evidently intended | confidence | as-written member | corrected member |
|---|---|---|---|---|---|---|
| thicket_db.py:207 | `add_model` stores `m_rec["model"]` under `m_rec["name"]` | any record from `parse_model`, whose only keys are `model` and `labels` (thicket_db.py:325-327): `m_rec["name"]` raises KeyError | key by `m_rec["model"]["name"]`, as `build` does at thicket_db.py:241 | high; not executed | Database.AddModelAsWrittenAlwaysFails | Database.AddModel |
