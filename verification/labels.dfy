/** The label store of `ThicketDB`: label lookup with fallback, the label
    merge, the flattened translation table handed to the host, and the
    per-locale label retrieval of `parse_model`. */
module LabelStore {
  import opened Wrappers
  import opened Dicts
  import opened Strings
  import opened Records

  /** The `defaultLocale` argument of `get_label`. */
  const DefaultLocale: string := "en_US"

  /** `get_label(key, locale)`: the translation of `key` in `locale`, or `key`
      itself when the key or the locale is missing; it never fails. */
  function GetLabelIn(labels: Labels, key: string, locale: string): (r: string)
    ensures key in labels.entries && locale in labels.entries[key] ==> r == labels.entries[key][locale]
    ensures !(key in labels.entries && locale in labels.entries[key]) ==> r == key
  {
    if key in labels.entries && locale in labels.entries[key] then labels.entries[key][locale]
    else key
  }

  /** `get_label(key)` with the default locale. */
  function GetLabel(labels: Labels, key: string): string {
    GetLabelIn(labels, key, DefaultLocale)
  }

  /** `update_labels`: a top-level `dict.update`.  Each key of `incoming` has its
      whole locale map replaced (locales are not merged); other keys keep
      their maps and their order. */
  function UpdateLabels(labels: Labels, incoming: Labels): (r: Labels)
    requires labels.Valid() && incoming.Valid()
    ensures r.Valid()
    ensures forall k :: k in r.entries <==> k in labels.entries || k in incoming.entries
    ensures forall k :: k in incoming.entries ==> r.entries[k] == incoming.entries[k]
    ensures forall k :: k in labels.entries && k !in incoming.entries ==> r.entries[k] == labels.entries[k]
    ensures |r.keys| >= |labels.keys| && r.keys[..|labels.keys|] == labels.keys
  {
    Update(labels, incoming)
  }

  /** After a merge, a label key that was part of the update resolves through
      the new locale map alone, and every other key resolves as before. */
  lemma GetLabelAfterUpdate(labels: Labels, incoming: Labels, key: string, locale: string)
    requires labels.Valid() && incoming.Valid()
    ensures key in incoming.entries ==>
      GetLabelIn(UpdateLabels(labels, incoming), key, locale)
        == (if locale in incoming.entries[key] then incoming.entries[key][locale] else key)
    ensures key !in incoming.entries ==>
      GetLabelIn(UpdateLabels(labels, incoming), key, locale) == GetLabelIn(labels, key, locale)
  {
  }

  /* ---------------- get_translation_dict ---------------- */

  /** A key of the host's translation table: `('*', label)`. */
  type TransKey = (string, string)

  /** locale -> (('*', label) -> translation). */
  type Translations = map<string, map<TransKey, string>>

  /** Label `k` has a non-empty translation for `lang`. */
  ghost predicate HasText(labels: Labels, k: string, lang: string) {
    k in labels.entries && lang in labels.entries[k] && labels.entries[k][lang] != ""
  }

  /** No label key listed after position `i` (and before `n`) has a non-empty
      `lang` translation under the same display label as key `i`. */
  ghost predicate LastOfItsLabel(labels: Labels, n: int, i: int, lang: string)
    requires labels.Valid() && 0 <= i < n <= |labels.keys|
  {
    forall j :: i < j < n ==>
      !(HasText(labels, labels.keys[j], lang)
        && GetLabel(labels, labels.keys[j]) == GetLabel(labels, labels.keys[i]))
  }

  function NonEmptyLocales(locs: map<string, string>): set<string> {
    set l | l in locs && locs[l] != ""
  }

  /** One pass of the inner loop: file every non-empty translation of one key
      under `('*', lbl)`, creating the locale's table on first use. */
  function AddKey(acc: Translations, lbl: string, locs: map<string, string>): Translations {
    map lang | lang in acc.Keys + NonEmptyLocales(locs) ::
      if lang in locs && locs[lang] != "" then
        (if lang in acc then acc[lang] else map[])[("*", lbl) := locs[lang]]
      else acc[lang]
  }

  function AddKeyAt(acc: Translations, lbl: string, locs: map<string, string>, lang: string): (r: Option<map<TransKey, string>>)
    ensures r == if lang in AddKey(acc, lbl, locs) then Some(AddKey(acc, lbl, locs)[lang]) else None
  {
    if lang in locs && locs[lang] != "" then Some((if lang in acc then acc[lang] else map[])[("*", lbl) := locs[lang]])
    else if lang in acc then Some(acc[lang])
    else None
  }

  /** The table after the outer loop has visited the first `n` label keys. */
  function TranslationsOf(labels: Labels, n: nat): Translations
    requires labels.Valid() && n <= |labels.keys|
    decreases n
  {
    if n == 0 then map[]
    else
      var k := labels.keys[n - 1];
      AddKey(TranslationsOf(labels, n - 1), GetLabel(labels, k), labels.entries[k])
  }

  /** A locale gets a table exactly when some visited key has a non-empty
      translation for it. */
  lemma {:induction false} TranslationsOfLocales(labels: Labels, n: nat, lang: string)
    requires labels.Valid() && n <= |labels.keys|
    ensures lang in TranslationsOf(labels, n) <==> exists i :: 0 <= i < n && HasText(labels, labels.keys[i], lang)
    decreases n
  {
    if n > 0 {
      TranslationsOfLocales(labels, n - 1, lang);
      var k := labels.keys[n - 1];
      assert AddKeyAt(TranslationsOf(labels, n - 1), GetLabel(labels, k), labels.entries[k], lang).Some?
        <==> lang in TranslationsOf(labels, n);
      if HasText(labels, k, lang) {
        assert lang in TranslationsOf(labels, n);
      }
    }
  }

  /** Every table entry is `('*', label)` -> the non-empty translation of
      some visited key whose display label is `label`. */
  lemma {:induction false} TranslationsOfSound(labels: Labels, n: nat, lang: string, tk: TransKey)
    requires labels.Valid() && n <= |labels.keys|
    requires lang in TranslationsOf(labels, n) && tk in TranslationsOf(labels, n)[lang]
    ensures tk.0 == "*"
    ensures exists i :: (0 <= i < n && HasText(labels, labels.keys[i], lang)
      && GetLabel(labels, labels.keys[i]) == tk.1
      && TranslationsOf(labels, n)[lang][tk] == labels.entries[labels.keys[i]][lang])
    decreases n
  {
    var k := labels.keys[n - 1];
    var prev := TranslationsOf(labels, n - 1);
    var lbl := GetLabel(labels, k);
    var at := AddKeyAt(prev, lbl, labels.entries[k], lang);
    if HasText(labels, k, lang) && tk == ("*", lbl) {
      assert TranslationsOf(labels, n)[lang][tk] == labels.entries[k][lang];
    } else {
      assert lang in prev && tk in prev[lang] && TranslationsOf(labels, n)[lang][tk] == prev[lang][tk];
      TranslationsOfSound(labels, n - 1, lang, tk);
    }
  }

  /** Every non-empty translation of a visited key has an entry under
      `('*', get_label(key))`, and the key listed last among those sharing
      that display label supplies its value. */
  lemma {:induction false} TranslationsOfComplete(labels: Labels, n: nat, i: nat, lang: string)
    requires labels.Valid() && i < n <= |labels.keys|
    requires HasText(labels, labels.keys[i], lang)
    ensures lang in TranslationsOf(labels, n)
    ensures ("*", GetLabel(labels, labels.keys[i])) in TranslationsOf(labels, n)[lang]
    ensures LastOfItsLabel(labels, n, i, lang) ==>
      TranslationsOf(labels, n)[lang][("*", GetLabel(labels, labels.keys[i]))] == labels.entries[labels.keys[i]][lang]
    decreases n
  {
    var k := labels.keys[n - 1];
    var prev := TranslationsOf(labels, n - 1);
    var lbl := GetLabel(labels, k);
    var at := AddKeyAt(prev, lbl, labels.entries[k], lang);
    if i == n - 1 {
      assert at.Some?;
    } else {
      TranslationsOfComplete(labels, n - 1, i, lang);
      assert at.Some?;
      if LastOfItsLabel(labels, n, i, lang) {
        assert LastOfItsLabel(labels, n - 1, i, lang);
        assert !(HasText(labels, k, lang) && lbl == GetLabel(labels, labels.keys[i]));
      }
    }
  }

  ghost predicate LocalesExact(labels: Labels, r: Translations) {
    forall lang :: lang in r <==> exists k :: HasText(labels, k, lang)
  }

  ghost predicate EntriesSound(labels: Labels, r: Translations) {
    forall lang, tk :: lang in r && tk in r[lang] ==>
      (tk.0 == "*" && r[lang][tk] != ""
       && exists k :: HasText(labels, k, lang) && GetLabel(labels, k) == tk.1 && r[lang][tk] == labels.entries[k][lang])
  }

  ghost predicate EntriesComplete(labels: Labels, r: Translations) {
    forall k, lang :: HasText(labels, k, lang) ==> lang in r && ("*", GetLabel(labels, k)) in r[lang]
  }

  ghost predicate LastWins(labels: Labels, r: Translations)
    requires labels.Valid()
  {
    forall i, lang ::
      (0 <= i < |labels.keys| && HasText(labels, labels.keys[i], lang)
       && LastOfItsLabel(labels, |labels.keys|, i, lang)) ==>
      (lang in r && ("*", GetLabel(labels, labels.keys[i])) in r[lang]
       && r[lang][("*", GetLabel(labels, labels.keys[i]))] == labels.entries[labels.keys[i]][lang])
  }

  lemma FullTableLocales(labels: Labels)
    requires labels.Valid()
    ensures LocalesExact(labels, TranslationsOf(labels, |labels.keys|))
  {
    forall lang ensures lang in TranslationsOf(labels, |labels.keys|) <==> exists k :: HasText(labels, k, lang) {
      TranslationsOfLocales(labels, |labels.keys|, lang);
    }
  }

  lemma FullTableSound(labels: Labels)
    requires labels.Valid()
    ensures EntriesSound(labels, TranslationsOf(labels, |labels.keys|))
  {
    var r := TranslationsOf(labels, |labels.keys|);
    forall lang, tk: TransKey | lang in r && tk in r[lang]
      ensures tk.0 == "*" && r[lang][tk] != ""
      ensures exists k :: HasText(labels, k, lang) && GetLabel(labels, k) == tk.1 && r[lang][tk] == labels.entries[k][lang]
    {
      TranslationsOfSound(labels, |labels.keys|, lang, tk);
    }
  }

  lemma FullTableComplete(labels: Labels)
    requires labels.Valid()
    ensures EntriesComplete(labels, TranslationsOf(labels, |labels.keys|))
    ensures LastWins(labels, TranslationsOf(labels, |labels.keys|))
  {
    var n := |labels.keys|;
    forall i, lang | 0 <= i < n && HasText(labels, labels.keys[i], lang)
      ensures lang in TranslationsOf(labels, n) && ("*", GetLabel(labels, labels.keys[i])) in TranslationsOf(labels, n)[lang]
      ensures LastOfItsLabel(labels, n, i, lang) ==>
        TranslationsOf(labels, n)[lang][("*", GetLabel(labels, labels.keys[i]))] == labels.entries[labels.keys[i]][lang]
    {
      TranslationsOfComplete(labels, n, i, lang);
    }
    forall k, lang | HasText(labels, k, lang)
      ensures lang in TranslationsOf(labels, n) && ("*", GetLabel(labels, k)) in TranslationsOf(labels, n)[lang]
    {
      var i :| 0 <= i < n && labels.keys[i] == k;
    }
  }

  /** `get_translation_dict`: the host's translation table.  Only non-empty
      translations are filed, each under its locale and `('*', get_label(key))`;
      a locale appears only when it has at least one such translation; when
      several keys share a display label the one listed last in the label
      store supplies the text. */
  function GetTranslationDict(labels: Labels): (r: Translations)
    requires labels.Valid()
    ensures LocalesExact(labels, r)
    ensures EntriesSound(labels, r)
    ensures EntriesComplete(labels, r)
    ensures LastWins(labels, r)
  {
    FullTableLocales(labels);
    FullTableSound(labels);
    FullTableComplete(labels);
    TranslationsOf(labels, |labels.keys|)
  }

  /** When no other key has a non-empty `lang` translation with the same
      display label, the table holds exactly this key's translation. */
  lemma TranslationOfUniqueLabel(labels: Labels, k: string, lang: string)
    requires labels.Valid() && HasText(labels, k, lang)
    requires forall k' :: k' != k && HasText(labels, k', lang) ==> GetLabel(labels, k') != GetLabel(labels, k)
    ensures GetTranslationDict(labels)[lang][("*", GetLabel(labels, k))] == labels.entries[k][lang]
  {
    var i :| 0 <= i < |labels.keys| && labels.keys[i] == k;
    assert LastOfItsLabel(labels, |labels.keys|, i, lang);
  }

  /* ---------------- retrieve_labels ---------------- */

  /** The locale code handed to the SDK: `zh_HANS` becomes `zh_CN` (the host
      and the SDK spell it differently), then every `_` becomes `-`. */
  function LbwLocale(lang: string): (r: string)
    ensures '_' !in r
    ensures lang == "zh_HANS" ==> r == "zh-CN"
    ensures lang != "zh_HANS" ==> |r| == |lang|
    ensures lang != "zh_HANS" ==> forall i :: 0 <= i < |lang| ==> r[i] == (if lang[i] == '_' then '-' else lang[i])
  {
    ReplaceChar(if lang == "zh_HANS" then "zh_CN" else lang, '_', '-')
  }

  /** The rewrite is a projection on every code but `zh_HANS`: rewriting a
      rewritten code changes nothing, and two codes that differ only in
      `_` versus `-` ask the SDK for the same string. */
  lemma LbwLocaleIdempotent(lang: string)
    ensures LbwLocale(LbwLocale(lang)) == LbwLocale(lang)
  {
  }

  lemma LbwLocaleDashAgnostic(a: string, b: string)
    requires a != "zh_HANS" && b != "zh_HANS" && |a| == |b|
    requires forall i :: 0 <= i < |a| ==> a[i] == b[i] || (a[i] in "_-" && b[i] in "_-")
    ensures LbwLocale(a) == LbwLocale(b)
  {
  }

  /** `retrieve_labels(labels, locales)`, with the SDK's
      `get_lang_string(labels, code)` as `lookup` (`None` where it raises
      `ValueError`).  The result is keyed by the locales as requested; a
      locale whose lookup fails is left out. */
  method RetrieveLabels(locales: seq<string>, lookup: string -> Option<string>) returns (result: map<string, string>)
    ensures forall lang :: lang in result ==> lang in locales
    ensures forall lang :: lang in locales && lookup(LbwLocale(lang)).Some? ==> lang in result
    ensures forall lang :: lang in result ==> lookup(LbwLocale(lang)) == Some(result[lang])
  {
    result := map[];
    var i := 0;
    while i < |locales|
      invariant 0 <= i <= |locales|
      invariant forall lang :: lang in result ==> lang in locales[..i]
      invariant forall lang :: lang in locales[..i] && lookup(LbwLocale(lang)).Some? ==> lang in result
      invariant forall lang :: lang in result ==> lookup(LbwLocale(lang)) == Some(result[lang])
    {
      var lang := locales[i];
      var found := lookup(LbwLocale(lang));
      if found.Some? {
        result := result[lang := found.value];
      }
      assert locales[..i + 1] == locales[..i] + [lang];
      i := i + 1;
    }
    assert locales[..i] == locales;
  }
}
