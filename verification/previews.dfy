/** `get_preview`: the gallery image for a model, or for one of its variants,
    looked up in the loaded preview collection with a fallback chain.  The
    collection, a global in the add-on, is passed as a map from key to
    image. */
module Previews {
  import opened Wrappers
  import opened Strings

  /** The key of the placeholder image. */
  const MissingPreview: string := "missing_preview"

  /** The model part of a preview key: spaces become underscores and dots
      are dropped. */
  function PreviewBase(modelName: string): (r: string)
    ensures ' ' !in r && '.' !in r
    ensures forall c :: c != ' ' && c != '.' && c != '_' ==> (c in r <==> c in modelName)
    ensures ' ' in modelName ==> '_' in r
  {
    RemoveChar(ReplaceChar(modelName, ' ', '_'), '.')
  }

  /** The base of a single character: a space becomes `_`, a dot is
      dropped, anything else is kept. */
  lemma PreviewBaseChar(c: char)
    ensures PreviewBase([c]) == if c == ' ' then "_" else if c == '.' then "" else [c]
  {
    var s := ReplaceChar([c], ' ', '_');
    assert s == [if c == ' ' then '_' else c];
    assert s[1..] == [];
  }

  /** The base is taken character by character, in order: the base of a
      concatenation is the concatenation of the bases.  With
      `PreviewBaseChar` this determines `PreviewBase` on every name. */
  lemma PreviewBaseConcat(a: string, b: string)
    ensures PreviewBase(a + b) == PreviewBase(a) + PreviewBase(b)
  {
    ReplaceCharConcat(a, b, ' ', '_');
    RemoveCharConcat(ReplaceChar(a, ' ', '_'), ReplaceChar(b, ' ', '_'), '.');
  }

  /** A model called `O k.` has preview base `O_k`. */
  lemma PreviewBaseExample()
    ensures PreviewBase("O k.") == "O_k"
  {
    var s := ReplaceChar("O k.", ' ', '_');
    assert s == "O_k.";
    assert RemoveChar(".", '.') == "" by { assert "."[1..] == []; }
    assert RemoveChar("k.", '.') == "k" by { assert "k."[1..] == "."; }
    assert RemoveChar("_k.", '.') == "_k" by { assert "_k."[1..] == "k."; }
    assert RemoveChar("O_k.", '.') == "O_k" by { assert "O_k."[1..] == "_k."; }
  }

  /** The keys tried, in order. */
  function Candidates(modelName: string, variant: string): seq<string> {
    var base := PreviewBase(modelName);
    if variant != "" then [base + "_" + variant, base, MissingPreview] else [base, MissingPreview]
  }

  /** The first of `cs` present in `keys`; the last candidate when none is. */
  function FirstPresent(cs: seq<string>, keys: set<string>): (r: string)
    requires |cs| > 0
    ensures r in cs
    ensures r in keys || r == cs[|cs| - 1]
    ensures exists i :: 0 <= i < |cs| && cs[i] == r && forall j :: 0 <= j < i ==> cs[j] !in keys
  {
    if |cs| == 1 || cs[0] in keys then cs[0]
    else
      var r := FirstPresent(cs[1..], keys);
      assert forall j :: 1 <= j < |cs| ==> cs[1..][j - 1] == cs[j];
      r
  }

  /** The key `get_preview` settles on, following its branches. */
  function PreviewKey(keys: set<string>, modelName: string, variant: string): (r: string)
    ensures r in keys || r == MissingPreview
    ensures r == FirstPresent(Candidates(modelName, variant), keys)
  {
    var base := PreviewBase(modelName);
    var key :=
      if variant != "" then
        (if base + "_" + variant in keys then base + "_" + variant else base)
      else base;
    if key !in keys then MissingPreview else key
  }

  /** `get_preview`.  The final lookup raises KeyError, modelled as None,
      only when even the placeholder is missing. */
  function GetPreview<P>(previews: map<string, P>, modelName: string, variant: string): (r: Option<P>)
    ensures MissingPreview in previews ==> r.Some?
    ensures r.Some? <==> PreviewKey(previews.Keys, modelName, variant) in previews
    ensures r.Some? ==> r.value == previews[PreviewKey(previews.Keys, modelName, variant)]
  {
    var key := PreviewKey(previews.Keys, modelName, variant);
    if key in previews then Some(previews[key]) else None
  }

  /** A variant image, when loaded, is preferred to the model's own. */
  lemma VariantPreviewPreferred<P>(previews: map<string, P>, modelName: string, variant: string)
    requires variant != "" && PreviewBase(modelName) + "_" + variant in previews
    ensures GetPreview(previews, modelName, variant) == Some(previews[PreviewBase(modelName) + "_" + variant])
  {
  }

  /** A preview base is already in normal form: deriving the base again
      changes nothing. */
  lemma PreviewBaseIdempotent(modelName: string)
    ensures PreviewBase(PreviewBase(modelName)) == PreviewBase(modelName)
  {
    var b := PreviewBase(modelName);
    ReplaceCharAbsent(b, ' ', '_');
    RemoveCharAbsent(b, '.');
  }
}
