/**
 * The translation lookup of the locale provider: the dotted-path `get`, the `t` fallback to the
 * key itself, and the choice of dictionary.
 */
module Locale {
  import opened Wrappers
  import opened Text
  import opened Js

  /** One step of the `reduce`: a truthy value is indexed by the segment, anything else gives `undefined`. */
  function Step(acc: JsValue, k: string): (r: JsValue)
    ensures !Truthy(acc) ==> r == Undefined
    ensures Truthy(acc) ==> r == Prop(acc, k)
  {
    if Truthy(acc) && Prop(acc, k) != Undefined then Prop(acc, k) else Undefined
  }

  /** The `reduce` over the segments, left to right. */
  function FoldGet(v: JsValue, segments: seq<string>): JsValue
    decreases |segments|
  {
    if |segments| == 0 then v else FoldGet(Step(v, segments[0]), segments[1..])
  }

  /** `get(obj, path)`. */
  function Get(o: JsValue, path: string): JsValue {
    FoldGet(o, Split(path, '.'))
  }

  /** Following the segments of `a + b` is following those of `a`, then those of `b`. */
  lemma {:induction false} FoldGetAppend(v: JsValue, a: seq<string>, b: seq<string>)
    ensures FoldGet(v, a + b) == FoldGet(FoldGet(v, a), b)
    decreases |a|
  {
    if |a| == 0 {
      assert a + b == b;
    } else {
      assert (a + b)[1..] == a[1..] + b;
      FoldGetAppend(Step(v, a[0]), a[1..], b);
    }
  }

  /** Once the lookup has met a falsy value, every further segment yields `undefined`. */
  lemma {:induction false} FalsyStaysUndefined(v: JsValue, segments: seq<string>)
    requires !Truthy(v) && |segments| > 0
    ensures FoldGet(v, segments) == Undefined
    decreases |segments|
  {
    if |segments| > 1 {
      FalsyStaysUndefined(Step(v, segments[0]), segments[1..]);
    }
  }

  /** A path is looked up as its first part, then the rest, from whatever the first part gave. */
  lemma GetDotted(o: JsValue, p: string, q: string)
    ensures Get(o, p + "." + q) == Get(Get(o, p), q)
  {
    assert p + "." + q == p + ['.'] + q;
    SplitAround(p, q, '.');
    FoldGetAppend(o, Split(p, '.'), Split(q, '.'));
  }

  /** A missing prefix makes the whole path `undefined`. */
  lemma MissingPrefix(o: JsValue, p: string, q: string)
    requires Get(o, p) == Undefined
    ensures Get(o, p + "." + q) == Undefined
  {
    GetDotted(o, p, q);
    FalsyStaysUndefined(Undefined, Split(q, '.'));
  }

  /** A path without a dot is a direct property read. */
  lemma SingleSegment(o: JsValue, key: string)
    requires '.' !in key
    ensures Get(o, key) == (if Truthy(o) then Prop(o, key) else Undefined)
  {
    var segments := Split(key, '.');
    assert |segments| == 1;
    assert segments == [segments[0]];
    JoinSplit(key, '.');
    assert Join(segments, '.') == segments[0];
    assert FoldGet(o, segments) == FoldGet(Step(o, key), []);
  }

  /** `t(key)`: the looked-up value unless it is `null` or `undefined`, then the key itself. */
  function T(dict: JsValue, key: string): (r: JsValue)
    ensures !Nullish(r)
    ensures Nullish(Get(dict, key)) ==> r == Str(key)
    ensures !Nullish(Get(dict, key)) ==> r == Get(dict, key)
  {
    Coalesce(Get(dict, key), Str(key))
  }

  /** `translations[lang] || translations.es`. */
  function Dict(translations: JsValue, lang: string): (d: JsValue)
    ensures Truthy(Prop(translations, lang)) ==> d == Prop(translations, lang)
    ensures !Truthy(Prop(translations, lang)) ==> d == Prop(translations, "es")
  {
    Or(Prop(translations, lang), Prop(translations, "es"))
  }

  /** An unknown language reads its keys from the Spanish dictionary. */
  lemma UnknownLanguageFallsBack(translations: JsValue, lang: string, key: string)
    requires translations.Obj? && lang !in translations.props
    ensures T(Dict(translations, lang), key) == T(Prop(translations, "es"), key)
  {
  }

  /** The language stored in the browser, or Spanish when none (or an empty one) is stored. */
  function InitialLang(stored: Option<string>): (lang: string)
    ensures lang != ""
    ensures stored.Some? && stored.value != "" ==> lang == stored.value
    ensures stored == None || stored == Some("") ==> lang == "es"
  {
    if stored.Some? && stored.value != "" then stored.value else "es"
  }
}
