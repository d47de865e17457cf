/**
 * Inverse-property entailment helpers (src/fairscape_cli/entailments/inverse.py): turning a
 * property URI into a JSON key, and adding an `{"@id": ...}` link to an entity's property
 * without creating duplicates.
 */
module Inverse {
  import opened Wrappers
  import opened Text
  import opened Dict
  import opened Json

  /** `EVI_NAMESPACE`, the default base namespace. */
  const EviNamespace: string := "https://w3id.org/EVI#"

  /** `key` is the longest suffix of `uri` that holds neither '/' nor '#'. */
  predicate IsLastSegment(uri: string, key: string)
  {
    && |key| <= |uri| && uri[|uri| - |key|..] == key
    && '/' !in key && '#' !in key
    && (|key| == |uri| || uri[|uri| - |key| - 1] == '/' || uri[|uri| - |key| - 1] == '#')
  }

  /** There is only one longest such suffix. */
  lemma LastSegmentUnique(uri: string, k1: string, k2: string)
    requires IsLastSegment(uri, k1) && IsLastSegment(uri, k2)
    ensures k1 == k2
  {
  }

  /**
   * `get_json_key_from_uri`: the rest of the URI after the base namespace when it starts with it,
   * and otherwise the last segment after '/' and then after '#'.
   */
  function GetJsonKeyFromUri(uri: string, base: string): (key: string)
    ensures StartsWith(uri, base) ==> uri == base + key
    ensures !StartsWith(uri, base) ==> IsLastSegment(uri, key)
  {
    if StartsWith(uri, base) then uri[|base|..]
    else
      LastSegmentOfSplits(uri);
      Last(Split(Last(Split(uri, '/')), '#'))
  }

  lemma LastSegmentOfSplits(uri: string)
    ensures IsLastSegment(uri, Last(Split(Last(Split(uri, '/')), '#')))
  {
    var a := Last(Split(uri, '/'));
    SplitLast(uri, '/');
    var b := Last(Split(a, '#'));
    SplitLast(a, '#');
    SegmentOfSegment(uri, a, b);
  }

  /** The part after the last '#' of the part after the last '/' is the last segment. */
  lemma SegmentOfSegment(uri: string, a: string, b: string)
    requires LastPart(uri, a, '/') && LastPart(a, b, '#')
    ensures IsLastSegment(uri, b)
  {
    SuffixOfSuffix(uri, a, b);
    assert '/' !in b by {
      forall k | 0 <= k < |b| ensures b[k] != '/' {
        assert b[k] == a[|a| - |b| + k];
      }
    }
  }

  lemma SuffixOfSuffix(s: string, a: string, b: string)
    requires |a| <= |s| && s[|s| - |a|..] == a
    requires |b| <= |a| && a[|a| - |b|..] == b
    ensures s[|s| - |b|..] == b
    ensures |b| < |a| ==> s[|s| - |b| - 1] == a[|a| - |b| - 1]
  {
    assert s[|s| - |b|..] == s[|s| - |a|..][|a| - |b|..];
  }

  /** The module's own example: `https://w3id.org/EVI#generatedBy` gives `generatedBy`. */
  lemma GeneratedByKey()
    ensures GetJsonKeyFromUri("https://w3id.org/EVI#generatedBy", EviNamespace) == "generatedBy"
  {
    assert StartsWith("https://w3id.org/EVI#generatedBy", EviNamespace);
  }

  /** A dict value that links to `id`: `isinstance(v, dict) and v.get("@id") == id`. */
  predicate LinksTo(v: Json, id: string)
  {
    v.JObj? && GetId(v.fields) == JStr(id)
  }

  /** `any(isinstance(item, dict) and item.get("@id") == id for item in items)`. */
  predicate AnyLinksTo(items: seq<Json>, id: string)
  {
    exists k :: 0 <= k < |items| && LinksTo(items[k], id)
  }

  /** The number of items linking to `id`. */
  function LinkCount(items: seq<Json>, id: string): (n: nat)
    ensures n <= |items|
    ensures n == 0 <==> !AnyLinksTo(items, id)
  {
    if items == [] then 0
    else
      (if LinksTo(items[0], id) then 1 else 0) + LinkCount(items[1..], id)
  }

  /** The value of `prop_key` after `add_or_update_json_link`, from the value before (`None` when absent). */
  function LinkedValue(current: Option<Json>, id: string): Json
  {
    match current
    case None => JArr([Ref(id)])
    case Some(JObj(fields)) =>
      if GetId(fields) == JStr(id) then JObj(fields) else JArr([JObj(fields), Ref(id)])
    case Some(JArr(items)) =>
      if AnyLinksTo(items, id) then JArr(items) else JArr(items + [Ref(id)])
    case Some(_) => JArr([Ref(id)])
  }

  /** The entity's properties after `add_or_update_json_link(entity, key, id)`. */
  function LinkAdded(props: Dict<Json>, key: string, id: string): Dict<Json>
  {
    Put(props, key, LinkedValue(Get(props, key), id))
  }

  lemma RefLinks(id: string)
    ensures LinksTo(Ref(id), id)
  {
    assert Get([("@id", JStr(id))], "@id") == Some(JStr(id));
  }

  /** Afterwards the property links to `id`, by itself or as an item of its list. */
  lemma LinkPresent(props: Dict<Json>, key: string, id: string)
    ensures Get(LinkAdded(props, key, id), key).Some?
    ensures var v := Get(LinkAdded(props, key, id), key).value;
      LinksTo(v, id) || (v.JArr? && AnyLinksTo(v.items, id))
  {
    var v := LinkedValue(Get(props, key), id);
    PutGet(props, key, v, key);
    assert Get(LinkAdded(props, key, id), key) == Some(v);
    RefLinks(id);
    var current: Option<Json> := Get(props, key);
    match current
    case None =>
      assert LinksTo(v.items[0], id);
    case Some(JObj(fields)) =>
      if GetId(fields) != JStr(id) {
        assert LinksTo(v.items[1], id);
      }
    case Some(JArr(items)) =>
      if !AnyLinksTo(items, id) {
        assert LinksTo(v.items[|items|], id);
      }
    case Some(_) =>
      assert LinksTo(v.items[0], id);
  }

  /** Every other property keeps its value. */
  lemma OtherKeysUnchanged(props: Dict<Json>, key: string, id: string, other: string)
    requires other != key
    ensures Get(LinkAdded(props, key, id), other) == Get(props, other)
  {
    PutGet(props, key, LinkedValue(Get(props, key), id), other);
  }

  /** Adding the same link twice is the same as adding it once. */
  lemma LinkIdempotent(props: Dict<Json>, key: string, id: string)
    ensures LinkAdded(LinkAdded(props, key, id), key, id) == LinkAdded(props, key, id)
  {
    var once := LinkAdded(props, key, id);
    var v := LinkedValue(Get(props, key), id);
    PutGet(props, key, v, key);
    LinkPresent(props, key, id);
    assert Get(once, key) == Some(v);
    assert LinkedValue(Some(v), id) == v;
    PutTwice(props, key, v);
  }

  lemma {:induction false} PutTwice<V>(d: Dict<V>, key: string, value: V)
    ensures Put(Put(d, key, value), key, value) == Put(d, key, value)
  {
    if d != [] && d[0].0 != key {
      PutTwice(d[1..], key, value);
    }
  }

  /**
   * No duplicates arise: unless the list already linked to `id` more than once, the property
   * afterwards is a dict linking to `id` or a list with exactly one item linking to it.
   */
  lemma NoDuplicateLinks(props: Dict<Json>, key: string, id: string)
    requires Get(props, key).Some? && Get(props, key).value.JArr? ==> LinkCount(Get(props, key).value.items, id) <= 1
    ensures var v := Get(LinkAdded(props, key, id), key).value;
      LinksTo(v, id) || (v.JArr? && LinkCount(v.items, id) == 1)
  {
    var v := LinkedValue(Get(props, key), id);
    PutGet(props, key, v, key);
    RefLinks(id);
    assert LinkCount([Ref(id)], id) == 1;
    var current: Option<Json> := Get(props, key);
    match current
    case None =>
    case Some(JObj(fields)) =>
      if GetId(fields) != JStr(id) {
        assert [JObj(fields), Ref(id)][1..] == [Ref(id)];
      }
    case Some(JArr(items)) =>
      if !AnyLinksTo(items, id) {
        LinkCountAppend(items, Ref(id), id);
      }
    case Some(_) =>
  }

  lemma {:induction false} LinkCountAppend(items: seq<Json>, item: Json, id: string)
    ensures LinkCount(items + [item], id) == LinkCount(items, id) + (if LinksTo(item, id) then 1 else 0)
  {
    if items != [] {
      LinkCountAppend(items[1..], item, id);
      assert (items + [item])[1..] == items[1..] + [item];
    }
  }

  /** A JSON-LD entity whose properties `add_or_update_json_link` updates in place. */
  class Entity {
    var properties: Dict<Json>

    constructor(properties: Dict<Json>)
      ensures this.properties == properties
    {
      this.properties := properties;
    }

    /** `add_or_update_json_link(entity, key, id)`. */
    method AddOrUpdateJsonLink(key: string, id: string)
      modifies this
      ensures properties == LinkAdded(old(properties), key, id)
    {
      var link := Ref(id);
      match Get(properties, key)
      case None =>
        properties := Put(properties, key, JArr([link]));
      case Some(current) =>
        if current.JObj? {
          if GetId(current.fields) == JStr(id) {
            PutSame(properties, key, current);
            return;
          }
          properties := Put(properties, key, JArr([current, link]));
        } else if current.JArr? {
          if !AnyLinksTo(current.items, id) {
            properties := Put(properties, key, JArr(current.items + [link]));
          } else {
            PutSame(properties, key, current);
          }
        } else {
          properties := Put(properties, key, JArr([link]));
        }
    }
  }

  /** Writing back the value a key already holds changes nothing. */
  lemma {:induction false} PutSame<V>(d: Dict<V>, key: string, value: V)
    requires Get(d, key) == Some(value)
    ensures Put(d, key, value) == d
  {
    if d[0].0 != key {
      PutSame(d[1..], key, value);
    }
  }
}
