/**
 * Provenance helpers of the datasheet builder: normalising a JSON-LD property to a list of
 * references, reading the identifier out of a reference, recognising dataset entities by their
 * `@type`, and counting a crate's input datasets by format and sub-crate.
 */
module Provenance {
  import opened Wrappers
  import opened Dict
  import opened Json

  // ---------------------------------------------------------------------------------------
  // _normalize_to_list and _extract_id
  // ---------------------------------------------------------------------------------------

  /** `_normalize_to_list`: a falsy value gives no references, a list is kept, anything else is wrapped. */
  function NormalizeToList(value: Json): (r: seq<Json>)
    ensures r == [] <==> !Truthy(value)
    ensures value.JArr? ==> r == value.items
  {
    if !Truthy(value) then []
    else if value.JArr? then value.items
    else [value]
  }

  /** Normalising an already normalised list changes nothing. */
  lemma NormalizeIdempotent(value: Json)
    ensures NormalizeToList(JArr(NormalizeToList(value))) == NormalizeToList(value)
  {
  }

  /** A single reference is wrapped: it gives the same references as the one-element list of it. */
  lemma NormalizeSingleton(value: Json)
    requires Truthy(value) && !value.JArr?
    ensures NormalizeToList(value) == NormalizeToList(JArr([value])) == [value]
  {
  }

  /** `_extract_id`: the `@id` of a dict that has one, a string as itself, and nothing otherwise. */
  function ExtractId(ref: Json): (r: Option<Json>)
    ensures r.Some? <==> (ref.JObj? && "@id" in Keys(ref.fields)) || ref.JStr?
  {
    match ref
    case JObj(fields) => Get(fields, "@id")
    case JStr(_) => Some(ref)
    case _ => None
  }

  /** The two spellings of a reference, `{"@id": id}` and the bare string, name the same entity. */
  lemma ReferenceFormsAgree(id: string)
    ensures ExtractId(Ref(id)) == ExtractId(JStr(id)) == Some(JStr(id))
  {
    assert Keys(Ref(id).fields) == ["@id"];
  }

  /** A dict gives back the `@id` written into it, whatever its other keys. */
  lemma IdOfDict(fields: Dict<Json>, id: Json)
    ensures ExtractId(JObj(Put(fields, "@id", id))) == Some(id)
  {
    PutGet(fields, "@id", id, "@id");
  }

  // ---------------------------------------------------------------------------------------
  // _is_dataset
  // ---------------------------------------------------------------------------------------

  /** The `@type` values that mark a dataset, in the order `any` tries them. */
  const DatasetTypes: seq<string> := ["Dataset", "EVI:Dataset", "https://w3id.org/EVI#Dataset"]

  /** The `TypeError` of `dt in item_type` when the `@type` is neither a list, a dict nor a string. */
  datatype TypeError = NotIterable(value: Json)

  /** `any(dt in items for dt in types)` for a list: list membership compares values. */
  function AnyListed(types: seq<string>, items: seq<Json>): (r: bool)
    ensures r <==> exists i :: 0 <= i < |types| && JStr(types[i]) in items
  {
    if types == [] then false
    else JStr(types[0]) in items || AnyListed(types[1..], items)
  }

  /** `any(dt in d for dt in types)` for a dict: dict membership tests the keys. */
  function AnyKey(types: seq<string>, keys: seq<string>): (r: bool)
    ensures r <==> exists i :: 0 <= i < |types| && types[i] in keys
  {
    if types == [] then false
    else types[0] in keys || AnyKey(types[1..], keys)
  }

  /** A string, list or dict: the values `in` accepts once a string is lifted to a list. */
  predicate IsContainer(v: Json)
  {
    v.JStr? || v.JArr? || v.JObj?
  }

  /**
   * `_is_dataset`: the `@type` (an empty list when absent), lifted to a one-element list when it
   * is a string, holds one of the three dataset types; a `@type` that is `null`, a boolean or a
   * number makes the first membership test raise.
   */
  function IsDataset(item: Dict<Json>): (r: Result<bool, TypeError>)
    ensures Get(item, "@type").None? ==> r == Ok(false)
    ensures forall t :: Get(item, "@type") == Some(JStr(t)) ==> r == Ok(t in DatasetTypes)
    ensures forall xs :: Get(item, "@type") == Some(JArr(xs)) ==>
      r == Ok(exists x: Json :: x in xs && x.JStr? && x.s in DatasetTypes)
    ensures forall f :: Get(item, "@type") == Some(JObj(f)) ==>
      r == Ok(exists k :: k in Keys(f) && k in DatasetTypes)
    ensures r.Failure? <==> Get(item, "@type").Some? && !IsContainer(Get(item, "@type").value)
  {
    var itemType := match Get(item, "@type") case Some(v) => v case None => JArr([]);
    var lifted := if itemType.JStr? then JArr([itemType]) else itemType;
    match lifted
    case JArr(items) => Ok(AnyListed(DatasetTypes, items))
    case JObj(fields) => Ok(AnyKey(DatasetTypes, Keys(fields)))
    case _ => Failure(NotIterable(lifted))
  }

  /** With the same `@type` string, written bare or as a one-element list, the answer is the same. */
  lemma IsDatasetLiftsStrings(item: Dict<Json>, listed: Dict<Json>, t: string)
    requires Get(item, "@type") == Some(JStr(t)) && Get(listed, "@type") == Some(JArr([JStr(t)]))
    ensures IsDataset(item) == IsDataset(listed)
  {
    assert JStr(t) in [JStr(t)];
  }

  // ---------------------------------------------------------------------------------------
  // aggregate_input_datasets
  // ---------------------------------------------------------------------------------------

  /** An input dataset record: its `format` and the name of its `subcrate` ("" for an internal one). */
  datatype InputDataset = InputDataset(id: string, format: string, subcrate: string)

  /** The counting key: `"<subcrate>, <format>"` when the sub-crate name is non-empty, else the format. */
  function AggregationKey(d: InputDataset): string
  {
    if d.subcrate != [] then d.subcrate + ", " + d.format else d.format
  }

  /** `aggregated.get(key, 0)`. */
  function CountOf(d: Dict<int>, key: string): int
  {
    match Get(d, key) case Some(n) => n case None => 0
  }

  /** `aggregated[key] = aggregated.get(key, 0) + 1`. */
  function Count(acc: Dict<int>, key: string): Dict<int>
  {
    Put(acc, key, CountOf(acc, key) + 1)
  }

  /** The dict of counts after the loop has seen `inputs`, in order. */
  function Aggregate(inputs: seq<InputDataset>): Dict<int>
  {
    if inputs == [] then [] else Count(Aggregate(inputs[..|inputs| - 1]), AggregationKey(inputs[|inputs| - 1]))
  }

  /** `aggregate_input_datasets`: one pass over the external inputs followed by the internal ones. */
  method AggregateInputDatasets(externalDatasets: seq<InputDataset>, internalInputs: seq<InputDataset>)
    returns (aggregated: Dict<int>)
    ensures aggregated == Aggregate(externalDatasets + internalInputs)
  {
    var allInputs := externalDatasets + internalInputs;
    aggregated := [];
    var i := 0;
    while i < |allInputs|
      invariant 0 <= i <= |allInputs|
      invariant aggregated == Aggregate(allInputs[..i])
    {
      var dataset := allInputs[i];
      var key := AggregationKey(dataset);
      assert allInputs[..i + 1][..i] == allInputs[..i];
      assert Aggregate(allInputs[..i + 1]) == Count(aggregated, key);
      aggregated := Put(aggregated, key, CountOf(aggregated, key) + 1);
      i := i + 1;
    }
    assert allInputs[..i] == allInputs;
  }

  /** How many of `inputs` have the key `key`. */
  function Occurrences(inputs: seq<InputDataset>, key: string): nat
  {
    if inputs == [] then 0
    else Occurrences(inputs[..|inputs| - 1], key) + (if AggregationKey(inputs[|inputs| - 1]) == key then 1 else 0)
  }

  /** Each key's count is the number of inputs with that key; keys with no input are absent. */
  lemma {:induction false} AggregateCounts(inputs: seq<InputDataset>, key: string)
    ensures Get(Aggregate(inputs), key) == if Occurrences(inputs, key) == 0 then None else Some(Occurrences(inputs, key))
  {
    if inputs != [] {
      var init := inputs[..|inputs| - 1];
      var last := inputs[|inputs| - 1];
      var acc := Aggregate(init);
      assert Aggregate(inputs) == Count(acc, AggregationKey(last));
      AggregateCounts(init, key);
      GetCount(acc, AggregationKey(last), key);
      if AggregationKey(last) == key {
        assert Occurrences(inputs, key) == Occurrences(init, key) + 1;
        assert CountOf(acc, key) == Occurrences(init, key);
      } else {
        assert Occurrences(inputs, key) == Occurrences(init, key);
      }
    }
  }

  /** Counting one dataset raises its key's count by one and leaves every other key's count alone. */
  lemma GetCount(acc: Dict<int>, k: string, key: string)
    ensures Get(Count(acc, k), key) == if k == key then Some(CountOf(acc, key) + 1) else Get(acc, key)
  {
    var v := CountOf(acc, k) + 1;
    assert Count(acc, k) == Put(acc, k, v);
    PutGet(acc, k, v, key);
  }

  /** No key is counted in two entries. */
  lemma {:induction false} AggregateUnique(inputs: seq<InputDataset>)
    ensures UniqueKeys(Aggregate(inputs))
  {
    if inputs != [] {
      var init := inputs[..|inputs| - 1];
      var acc := Aggregate(init);
      var k := AggregationKey(inputs[|inputs| - 1]);
      AggregateUnique(init);
      PutUnique(acc, k, CountOf(acc, k) + 1);
    }
  }

  /** The sum of the counts. */
  function Total(d: Dict<int>): int
  {
    if d == [] then 0 else d[0].1 + Total(d[1..])
  }

  /** Writing a key replaces its old count (0 when absent) in the total. */
  lemma {:induction false} TotalPut(d: Dict<int>, key: string, value: int)
    ensures Total(Put(d, key, value)) == Total(d) - CountOf(d, key) + value
  {
    if d != [] && d[0].0 != key {
      TotalPut(d[1..], key, value);
      assert Put(d, key, value)[1..] == Put(d[1..], key, value);
    }
  }

  /** Counting one more dataset adds one to the total. */
  lemma TotalCount(acc: Dict<int>, k: string)
    ensures Total(Count(acc, k)) == Total(acc) + 1
  {
    TotalPut(acc, k, CountOf(acc, k) + 1);
  }

  /** The counts add up to the number of inputs. */
  lemma {:induction false} AggregateTotal(inputs: seq<InputDataset>)
    ensures Total(Aggregate(inputs)) == |inputs|
  {
    if inputs != [] {
      var init := inputs[..|inputs| - 1];
      AggregateTotal(init);
      TotalCount(Aggregate(init), AggregationKey(inputs[|inputs| - 1]));
    }
  }
}
