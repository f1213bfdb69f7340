/**
 * The `Table` façade of website/dynamo.py: it resolves a key to a table or index
 * lookup, validates and extracts record keys, and forwards to the storage. The storage
 * here is the in-memory one (dynamo_memory.dfy).
 */
module DynamoTable {
  import opened Wrappers
  import opened Builtins
  import opened DynamoValues
  import opened DynamoConditions
  import opened DynamoUpdates
  import DynamoQuery
  import DynamoMemory
  import Text

  // ---------------------------------------------------------------------------
  // Indexes and table layout.

  datatype Index = Index(partitionKey: string, sortKey: Option<string>, indexName: string, keysOnly: bool)

  /**
   * `Index(partition_key, sort_key, index_name, keys_only)`: without a (non-empty) name
   * the index is called `{partition_key}-{sort_key}-index`, the sort key part only when
   * there is a non-empty sort key.
   */
  function NewIndex(partitionKey: string, sortKey: Option<string>, indexName: Option<string>, keysOnly: bool): (ix: Index)
    ensures ix.partitionKey == partitionKey && ix.sortKey == sortKey && ix.keysOnly == keysOnly
    ensures Given(indexName) ==> ix.indexName == indexName.value
    ensures !Given(indexName) ==> Text.StartsWith(ix.indexName, partitionKey) && Text.EndsWith(ix.indexName, "-index")
  {
    if Given(indexName) then Index(partitionKey, sortKey, indexName.value, keysOnly)
    else
      DefaultNameShape(partitionKey, sortKey);
      Index(partitionKey, sortKey, DefaultName(partitionKey, sortKey), keysOnly)
  }

  /** `f'{partition_key}-{sort_key}-index'`, the sort key part only when it is non-empty. */
  function DefaultName(partitionKey: string, sortKey: Option<string>): string {
    Text.Join("-", [partitionKey] + (if Given(sortKey) then [sortKey.value] else [])) + "-index"
  }

  lemma DefaultNameShape(partitionKey: string, sortKey: Option<string>)
    ensures Text.StartsWith(DefaultName(partitionKey, sortKey), partitionKey)
    ensures Text.EndsWith(DefaultName(partitionKey, sortKey), "-index")
  {
    var name := DefaultName(partitionKey, sortKey);
    assert Text.Join("-", [partitionKey]) == partitionKey;
    if Given(sortKey) {
      Text.JoinCons("-", partitionKey, [sortKey.value]);
    }
    assert name[..|partitionKey|] == partitionKey;
  }

  /** The default name of an index with a partition and a sort key. */
  lemma DefaultIndexName(pk: string, sk: string)
    requires sk != ""
    ensures NewIndex(pk, Some(sk), None, false).indexName == pk + "-" + sk + "-index"
  {
    Text.JoinCons("-", pk, [sk]);
  }

  /** The fields an index is keyed on (`[x for x in [pk, sk] if x is not None]`). */
  function IndexKeyNames(ix: Index): (s: set<string>)
    ensures ix.partitionKey in s
    ensures forall n :: n in s ==> n == ix.partitionKey || Some(n) == ix.sortKey
  {
    {ix.partitionKey} + (if ix.sortKey.Some? then {ix.sortKey.value} else {})
  }

  /** The table's name, key fields and indexes, as given to `Table(...)`. */
  datatype Schema = Schema(tableName: string, partitionKey: string, sortKey: Option<string>, indexes: seq<Index>)

  /** `self.key_names`: the partition key, then the sort key when it is non-empty. */
  function KeyNames(s: Schema): (names: seq<string>)
    ensures |names| >= 1 && names[0] == s.partitionKey
    ensures |names| == 2 <==> Given(s.sortKey)
    ensures |names| == 2 ==> names[1] == s.sortKey.value
  {
    [s.partitionKey] + (if Given(s.sortKey) then [s.sortKey.value] else [])
  }

  /** `_key_names()`: the partition key and the sort key when it is not `None`. */
  function KeyNameSet(s: Schema): (keys: set<string>)
    ensures forall n :: n in keys <==> n == s.partitionKey || Some(n) == s.sortKey
  {
    {s.partitionKey} + (if s.sortKey.Some? then {s.sortKey.value} else {})
  }

  // ---------------------------------------------------------------------------
  // `_determine_lookup`

  datatype Lookup =
    | TableLookup(tableName: string, key: Conditions)
    | IndexLookup(tableName: string, indexName: string, key: Conditions, sortKey: Option<string>, keysOnly: bool)

  predicate AllTruthy(keyData: Conditions) {
    forall i :: 0 <= i < |keyData| ==> KeyValueTruthy(keyData[i].1)
  }

  /** The field set of a key. */
  function KeySet(keyData: Conditions): (keys: set<string>)
    ensures forall n :: n in keys <==> n in Names(keyData)
  {
    DynamoQuery.NameSet(Names(keyData))
  }

  /**
   * An index serves a key when the key's fields are exactly the index's key fields, or
   * when the key has a single field and that field is the index's partition key.
   */
  predicate Serves(ix: Index, keyData: Conditions) {
    var keys := KeySet(keyData);
    keys == IndexKeyNames(ix) || (|keys| == 1 && Names(keyData)[0] == ix.partitionKey)
  }

  /** The first position whose flag is set. */
  function FirstTrue(flags: seq<bool>): (r: Option<nat>)
    ensures r.Some? ==> r.value < |flags| && flags[r.value]
    ensures r.Some? ==> forall j :: 0 <= j < r.value ==> !flags[j]
    ensures r.None? <==> forall j :: 0 <= j < |flags| ==> !flags[j]
  {
    if flags == [] then None
    else if flags[0] then Some(0)
    else
      match FirstTrue(flags[1..])
      case None => None
      case Some(i) => Some(i + 1)
  }

  /** The first declared index that serves the key. */
  function FirstServing(indexes: seq<Index>, keyData: Conditions): (r: Option<nat>)
    ensures r.Some? ==> r.value < |indexes| && Serves(indexes[r.value], keyData)
    ensures r.Some? ==> forall j :: 0 <= j < r.value ==> !Serves(indexes[j], keyData)
    ensures r.None? <==> forall j :: 0 <= j < |indexes| ==> !Serves(indexes[j], keyData)
  {
    FirstTrue(ServingFlags(indexes, keyData))
  }

  function ServingFlags(indexes: seq<Index>, keyData: Conditions): (flags: seq<bool>)
    ensures |flags| == |indexes|
    ensures forall j :: 0 <= j < |indexes| ==> flags[j] == Serves(indexes[j], keyData)
  {
    seq(|indexes|, j requires 0 <= j < |indexes| => Serves(indexes[j], keyData))
  }

  /**
   * `_determine_lookup(key_data, many)`. Every value must be truthy (ValueError); an
   * empty key has no first field (IndexError); a key on exactly the table's key fields
   * is a table lookup; otherwise the first index that serves the key is used; otherwise
   * only a lone table partition key is accepted, and only when `many` records are asked
   * for; anything else raises RuntimeError.
   */
  function DetermineLookup(s: Schema, keyData: Conditions, many: bool): (r: Result<Lookup, Error>)
    ensures !AllTruthy(keyData) ==> r == Failure(ValueError)
    ensures AllTruthy(keyData) && keyData == [] ==> r == Failure(IndexError)
    ensures AllTruthy(keyData) && keyData != [] && KeySet(keyData) == KeyNameSet(s) ==>
      r == Success(TableLookup(s.tableName, keyData))
    ensures r.Success? && r.value.TableLookup? ==>
      r.value == TableLookup(s.tableName, keyData) &&
      (KeySet(keyData) == KeyNameSet(s) || (many && KeySet(keyData) == {s.partitionKey}))
    ensures r.Success? && r.value.IndexLookup? ==>
      KeySet(keyData) != KeyNameSet(s) && FirstServing(s.indexes, keyData).Some? &&
      var ix := s.indexes[FirstServing(s.indexes, keyData).value];
      r.value == IndexLookup(s.tableName, ix.indexName, keyData, ix.sortKey, ix.keysOnly)
    ensures r.Failure? ==> r.error == ValueError || r.error == IndexError || r.error == RuntimeError
  {
    if !AllTruthy(keyData) then Failure(ValueError)
    else if keyData == [] then Failure(IndexError)
    else
      var keys := KeySet(keyData);
      var oneKey := Names(keyData)[0];
      if keys == KeyNameSet(s) then Success(TableLookup(s.tableName, keyData))
      else
        match FirstServing(s.indexes, keyData)
        case Some(i) =>
          var ix := s.indexes[i];
          Success(IndexLookup(s.tableName, ix.indexName, keyData, ix.sortKey, ix.keysOnly))
        case None =>
          if |keys| != 1 then Failure(RuntimeError)
          else if oneKey == s.partitionKey then
            if !many then Failure(RuntimeError)
            else
              OneFieldSet(keyData);
              Success(TableLookup(s.tableName, keyData))
          else Failure(RuntimeError)
  }

  /** A key whose field set has one element has that element as its first field. */
  lemma OneFieldSet(keyData: Conditions)
    requires keyData != []
    requires |KeySet(keyData)| == 1
    ensures KeySet(keyData) == {Names(keyData)[0]}
  {
    var keys := KeySet(keyData);
    var first := Names(keyData)[0];
    assert first in keys;
    var others := keys - {first};
    assert keys == others + {first};
    assert |others| == 0;
  }

  /** A lone partition key of a table with a sort key reads many records, but not a single one. */
  lemma PartitionKeyOnly(s: Schema, keyData: Conditions)
    requires AllTruthy(keyData) && keyData != []
    requires KeySet(keyData) == {s.partitionKey}
    requires s.sortKey.Some? && s.sortKey.value != s.partitionKey
    requires FirstServing(s.indexes, keyData).None?
    ensures DetermineLookup(s, keyData, true) == Success(TableLookup(s.tableName, keyData))
    ensures DetermineLookup(s, keyData, false) == Failure(RuntimeError)
  {
    assert s.sortKey.value in KeyNameSet(s);
    assert |KeySet(keyData)| == 1;
    assert Names(keyData)[0] in KeySet(keyData);
  }

  /** A key that neither the table nor any index serves, and is no lone partition key, raises RuntimeError. */
  lemma UnservedKey(s: Schema, keyData: Conditions, many: bool)
    requires AllTruthy(keyData) && keyData != []
    requires KeySet(keyData) != KeyNameSet(s)
    requires FirstServing(s.indexes, keyData).None?
    requires KeySet(keyData) != {s.partitionKey}
    ensures DetermineLookup(s, keyData, many) == Failure(RuntimeError)
  {
    if |KeySet(keyData)| == 1 {
      OneFieldSet(keyData);
    }
  }

  // ---------------------------------------------------------------------------
  // `_extract_key` and `_validate_key`

  /**
   * `_extract_key(data)`: the record's values for the table's key fields. A missing
   * partition key, or a missing non-empty sort key, raises RuntimeError; an empty sort key
   * is not checked but still read, and raises KeyError when missing.
   */
  function ExtractKey(s: Schema, data: Record): (r: Result<Record, Error>)
    ensures r.Success? <==> KeyNameSet(s) <= data.Keys
    ensures r.Success? ==> r.value.Keys == KeyNameSet(s) && forall k :: k in r.value ==> r.value[k] == data[k]
    ensures r.Failure? && s.partitionKey !in data ==> r.error == RuntimeError
    ensures r.Failure? && s.partitionKey in data && Given(s.sortKey) && s.sortKey.value !in data ==> r.error == RuntimeError
    ensures r.Failure? && s.partitionKey in data && !(Given(s.sortKey) && s.sortKey.value !in data) ==> r.error == KeyError
    ensures r.Failure? ==> r.error == RuntimeError || r.error == KeyError
  {
    if s.partitionKey !in data then Failure(RuntimeError)
    else if Given(s.sortKey) && s.sortKey.value !in data then Failure(RuntimeError)
    else if !(KeyNameSet(s) <= data.Keys) then Failure(KeyError)
    else Success(map k | k in KeyNameSet(s) :: data[k])
  }

  /** The key extracted from a record selects that record. */
  lemma ExtractKeyMatches(s: Schema, data: Record)
    requires ExtractKey(s, data).Success?
    ensures DynamoMemory.KeyMatches(data, ExtractKey(s, data).value)
  {
  }

  /** `_validate_key(key)`: the key's fields are exactly the table's key fields, and no value is falsy. */
  function ValidateKey(s: Schema, key: Record): (r: Result<(), Error>)
    ensures r.Success? <==> key.Keys == KeyNameSet(s) && forall k :: k in key ==> Truthy(key[k])
    ensures r.Failure? ==> r.error == RuntimeError
  {
    if key.Keys != KeyNameSet(s) then Failure(RuntimeError)
    else if exists k :: k in key && !Truthy(key[k]) then Failure(RuntimeError)
    else Success(())
  }

  // ---------------------------------------------------------------------------
  // `batch_get`

  /** `resp_dict.get(k)` on a dict given as its entries. */
  function DictGet<V>(d: seq<(string, V)>, k: string): (r: Option<V>)
    ensures r.Some? ==> (k, r.value) in d
    ensures r.None? <==> k !in Names(d)
  {
    if d == [] then None else if d[0].0 == k then Some(d[0].1) else DictGet(d[1..], k)
  }

  /** In a dict whose keys are distinct, each entry is found under its own key. */
  lemma {:induction false} DictGetDistinct<V>(d: seq<(string, V)>, i: nat)
    requires i < |d|
    requires forall a, b :: 0 <= a < b < |d| ==> d[a].0 != d[b].0
    ensures DictGet(d, d[i].0) == Some(d[i].1)
  {
    if i > 0 {
      assert d[0].0 != d[i].0;
      DictGetDistinct(d[1..], i - 1);
    }
  }

  /** `f'k{i}'`: the names under which `batch_get` passes a list of keys to the storage. */
  function ListKeyName(i: nat): string {
    "k" + Text.NatToString(i)
  }

  lemma ListKeyNamesDistinct(i: nat, j: nat)
    requires i != j
    ensures ListKeyName(i) != ListKeyName(j)
  {
    if ListKeyName(i) == ListKeyName(j) {
      assert ListKeyName(i)[1..] == Text.NatToString(i);
      assert ListKeyName(j)[1..] == Text.NatToString(j);
      Text.ParseIntOfString(i);
      Text.ParseIntOfString(j);
    }
  }

  /** `{f'k{i}': k for i, k in enumerate(keys)}` */
  function NameKeys(keys: seq<Conditions>): (d: seq<(string, Conditions)>)
    ensures |d| == |keys|
    ensures forall i :: 0 <= i < |keys| ==> d[i] == (ListKeyName(i), keys[i])
    ensures forall a, b :: 0 <= a < b < |d| ==> d[a].0 != d[b].0
  {
    var d := seq(|keys|, i requires 0 <= i < |keys| => (ListKeyName(i), keys[i]));
    forall a, b | 0 <= a < b < |d| ensures d[a].0 != d[b].0 {
      ListKeyNamesDistinct(a, b);
    }
    d
  }

  /** The storage's answer to a batch, read back by name, gives each key's lookup. */
  lemma BatchAnswers(records: seq<Record>, keys: seq<(string, Conditions)>, answers: seq<(string, Option<Record>)>)
    requires forall a, b :: 0 <= a < b < |keys| ==> keys[a].0 != keys[b].0
    requires DynamoMemory.GetItems(records, keys) == Success(answers)
    ensures forall i :: 0 <= i < |keys| ==> DictGet(answers, keys[i].0) == Some(DynamoQuery.GetItem(records, keys[i].1).value)
  {
    var lookups := DynamoMemory.Lookups(records, keys);
    forall i | 0 <= i < |keys| ensures DictGet(answers, keys[i].0) == Some(DynamoQuery.GetItem(records, keys[i].1).value) {
      assert answers[i] == (lookups[i].0, lookups[i].1.value);
      DictGetDistinct(answers, i);
    }
  }

  /** Each identifier paired with the record the storage answered for it. */
  function ByName(keys: seq<(string, Conditions)>, answers: seq<(string, Option<Record>)>): seq<(string, Option<Record>)> {
    seq(|keys|, i requires 0 <= i < |keys| => (keys[i].0, DictGet(answers, keys[i].0).GetOr(None)))
  }

  /** Some key resolves to a lookup on an index. */
  predicate HasIndexLookup(lookups: seq<Lookup>) {
    exists i :: 0 <= i < |lookups| && lookups[i].IndexLookup?
  }

  /**
   * `batch_get(keys)` with a dict of keys, on the stored records, once the keys are
   * resolved: a resolution error is raised, an index lookup raises RuntimeError, and the
   * rest is one storage batch.
   */
  function BatchGetDictOf(lookups: Result<seq<Lookup>, Error>, records: seq<Record>, keys: seq<(string, Conditions)>): Result<seq<(string, Option<Record>)>, Error> {
    var ls :- lookups;
    if HasIndexLookup(ls) then Failure(RuntimeError)
    else if keys == [] then Success([])
    else
      var answers :- DynamoMemory.GetItems(records, keys);
      Success(ByName(keys, answers))
  }

  /**
   * The resolution error comes first, then RuntimeError for any index lookup, then the
   * storage's error; otherwise each identifier maps to `get_item` of its key.
   */
  lemma BatchGetDictFacts(lookups: Result<seq<Lookup>, Error>, records: seq<Record>, keys: seq<(string, Conditions)>)
    requires forall a, b :: 0 <= a < b < |keys| ==> keys[a].0 != keys[b].0
    ensures lookups.Failure? ==> BatchGetDictOf(lookups, records, keys) == Failure(lookups.error)
    ensures lookups.Success? && HasIndexLookup(lookups.value) ==> BatchGetDictOf(lookups, records, keys) == Failure(RuntimeError)
    ensures lookups.Success? && !HasIndexLookup(lookups.value) && DynamoMemory.GetItems(records, keys).Failure? ==>
      BatchGetDictOf(lookups, records, keys) == Failure(DynamoMemory.GetItems(records, keys).error)
    ensures var r := BatchGetDictOf(lookups, records, keys);
      r.Success? ==> (|r.value| == |keys| &&
        forall i :: 0 <= i < |keys| ==> r.value[i].0 == keys[i].0 && Success(r.value[i].1) == DynamoQuery.GetItem(records, keys[i].1))
  {
    var r := BatchGetDictOf(lookups, records, keys);
    if r.Success? && keys != [] {
      var answers := DynamoMemory.GetItems(records, keys).value;
      BatchAnswers(records, keys, answers);
      assert r.value == ByName(keys, answers);
    }
  }

  /** Every lookup of a batch resolves, in order; the first error raised aborts the batch. */
  function Resolve(s: Schema, keysDict: seq<(string, Conditions)>): (r: Result<seq<Lookup>, Error>)
    ensures r.Success? ==> |r.value| == |keysDict|
    ensures r.Success? ==> forall i :: 0 <= i < |keysDict| ==> DetermineLookup(s, keysDict[i].1, false) == Success(r.value[i])
    ensures r.Failure? ==> exists i :: 0 <= i < |keysDict| && DetermineLookup(s, keysDict[i].1, false) == Failure(r.error)
  {
    if keysDict == [] then Success([])
    else
      var first :- DetermineLookup(s, keysDict[0].1, false);
      var rest :- Resolve(s, keysDict[1..]);
      assert forall i :: 1 <= i < |keysDict| ==> keysDict[i] == keysDict[1..][i - 1];
      Success([first] + rest)
  }

  /**
   * The page `get_many` reads from the stored records: a table lookup queries the table
   * with its sort key, an index lookup queries the index. The pagination key is the
   * decoded one, empty for none.
   */
  function ManyPage(s: Schema, stored: seq<Record>, key: Conditions, reverse: bool, limit: Option<int>,
                    token: DynamoQuery.PageKey, filter: Conditions): (r: Result<DynamoQuery.Page, Error>)
  {
    var lookup :- DetermineLookup(s, key, true);
    match lookup
    case TableLookup(_, k) => DynamoQuery.Query(stored, k, s.sortKey, reverse, limit, token, filter)
    case IndexLookup(_, _, k, sortKey, keysOnly) =>
      DynamoQuery.QueryIndex(stored, k, sortKey, reverse, limit, token, keysOnly, KeyNames(s), filter)
  }

  /** Without a limit, `get_many` reads everything in one page. */
  lemma ManyPageUnlimited(s: Schema, stored: seq<Record>, key: Conditions, reverse: bool, filter: Conditions)
    requires ManyPage(s, stored, key, reverse, None, [], filter).Success?
    ensures ManyPage(s, stored, key, reverse, None, [], filter).value.next.None?
  {
    var l := DetermineLookup(s, key, true).value;
    if l.TableLookup? {
      DynamoQuery.QueryLimit(stored, key, s.sortKey, reverse, None, [], filter);
    } else if l.keysOnly {
      DynamoQuery.QueryIndexKeysOnly(stored, key, l.sortKey, reverse, None, [], KeyNames(s), filter);
      DynamoQuery.QueryLimit(stored, key, l.sortKey, reverse, None, [], filter);
    } else {
      DynamoQuery.QueryIndexAllAttributes(stored, key, l.sortKey, reverse, None, [], KeyNames(s), filter);
      DynamoQuery.QueryLimit(stored, key, l.sortKey, reverse, None, [], filter);
    }
  }

  // ---------------------------------------------------------------------------
  // What `del_many` relies on.

  /**
   * An extracted key as query conditions, each key field equal to its value. The source
   * builds the key from a set, in no particular order; here the partition key comes first.
   */
  function KeyConditions(s: Schema, key: Record): (c: Conditions)
    requires key.Keys == KeyNameSet(s)
    ensures forall e :: e in c <==> e.0 in key && e.1 == Eq(key[e.0])
  {
    var pk := s.partitionKey;
    if s.sortKey.Some? && s.sortKey.value != pk then [(pk, Eq(key[pk])), (s.sortKey.value, Eq(key[s.sortKey.value]))]
    else [(pk, Eq(key[pk]))]
  }

  /** Every table but `name` is as it was. */
  ghost predicate SameElsewhere(before: map<string, seq<Record>>, after: map<string, seq<Record>>, name: string) {
    (forall n :: n != name ==> (n in after <==> n in before)) &&
    (forall n :: n != name && n in after ==> after[n] == before[n])
  }

  /** Some stored record carries the key fields of `x`, with the same values. */
  predicate Represented(s: Schema, x: Record, stored: seq<Record>) {
    ExtractKey(s, x).Success? ==> exists y :: y in stored && DynamoMemory.KeyMatches(y, ExtractKey(s, x).value)
  }

  /** The first record of a page `get_many` returns is, or is cut down from, a stored record. */
  lemma PageRepresented(s: Schema, stored: seq<Record>, key: Conditions, page: DynamoQuery.Page)
    requires page.records != []
    requires DetermineLookup(s, key, true).Success?
    requires DetermineLookup(s, key, true).value.TableLookup? ==>
      DynamoQuery.Query(stored, key, s.sortKey, false, None, [], []) == Success(page)
    requires DetermineLookup(s, key, true).value.IndexLookup? ==>
      var l := DetermineLookup(s, key, true).value;
      DynamoQuery.QueryIndex(stored, key, l.sortKey, false, None, [], l.keysOnly, KeyNames(s), []) == Success(page)
    ensures Represented(s, page.records[0], stored)
  {
    var x := page.records[0];
    var l := DetermineLookup(s, key, true).value;
    if ExtractKey(s, x).Success? {
      var k := ExtractKey(s, x).value;
      if l.TableLookup? {
        DynamoQuery.QueryRecordsMatch(stored, key, s.sortKey, false, None, [], [], x);
        ExtractKeyMatches(s, x);
      } else if !l.keysOnly {
        DynamoQuery.QueryIndexAllAttributes(stored, key, l.sortKey, false, None, [], KeyNames(s), []);
        DynamoQuery.QueryRecordsMatch(stored, key, l.sortKey, false, None, [], [], x);
        ExtractKeyMatches(s, x);
      } else {
        DynamoQuery.QueryIndexKeysOnly(stored, key, l.sortKey, false, None, [], KeyNames(s), []);
        var q := DynamoQuery.Query(stored, key, l.sortKey, false, None, [], []).value;
        var y := q.records[0];
        DynamoQuery.QueryRecordsMatch(stored, key, l.sortKey, false, None, [], [], y);
        assert DynamoMemory.KeyMatches(y, k);
      }
    }
  }

  /** Deleting never adds a record. */
  lemma DeleteShrinks(records: seq<Record>, key: Record)
    ensures multiset(DynamoMemory.DeleteRecords(records, key).0) <= multiset(records)
  {
    if DynamoMemory.DeleteRecords(records, key).1.Some? {
      DynamoMemory.DeleteMultiset(records, key);
    }
  }

  /** Deleting by a key that some stored record carries removes one record. */
  lemma DeleteFindsPresent(records: seq<Record>, key: Record)
    requires exists y :: y in records && DynamoMemory.KeyMatches(y, key)
    ensures |DynamoMemory.DeleteRecords(records, key).0| == |records| - 1
  {
    var y :| y in records && DynamoMemory.KeyMatches(y, key);
    var i :| 0 <= i < |records| && records[i] == y;
  }

  /**
   * No two stored records carry the same key. `put` overwrites the record that carries
   * the key it is given, so records stored through `create` keep this
   * (PutKeepsUniqueKeys).
   */
  predicate UniqueKeys(s: Schema, stored: seq<Record>) {
    forall i, j :: 0 <= i < |stored| && 0 <= j < |stored| && i != j && ExtractKey(s, stored[i]).Success? ==>
      !DynamoMemory.KeyMatches(stored[j], ExtractKey(s, stored[i]).value)
  }

  /** A record that carries the full key of another has the same extracted key. */
  lemma SameKey(s: Schema, x: Record, y: Record)
    requires ExtractKey(s, y).Success?
    ensures DynamoMemory.KeyMatches(y, ExtractKey(s, y).value)
    ensures DynamoMemory.KeyMatches(x, ExtractKey(s, y).value) ==>
      ExtractKey(s, x) == ExtractKey(s, y) && DynamoMemory.KeyMatches(x, ExtractKey(s, x).value)
  {
    if DynamoMemory.KeyMatches(x, ExtractKey(s, y).value) {
      KeyOfMatch(s, x, ExtractKey(s, y).value);
    }
  }

  /** `create` stores a record under its own key and so keeps the keys unique. */
  lemma PutKeepsUniqueKeys(s: Schema, stored: seq<Record>, data: Record)
    requires UniqueKeys(s, stored) && ExtractKey(s, data).Success?
    ensures UniqueKeys(s, DynamoMemory.PutRecords(stored, ExtractKey(s, data).value, data))
  {
    var k := ExtractKey(s, data).value;
    var after := DynamoMemory.PutRecords(stored, k, data);
    ExtractKeyMatches(s, data);
    var m := DynamoMemory.FirstMatch(stored, k);
    if m.Some? {
      KeyOfMatch(s, stored[m.value], k);
    }
    forall i, j | 0 <= i < |after| && 0 <= j < |after| && i != j && ExtractKey(s, after[i]).Success?
      ensures !DynamoMemory.KeyMatches(after[j], ExtractKey(s, after[i]).value)
    {
      SameKey(s, after[j], after[i]);
      if i < |stored| && Some(i) != m {
        assert after[i] == stored[i];
      }
      if j < |stored| && Some(j) != m {
        assert after[j] == stored[j];
      }
    }
  }

  /** The key of `x` can be extracted, and no stored record carries it. */
  predicate KeyGone(s: Schema, x: Record, stored: seq<Record>) {
    ExtractKey(s, x).Success? && forall y :: y in stored ==> !DynamoMemory.KeyMatches(y, ExtractKey(s, x).value)
  }

  /** No stored record satisfies the key conditions. */
  predicate NoneSelected(key: Conditions, stored: seq<Record>) {
    forall y :: y in stored ==> QueryMatches(y, Partition(key).0, Partition(key).1) != Success(true)
  }

  /** A record that carries a full key has that key as its extracted key. */
  lemma KeyOfMatch(s: Schema, y: Record, key: Record)
    requires key.Keys == KeyNameSet(s) && DynamoMemory.KeyMatches(y, key)
    ensures ExtractKey(s, y) == Success(key)
  {
    forall k | k in key ensures k in y && y[k] == key[k] {
      assert Get(y, k) == Some(key[k]);
    }
    var e := ExtractKey(s, y).value;
    assert e.Keys == key.Keys;
    assert forall k :: k in e ==> e[k] == key[k];
    assert e == key;
  }

  /**
   * With unique keys, deleting by a full key removes the one record that carries it:
   * afterwards no record carries it, and the keys stay unique.
   */
  lemma DeleteUnique(s: Schema, stored: seq<Record>, key: Record)
    requires UniqueKeys(s, stored) && key.Keys == KeyNameSet(s)
    ensures UniqueKeys(s, DynamoMemory.DeleteRecords(stored, key).0)
    ensures forall y :: y in DynamoMemory.DeleteRecords(stored, key).0 ==> !DynamoMemory.KeyMatches(y, key)
  {
    var after := DynamoMemory.DeleteRecords(stored, key).0;
    match DynamoMemory.FirstMatch(stored, key)
    case None =>
      forall y | y in after ensures !DynamoMemory.KeyMatches(y, key) {
        var m :| 0 <= m < |stored| && stored[m] == y;
      }
    case Some(i) =>
      assert after == stored[..i] + stored[i + 1..];
      RemoveAt(stored, i, after);
      KeyOfMatch(s, stored[i], key);
      forall y | y in after ensures !DynamoMemory.KeyMatches(y, key) {
        var m :| 0 <= m < |after| && after[m] == y;
        assert stored[if m < i then m else m + 1] == y;
      }
      forall a, b | 0 <= a < |after| && 0 <= b < |after| && a != b && ExtractKey(s, after[a]).Success?
        ensures !DynamoMemory.KeyMatches(after[b], ExtractKey(s, after[a]).value)
      {
        var a', b' := if a < i then a else a + 1, if b < i then b else b + 1;
        assert after[a] == stored[a'] && after[b] == stored[b'] && a' != b';
      }
  }

  /** Element `m` of a sequence with element `i` removed is element `m` or `m + 1` of the sequence. */
  lemma RemoveAt<T>(xs: seq<T>, i: nat, ys: seq<T>)
    requires i < |xs| && ys == xs[..i] + xs[i + 1..]
    ensures |ys| == |xs| - 1
    ensures forall m :: 0 <= m < |ys| ==> ys[m] == xs[if m < i then m else m + 1]
  {
  }

  /** A key that is gone stays gone while records are only removed. */
  lemma GoneStays(s: Schema, x: Record, before: seq<Record>, after: seq<Record>)
    requires multiset(after) <= multiset(before) && KeyGone(s, x, before)
    ensures KeyGone(s, x, after)
  {
    forall y | y in after ensures y in before {
      assert y in multiset(after);
    }
  }

  /** The same for the conditions of a query. */
  lemma NoneSelectedStays(key: Conditions, before: seq<Record>, after: seq<Record>)
    requires multiset(after) <= multiset(before) && NoneSelected(key, before)
    ensures NoneSelected(key, after)
  {
    forall y | y in after ensures y in before {
      assert y in multiset(after);
    }
  }

  /**
   * The records left after deleting, one after the other, by the key extracted from
   * each of `items`; None when some key cannot be extracted.
   */
  function DeletedKeys(s: Schema, stored: seq<Record>, items: seq<Record>): Option<seq<Record>>
    decreases |items|
  {
    if items == [] then Some(stored)
    else
      match DeletedKeys(s, stored, items[..|items| - 1])
      case None => None
      case Some(rest) =>
        match ExtractKey(s, items[|items| - 1])
        case Failure(_) => None
        case Success(k) => Some(DynamoMemory.DeleteRecords(rest, k).0)
  }

  /** One more deletion after the first `j`. */
  lemma DeletedKeysStep(s: Schema, stored: seq<Record>, items: seq<Record>, j: nat, current: seq<Record>)
    requires j < |items| && DeletedKeys(s, stored, items[..j]) == Some(current)
    ensures DeletedKeys(s, stored, items[..j + 1]) ==
      match ExtractKey(s, items[j])
      case Failure(_) => None
      case Success(k) => Some(DynamoMemory.DeleteRecords(current, k).0)
  {
    var prefix := items[..j + 1];
    assert prefix[..|prefix| - 1] == items[..j] && prefix[|prefix| - 1] == items[j];
  }

  /**
   * Deleting by keys never adds a record, and when the first key is carried by a
   * stored record, it removes at least one.
   */
  lemma {:induction false} DeletedKeysShrinks(s: Schema, stored: seq<Record>, items: seq<Record>)
    requires DeletedKeys(s, stored, items).Some?
    ensures multiset(DeletedKeys(s, stored, items).value) <= multiset(stored)
    ensures items != [] && Represented(s, items[0], stored) ==> |DeletedKeys(s, stored, items).value| < |stored|
    decreases |items|
  {
    if items != [] {
      var n := |items| - 1;
      var init := items[..n];
      DeletedKeysShrinks(s, stored, init);
      var before := DeletedKeys(s, stored, init).value;
      var k := ExtractKey(s, items[n]).value;
      DeleteShrinks(before, k);
      if n == 0 {
        assert init == [] && before == stored;
        if Represented(s, items[0], stored) {
          DeleteFindsPresent(stored, k);
        }
      } else {
        assert init[0] == items[0];
      }
    }
  }

  /**
   * With unique keys, deleting by the keys of `items` removes the record carrying each
   * of them: afterwards no record carries any of those keys, and the keys stay unique.
   */
  lemma {:induction false} DeletedKeysGone(s: Schema, stored: seq<Record>, items: seq<Record>)
    requires UniqueKeys(s, stored) && DeletedKeys(s, stored, items).Some?
    ensures UniqueKeys(s, DeletedKeys(s, stored, items).value)
    ensures forall t :: 0 <= t < |items| ==> KeyGone(s, items[t], DeletedKeys(s, stored, items).value)
    decreases |items|
  {
    if items != [] {
      var n := |items| - 1;
      var init := items[..n];
      DeletedKeysGone(s, stored, init);
      var before := DeletedKeys(s, stored, init).value;
      var k := ExtractKey(s, items[n]).value;
      var after := DynamoMemory.DeleteRecords(before, k).0;
      assert DeletedKeys(s, stored, items) == Some(after);
      DeleteUnique(s, before, k);
      DeleteShrinks(before, k);
      assert KeyGone(s, items[n], after) by {
        assert ExtractKey(s, items[n]) == Success(k);
      }
      forall t | 0 <= t < |items| ensures KeyGone(s, items[t], after) {
        if t < n {
          assert init[t] == items[t];
          assert KeyGone(s, init[t], before);
          GoneStays(s, items[t], before, after);
        } else {
          assert t == n;
        }
      }
    }
  }

  /**
   * For every stored record that satisfies the key, the unlimited `get_many` page holds
   * a record with the same extracted key: the record itself, or its keys-only projection.
   */
  lemma UnlimitedPageCovers(s: Schema, stored: seq<Record>, key: Conditions, page: DynamoQuery.Page, y: Record)
    requires ManyPage(s, stored, key, false, None, [], []) == Success(page)
    requires y in stored && QueryMatches(y, Partition(key).0, Partition(key).1) == Success(true)
    ensures exists x :: x in page.records && (ExtractKey(s, x).Success? ==> ExtractKey(s, x) == ExtractKey(s, y))
  {
    var l := DetermineLookup(s, key, true).value;
    if l.TableLookup? {
      DynamoQuery.QueryUnlimitedComplete(stored, key, s.sortKey, false, y);
    } else if !l.keysOnly {
      DynamoQuery.QueryIndexAllAttributes(stored, key, l.sortKey, false, None, [], KeyNames(s), []);
      DynamoQuery.QueryUnlimitedComplete(stored, key, l.sortKey, false, y);
    } else {
      KeysOnlyCovers(s, stored, key, l.sortKey, page, y);
    }
  }

  /** On a keys-only index the page holds the projection of the record, which keeps its key fields. */
  lemma KeysOnlyCovers(s: Schema, stored: seq<Record>, key: Conditions, sortKey: Option<string>, page: DynamoQuery.Page, y: Record)
    requires DynamoQuery.QueryIndex(stored, key, sortKey, false, None, [], true, KeyNames(s), []) == Success(page)
    requires y in stored && QueryMatches(y, Partition(key).0, Partition(key).1) == Success(true)
    ensures exists x :: x in page.records && (ExtractKey(s, x).Success? ==> ExtractKey(s, x) == ExtractKey(s, y))
  {
    DynamoQuery.QueryIndexKeysOnly(stored, key, sortKey, false, None, [], KeyNames(s), []);
    var q := DynamoQuery.Query(stored, key, sortKey, false, None, [], []).value;
    DynamoQuery.QueryUnlimitedComplete(stored, key, sortKey, false, y);
    var i :| 0 <= i < |q.records| && q.records[i] == y;
    var x := page.records[i];
    if ExtractKey(s, x).Success? {
      ProjectionKey(s, x, y);
    }
    assert x in page.records;
  }

  /** A record cut down to fields that include the key fields has the same extracted key. */
  lemma ProjectionKey(s: Schema, x: Record, y: Record)
    requires ExtractKey(s, x).Success?
    requires forall f :: f in x ==> f in y && x[f] == y[f]
    ensures ExtractKey(s, x) == ExtractKey(s, y)
  {
    var kx := ExtractKey(s, x).value;
    var ky := ExtractKey(s, y).value;
    assert kx.Keys == ky.Keys;
    assert forall k :: k in kx ==> kx[k] == ky[k];
    assert kx == ky;
  }

  /**
   * The first round of `del_many`: once every record of the unlimited page has had its key
   * deleted, no remaining record satisfies the key.
   */
  lemma FirstRoundClears(s: Schema, before: seq<Record>, after: seq<Record>, key: Conditions, page: DynamoQuery.Page)
    requires ManyPage(s, before, key, false, None, [], []) == Success(page)
    requires forall t :: 0 <= t < |page.records| ==> KeyGone(s, page.records[t], after)
    requires multiset(after) <= multiset(before)
    ensures NoneSelected(key, after)
  {
    forall y | y in after ensures QueryMatches(y, Partition(key).0, Partition(key).1) != Success(true) {
      assert y in multiset(after);
      if QueryMatches(y, Partition(key).0, Partition(key).1) == Success(true) {
        UnlimitedPageCovers(s, before, key, page, y);
        ExtractKeyMatches(s, y);
      }
    }
  }

  // ---------------------------------------------------------------------------
  // The façade.

  class Table {
    const schema: Schema
    const storage: DynamoMemory.MemoryStorage

    /** `Table(storage, table_name, partition_key, sort_key, indexes)` */
    constructor(storage: DynamoMemory.MemoryStorage, tableName: string, partitionKey: string,
                sortKey: Option<string>, indexes: seq<Index>)
      ensures this.storage == storage
      ensures schema == Schema(tableName, partitionKey, sortKey, indexes)
    {
      this.storage := storage;
      schema := Schema(tableName, partitionKey, sortKey, indexes);
    }

    function Stored(): seq<Record>
      reads storage
    {
      storage.Records(schema.tableName)
    }

    /**
     * `get(key)`: a table lookup reads the first record the key selects; an index lookup
     * reads the first record of a one-record query on the index.
     */
    method Get(key: Conditions) returns (r: Result<Option<Record>, Error>)
      ensures DetermineLookup(schema, key, false).Failure? ==> r == Failure(DetermineLookup(schema, key, false).error)
      ensures DetermineLookup(schema, key, false).Success? && DetermineLookup(schema, key, false).value.TableLookup? ==>
        r == DynamoQuery.GetItem(Stored(), key)
      ensures DetermineLookup(schema, key, false).Success? && DetermineLookup(schema, key, false).value.IndexLookup? ==>
        var l := DetermineLookup(schema, key, false).value;
        var q := DynamoQuery.QueryIndex(Stored(), key, l.sortKey, false, Some(1), [], l.keysOnly, KeyNames(schema), []);
        (q.Failure? ==> r == Failure(q.error)) &&
        (q.Success? ==> r == Success(DynamoQuery.FirstOrNone(q.value.records)))
    {
      var lookup := DetermineLookup(schema, key, false);
      if lookup.Failure? {
        return Failure(lookup.error);
      }
      match lookup.value
      case TableLookup(name, k) =>
        r := storage.GetItem(name, k);
      case IndexLookup(name, _, k, sortKey, keysOnly) =>
        var page := storage.QueryIndex(name, k, sortKey, false, Some(1), [], keysOnly, KeyNames(schema), []);
        if page.Failure? {
          return Failure(page.error);
        }
        r := Success(DynamoQuery.FirstOrNone(page.value.records));
    }

    /**
     * `batch_get(keys)` with a dict of keys: every key must resolve to a table lookup
     * (RuntimeError otherwise), and the answer has the dict's names, in its order.
     */
    method BatchGetDict(keys: seq<(string, Conditions)>) returns (r: Result<seq<(string, Option<Record>)>, Error>)
      ensures r == BatchGetDictOf(Resolve(schema, keys), Stored(), keys)
    {
      var lookups := Resolve(schema, keys);
      if lookups.Failure? {
        return Failure(lookups.error);
      }
      if HasIndexLookup(lookups.value) {
        return Failure(RuntimeError);
      }
      if keys == [] {
        return Success([]);
      }
      var resp := storage.BatchGetItem(schema.tableName, keys);
      if resp.Failure? {
        return Failure(resp.error);
      }
      r := Success(ByName(keys, resp.value));
    }

    /** `batch_get(keys)` with a list of keys: the answers are in the order of the list. */
    method BatchGetList(keys: seq<Conditions>) returns (r: Result<seq<Option<Record>>, Error>)
      ensures Resolve(schema, NameKeys(keys)).Failure? ==> r == Failure(Resolve(schema, NameKeys(keys)).error)
      ensures r.Success? ==> |r.value| == |keys|
      ensures r.Success? ==> forall i :: 0 <= i < |keys| ==> Success(r.value[i]) == DynamoQuery.GetItem(Stored(), keys[i])
    {
      var named := NameKeys(keys);
      var answers := BatchGetDict(named);
      BatchGetDictFacts(Resolve(schema, named), Stored(), named);
      if answers.Failure? {
        return Failure(answers.error);
      }
      r := Success(seq(|keys|, i requires 0 <= i < |keys| => answers.value[i].1));
    }

    /**
     * `get_many(key, reverse, limit, pagination_token, filter)`: a table lookup queries
     * the table with its sort key, an index lookup queries the index. The token is the
     * decoded pagination key.
     */
    method GetMany(key: Conditions, reverse: bool, limit: Option<int>, token: DynamoQuery.PageKey, filter: Conditions)
      returns (r: Result<DynamoQuery.Page, Error>)
      ensures r == ManyPage(schema, Stored(), key, reverse, limit, token, filter)
      ensures DetermineLookup(schema, key, true).Failure? ==> r == Failure(DetermineLookup(schema, key, true).error)
      ensures DetermineLookup(schema, key, true).Success? && DetermineLookup(schema, key, true).value.TableLookup? ==>
        r == DynamoQuery.Query(Stored(), key, schema.sortKey, reverse, limit, token, filter)
      ensures DetermineLookup(schema, key, true).Success? && DetermineLookup(schema, key, true).value.IndexLookup? ==>
        var l := DetermineLookup(schema, key, true).value;
        r == DynamoQuery.QueryIndex(Stored(), key, l.sortKey, reverse, limit, token, l.keysOnly, KeyNames(schema), filter)
    {
      var lookup := DetermineLookup(schema, key, true);
      if lookup.Failure? {
        return Failure(lookup.error);
      }
      match lookup.value
      case TableLookup(name, k) =>
        r := storage.Query(name, k, schema.sortKey, reverse, limit, token, filter);
      case IndexLookup(name, _, k, sortKey, keysOnly) =>
        r := storage.QueryIndex(name, k, sortKey, reverse, limit, token, keysOnly, KeyNames(schema), filter);
    }

    /**
     * `create(data)`: the record must hold the partition key and a non-empty sort key
     * (ValueError otherwise); it is then put under the key extracted from it.
     */
    method Create(data: Record) returns (r: Result<Record, Error>)
      modifies storage
      ensures schema.partitionKey !in data ==> r == Failure(ValueError) && storage.tables == old(storage.tables)
      ensures Given(schema.sortKey) && schema.sortKey.value !in data ==> r == Failure(ValueError) && storage.tables == old(storage.tables)
      ensures r.Success? ==> r.value == data && ExtractKey(schema, data).Success?
      ensures r.Success? ==>
        storage.tables == old(storage.tables)[schema.tableName := DynamoMemory.PutRecords(old(Stored()), ExtractKey(schema, data).value, data)]
      ensures r.Failure? ==> storage.tables == old(storage.tables)
    {
      if schema.partitionKey !in data {
        return Failure(ValueError);
      }
      if Given(schema.sortKey) && schema.sortKey.value !in data {
        return Failure(ValueError);
      }
      var key := ExtractKey(schema, data);
      if key.Failure? {
        return Failure(key.error);
      }
      storage.Put(schema.tableName, key.value, data);
      r := Success(data);
    }

    /** `update(key, updates)`: the key is validated, then the storage applies the updates. */
    method Update(key: Record, updates: seq<(string, UpdateOp)>) returns (r: Result<Record, Error>)
      modifies storage
      ensures ValidateKey(schema, key).Failure? ==> r == Failure(RuntimeError) && storage.tables == old(storage.tables)
      ensures ValidateKey(schema, key).Success? ==>
        storage.tables == old(storage.tables)[schema.tableName := DynamoMemory.UpdateRecords(old(Stored()), key, updates).0] &&
        r == DynamoMemory.UpdateRecords(old(Stored()), key, updates).1
    {
      var valid := ValidateKey(schema, key);
      if valid.Failure? {
        return Failure(valid.error);
      }
      r := storage.Update(schema.tableName, key, updates);
    }

    /** `delete(key)`: the key is validated, then the first record it selects is removed and returned. */
    method Delete(key: Record) returns (r: Result<Option<Record>, Error>)
      modifies storage
      ensures ValidateKey(schema, key).Failure? ==> r == Failure(RuntimeError) && storage.tables == old(storage.tables)
      ensures ValidateKey(schema, key).Success? ==>
        r == Success(DynamoMemory.DeleteRecords(old(Stored()), key).1) &&
        (schema.tableName in old(storage.tables) ==>
          storage.tables == old(storage.tables)[schema.tableName := DynamoMemory.DeleteRecords(old(Stored()), key).0]) &&
        (schema.tableName !in old(storage.tables) ==> storage.tables == old(storage.tables))
    {
      var valid := ValidateKey(schema, key);
      if valid.Failure? {
        return Failure(valid.error);
      }
      var deleted := storage.Delete(schema.tableName, key);
      r := Success(deleted);
    }

    /**
     * `del_many(key)`: deletes, page by page, every record `get_many(key)` returns, by the
     * key extracted from it; the next page is fetched with the key of the last record
     * deleted, as the source does. Other tables are not touched and nothing is added.
     * When no two stored records share a key, a completed `del_many` leaves no record
     * that satisfies the key.
     */
    method DelMany(key: Conditions) returns (r: Result<(), Error>)
      modifies storage
      ensures SameElsewhere(old(storage.tables), storage.tables, schema.tableName)
      ensures multiset(Stored()) <= multiset(old(Stored()))
      ensures DetermineLookup(schema, key, true).Failure? ==> r.Failure?
      ensures r.Success? && UniqueKeys(schema, old(Stored())) ==> NoneSelected(key, Stored())
    {
      ghost var unique := UniqueKeys(schema, Stored());
      ghost var first := true;
      var toDelete := GetMany(key, false, None, [], []);
      if toDelete.Success? && toDelete.value.records != [] {
        PageRepresented(schema, Stored(), key, toDelete.value);
      }
      while true
        invariant SameElsewhere(old(storage.tables), storage.tables, schema.tableName)
        invariant multiset(Stored()) <= multiset(old(Stored()))
        invariant toDelete.Success? && toDelete.value.records != [] ==>
          Represented(schema, toDelete.value.records[0], Stored())
        invariant first ==> Stored() == old(Stored()) && toDelete == ManyPage(schema, Stored(), key, false, None, [], [])
        invariant unique ==> UniqueKeys(schema, Stored())
        invariant unique && !first ==> NoneSelected(key, Stored())
        invariant DetermineLookup(schema, key, true).Failure? ==> first
        decreases |Stored()|
      {
        if toDelete.Failure? {
          return Failure(toDelete.error);
        }
        if toDelete.value.records == [] {
          if unique && first {
            FirstRoundClears(schema, Stored(), Stored(), key, toDelete.value);
          }
          break;
        }
        ghost var before := Stored();
        var last := DeletePage(toDelete.value.records, key);
        if last.Failure? {
          return Failure(last.error);
        }
        if unique {
          DeletedKeysGone(schema, before, toDelete.value.records);
          if first {
            FirstRoundClears(schema, before, Stored(), key, toDelete.value);
          } else {
            NoneSelectedStays(key, before, Stored());
          }
        }
        first := false;
        toDelete := GetMany(last.value, false, None, [], []);
        if toDelete.Success? && toDelete.value.records != [] {
          PageRepresented(schema, Stored(), last.value, toDelete.value);
        }
      }
      r := Success(());
    }

    /**
     * One round of `del_many`: each record of the page is deleted by its key, and the key
     * of the last one comes back (`key` itself for an empty page). When the first record's
     * key is carried by a stored record, a completed round removes at least one. What is left
     * is what deleting by each record's key in turn leaves.
     */
    method DeletePage(items: seq<Record>, key: Conditions) returns (r: Result<Conditions, Error>)
      modifies storage
      ensures SameElsewhere(old(storage.tables), storage.tables, schema.tableName)
      ensures multiset(Stored()) <= multiset(old(Stored()))
      ensures r.Success? && items != [] && Represented(schema, items[0], old(Stored())) ==> |Stored()| < |old(Stored())|
      ensures r.Success? ==> DeletedKeys(schema, old(Stored()), items) == Some(Stored())
    {
      var current := key;
      var j := 0;
      while j < |items|
        invariant 0 <= j <= |items|
        invariant SameElsewhere(old(storage.tables), storage.tables, schema.tableName)
        invariant DeletedKeys(schema, old(Stored()), items[..j]) == Some(Stored())
      {
        ghost var before := Stored();
        var next := DeleteItem(items[j]);
        if next.Failure? {
          DeletedKeysShrinks(schema, old(Stored()), items[..j]);
          return Failure(next.error);
        }
        DeletedKeysStep(schema, old(Stored()), items, j, before);
        current := next.value;
        j := j + 1;
      }
      assert items[..j] == items;
      DeletedKeysShrinks(schema, old(Stored()), items);
      r := Success(current);
    }

    /**
     * `self.delete(self._extract_key(item))`: the record is deleted by the key extracted
     * from it, and that key comes back as query conditions.
     */
    method DeleteItem(item: Record) returns (r: Result<Conditions, Error>)
      modifies storage
      ensures SameElsewhere(old(storage.tables), storage.tables, schema.tableName)
      ensures multiset(Stored()) <= multiset(old(Stored())) && |Stored()| <= |old(Stored())|
      ensures r.Success? && Represented(schema, item, old(Stored())) ==> |Stored()| < |old(Stored())|
      ensures ExtractKey(schema, item).Failure? ==> r == Failure(ExtractKey(schema, item).error)
      ensures r.Success? ==>
        ExtractKey(schema, item).Success? &&
        Stored() == DynamoMemory.DeleteRecords(old(Stored()), ExtractKey(schema, item).value).0
    {
      var itemKey := ExtractKey(schema, item);
      if itemKey.Failure? {
        return Failure(itemKey.error);
      }
      ghost var pre := Stored();
      var deleted := Delete(itemKey.value);
      if deleted.Failure? {
        return Failure(deleted.error);
      }
      assert Stored() == DynamoMemory.DeleteRecords(pre, itemKey.value).0;
      DeleteShrinks(pre, itemKey.value);
      if Represented(schema, item, pre) {
        DeleteFindsPresent(pre, itemKey.value);
      }
      r := Success(KeyConditions(schema, itemKey.value));
    }

    /** `scan(limit, pagination_token)`: one page of the whole table; the token carries an offset. */
    method Scan(limit: Option<int>, token: Option<int>) returns (r: (seq<Record>, Option<int>))
      ensures r == DynamoMemory.ScanPage(Stored(), limit, token)
    {
      r := storage.Scan(schema.tableName, limit, token);
    }

    /** `item_count()` */
    method ItemCount() returns (n: nat)
      ensures n == |Stored()|
    {
      n := storage.ItemCount(schema.tableName);
    }
  }
}
