/**
 * `MemoryStorage` of website/dynamo.py: the in-memory backend of the table layer. It
 * keeps, per table name, a list of records and changes that list in place. Every
 * method is proved to compute the function of the stored records that specifies it;
 * the properties of those functions are proved beside them.
 */
module DynamoMemory {
  import opened Wrappers
  import opened Builtins
  import opened DynamoValues
  import opened DynamoConditions
  import opened DynamoUpdates
  import DynamoQuery

  /** `_eq_matches`: the record holds every key field with the key's value. */
  predicate KeyMatches(r: Record, key: Record) {
    forall k :: k in key ==> Get(r, k) == Some(key[k])
  }

  /** A key matches the record made from a copy of it. */
  lemma KeyMatchesItself(key: Record)
    ensures KeyMatches(key, key)
  {
  }

  /** The position `_find_index` returns: the first record the key matches. */
  function FirstMatch(records: seq<Record>, key: Record): (r: Option<nat>)
    ensures r.Some? ==> r.value < |records| && KeyMatches(records[r.value], key)
    ensures r.Some? ==> forall j :: 0 <= j < r.value ==> !KeyMatches(records[j], key)
    ensures r.None? <==> forall j :: 0 <= j < |records| ==> !KeyMatches(records[j], key)
  {
    if records == [] then None
    else if KeyMatches(records[0], key) then Some(0)
    else
      match FirstMatch(records[1..], key)
      case None => None
      case Some(i) => Some(i + 1)
  }

  /** The first match is determined by where the key matches: a position is it when nothing before it matches. */
  lemma FirstMatchAt(records: seq<Record>, key: Record, i: nat)
    requires i < |records| && KeyMatches(records[i], key)
    requires forall j :: 0 <= j < i ==> !KeyMatches(records[j], key)
    ensures FirstMatch(records, key) == Some(i)
  {
  }

  // ---------------------------------------------------------------------------
  // `put`

  /** The records after `put(key, data)`: the first match is overwritten, or the data is appended. */
  function PutRecords(records: seq<Record>, key: Record, data: Record): (r: seq<Record>)
    ensures |records| <= |r| <= |records| + 1
    ensures |r| == |records| + 1 <==> FirstMatch(records, key).None?
    ensures data in r
    ensures forall j :: 0 <= j < |records| && Some(j) != FirstMatch(records, key) ==> r[j] == records[j]
  {
    match FirstMatch(records, key)
    case None => records + [data]
    case Some(i) =>
      assert records[i := data][i] == data;
      records[i := data]
  }

  /** After `put`, looking the key up again finds the data that was put, when the data holds the key. */
  lemma PutThenFind(records: seq<Record>, key: Record, data: Record)
    requires KeyMatches(data, key)
    ensures var r := PutRecords(records, key, data);
      FirstMatch(r, key).Some? && r[FirstMatch(r, key).value] == data
  {
    var r := PutRecords(records, key, data);
    match FirstMatch(records, key)
    case None =>
      FirstMatchAt(r, key, |records|);
    case Some(i) =>
      FirstMatchAt(r, key, i);
  }

  /** Putting the same data twice leaves the records as after one put. */
  lemma PutIdempotent(records: seq<Record>, key: Record, data: Record)
    requires KeyMatches(data, key)
    ensures PutRecords(PutRecords(records, key, data), key, data) == PutRecords(records, key, data)
  {
    var once := PutRecords(records, key, data);
    PutThenFind(records, key, data);
    var i := FirstMatch(once, key).value;
    assert once[i := data] == once;
  }

  // ---------------------------------------------------------------------------
  // `update`

  /**
   * The records `update` works on and the position of the record it changes: the first
   * match, or a copy of the key appended when nothing matches.
   */
  function UpdateTarget(records: seq<Record>, key: Record): (t: (seq<Record>, nat))
    ensures t.1 < |t.0|
    ensures FirstMatch(t.0, key) == Some(t.1)
    ensures FirstMatch(records, key).None? ==> t.0 == records + [key] && t.1 == |records|
    ensures FirstMatch(records, key).Some? ==> t.0 == records
  {
    match FirstMatch(records, key)
    case None =>
      KeyMatchesItself(key);
      FirstMatchAt(records + [key], key, |records|);
      (records + [key], |records|)
    case Some(i) => (records, i)
  }

  /**
   * The records after `update(key, updates)` together with its outcome. The updates are
   * applied to the stored record in place, so when one raises, the record keeps the
   * updates before it (and a record created from the key stays).
   */
  function UpdateRecords(records: seq<Record>, key: Record, updates: seq<(string, UpdateOp)>): (r: (seq<Record>, Result<Record, Error>))
    ensures r.1.Failure? ==> r.1.error == TypeError
    ensures r.1.Success? ==> r.1.value in r.0
  {
    var (recs, i) := UpdateTarget(records, key);
    var (after, err) := ApplyAll(recs[i], updates);
    assert recs[i := after][i] == after;
    (recs[i := after], if err.Some? then Failure(err.value) else Success(after))
  }

  /**
   * `update` changes only the record the key selects: a missing record is created from
   * the key first, every other record is left as it was, and a successful update returns
   * the record it stored.
   */
  lemma UpdateShape(records: seq<Record>, key: Record, updates: seq<(string, UpdateOp)>)
    ensures var (r, res) := UpdateRecords(records, key, updates);
      var (recs, i) := UpdateTarget(records, key);
      |r| == |recs| &&
      (|r| == |records| + 1 <==> FirstMatch(records, key).None?) &&
      (forall j :: 0 <= j < |records| && j != i ==> r[j] == records[j]) &&
      (res.Success? ==> r[i] == res.value) &&
      (res.Failure? ==> r[i] == ApplyAll(recs[i], updates).0)
  {
  }

  /** Updates that name no key field keep the record matching the key, so it is found again. */
  lemma UpdateKeepsKey(records: seq<Record>, key: Record, updates: seq<(string, UpdateOp)>)
    requires forall i :: 0 <= i < |updates| ==> updates[i].0 !in key
    ensures var r := UpdateRecords(records, key, updates).0;
      FirstMatch(r, key) == Some(UpdateTarget(records, key).1)
  {
    var (recs, i) := UpdateTarget(records, key);
    var after := ApplyAll(recs[i], updates).0;
    forall k | k in key ensures Get(after, k) == Some(key[k]) {
      ApplyAllFrame(recs[i], updates, k);
    }
    FirstMatchAt(recs[i := after], key, i);
  }

  /** Updating a missing record with increments on other fields creates it from the key plus the deltas. */
  lemma UpdateMissingIncrement(records: seq<Record>, key: Record, name: string, delta: int)
    requires FirstMatch(records, key).None?
    requires name !in key
    ensures UpdateRecords(records, key, [(name, Increment(delta))]) ==
      (records + [key[name := Num(delta)]], Success(key[name := Num(delta)]))
  {
    var us := [(name, Increment(delta))];
    var created := key[name := Num(delta)];
    assert us[..0] == [];
    assert ApplyAll(key, us[..0]) == (key, None);
    IncrementMissing(key, name, delta);
    assert ApplyAll(key, us) == (created, None);
    assert UpdateTarget(records, key) == (records + [key], |records|);
    assert (records + [key])[|records| := created] == records + [created];
  }

  // ---------------------------------------------------------------------------
  // `delete`

  /** The records after `delete(key)` and the record it returns: the first match is removed. */
  function DeleteRecords(records: seq<Record>, key: Record): (r: (seq<Record>, Option<Record>))
    ensures r.1.None? <==> forall j :: 0 <= j < |records| ==> !KeyMatches(records[j], key)
    ensures r.1.None? ==> r.0 == records
    ensures r.1.Some? ==> KeyMatches(r.1.value, key) && |r.0| == |records| - 1
  {
    match FirstMatch(records, key)
    case None => (records, None)
    case Some(i) => (records[..i] + records[i + 1..], Some(records[i]))
  }

  /** `delete` removes the first matching record and keeps the others in order. */
  lemma DeleteFirst(records: seq<Record>, key: Record)
    requires DeleteRecords(records, key).1.Some?
    ensures exists i :: (0 <= i < |records| &&
      (forall j :: 0 <= j < i ==> !KeyMatches(records[j], key)) &&
      DeleteRecords(records, key) == (records[..i] + records[i + 1..], Some(records[i])))
  {
    var i := FirstMatch(records, key).value;
    assert DeleteRecords(records, key) == (records[..i] + records[i + 1..], Some(records[i]));
  }

  /** `delete` removes exactly one occurrence of the record it returns. */
  lemma DeleteMultiset(records: seq<Record>, key: Record)
    requires DeleteRecords(records, key).1.Some?
    ensures multiset(DeleteRecords(records, key).0) + multiset{DeleteRecords(records, key).1.value} == multiset(records)
  {
    var i := FirstMatch(records, key).value;
    assert DeleteRecords(records, key) == (records[..i] + records[i + 1..], Some(records[i]));
    RemoveAtMultiset(records, i);
  }

  /** Taking out the element at `i` takes one occurrence of it out of the multiset. */
  lemma RemoveAtMultiset<T>(s: seq<T>, i: nat)
    requires i < |s|
    ensures multiset(s[..i] + s[i + 1..]) + multiset{s[i]} == multiset(s)
  {
    assert s == s[..i] + [s[i]] + s[i + 1..];
  }

  // ---------------------------------------------------------------------------
  // `batch_get_item`

  /**
   * A dict comprehension whose values may raise: the values are computed in the order
   * of the entries, and the first one that raises aborts the whole comprehension.
   */
  function Collect<V>(rs: seq<(string, Result<V, Error>)>): (r: Result<seq<(string, V)>, Error>)
    ensures r.Success? <==> forall i :: 0 <= i < |rs| ==> rs[i].1.Success?
    ensures r.Success? ==> |r.value| == |rs|
    ensures r.Success? ==> forall i :: 0 <= i < |rs| ==> r.value[i] == (rs[i].0, rs[i].1.value)
    ensures r.Failure? ==> exists i :: (0 <= i < |rs| && rs[i].1 == Failure(r.error) &&
      forall j :: 0 <= j < i ==> rs[j].1.Success?)
    decreases |rs|
  {
    if rs == [] then Success([])
    else
      var init := rs[..|rs| - 1];
      var last := rs[|rs| - 1];
      assert forall i :: 0 <= i < |init| ==> init[i] == rs[i];
      var done :- Collect(init);
      var v :- last.1;
      Success(done + [(last.0, v)])
  }

  /** Once a value has raised, the later entries do not matter. */
  lemma {:induction false} CollectStops<V>(rs: seq<(string, Result<V, Error>)>, k: nat)
    requires k <= |rs|
    requires Collect(rs[..k]).Failure?
    ensures Collect(rs) == Collect(rs[..k])
    decreases |rs| - k
  {
    if k < |rs| {
      var init := rs[..|rs| - 1];
      assert init[..k] == rs[..k];
      CollectStops(init, k);
    } else {
      assert rs[..k] == rs;
    }
  }

  /** `{k: get_item(key) for k, key in keys_map.items()}` */
  function GetItems(records: seq<Record>, keysMap: seq<(string, Conditions)>): Result<seq<(string, Option<Record>)>, Error> {
    Collect(Lookups(records, keysMap))
  }

  function Lookups(records: seq<Record>, keysMap: seq<(string, Conditions)>): (ls: seq<(string, Result<Option<Record>, Error>)>)
    ensures |ls| == |keysMap|
    ensures forall i :: 0 <= i < |keysMap| ==> ls[i] == (keysMap[i].0, DynamoQuery.GetItem(records, keysMap[i].1))
  {
    seq(|keysMap|, i requires 0 <= i < |keysMap| => (keysMap[i].0, DynamoQuery.GetItem(records, keysMap[i].1)))
  }

  // ---------------------------------------------------------------------------
  // `scan`

  /**
   * One page of `scan`: the records from the offset the token carries (`None` for no
   * token), at most `limit` of them, and the offset of the next page when the limit cut
   * the page short. Offsets and limits follow Python's slicing, negative ones included.
   */
  function ScanPage<T>(records: seq<T>, limit: Option<int>, token: Option<int>): (r: (seq<T>, Option<int>))
    ensures |r.0| <= |records|
    ensures token.Some? && 0 <= token.value <= |records| && limit.Some? && limit.value > 0 ==>
      var o := token.value;
      (r.1.Some? <==> o + limit.value < |records|) &&
      (r.1.Some? ==> r.1.value == o + limit.value && r.0 == records[o..o + limit.value]) &&
      (r.1.None? ==> r.0 == records[o..])
    ensures token.None? && limit.Some? && limit.value > 0 ==>
      (r.1.Some? <==> limit.value < |records|) &&
      (r.1.Some? ==> r.1.value == limit.value && r.0 == records[..limit.value]) &&
      (r.1.None? ==> r.0 == records)
    ensures limit.None? || limit.value == 0 ==> r.1.None?
  {
    var start := if token.Some? then token.value else 0;
    var items := SlicedFrom(records, token);
    if limit.Some? && limit.value != 0 && limit.value < |items| then
      (SliceTo(items, limit.value), Some(start + limit.value))
    else (items, None)
  }

  /** The records from the token's offset on, all of them without a token. */
  function SlicedFrom<T>(records: seq<T>, token: Option<int>): seq<T> {
    if token.Some? then SliceFrom(records, token.value) else records
  }

  /** All records from offset `o`, read page by page as a client following the tokens would. */
  function ScanFrom<T>(records: seq<T>, limit: nat, o: nat): (rs: seq<T>)
    requires 0 < limit
    requires o <= |records|
    ensures |rs| == |records| - o
    decreases |records| - o
  {
    var page := ScanPage(records, Some(limit), Some(o));
    if page.1.None? then page.0 else page.0 + ScanFrom(records, limit, o + limit)
  }

  /** Following the scan tokens from offset `o` yields every record from `o` on, each once, in order. */
  lemma {:induction false} ScanFromAll<T>(records: seq<T>, limit: nat, o: nat)
    requires 0 < limit
    requires o <= |records|
    ensures ScanFrom(records, limit, o) == records[o..]
    decreases |records| - o
  {
    ScanFromChunks(records, limit, o);
    ChunksAll(records, limit, o);
  }

  /** The records from `o` on, cut into pieces of `limit` records. */
  function Chunks<T>(records: seq<T>, limit: nat, o: nat): seq<T>
    requires 0 < limit
    requires o <= |records|
    decreases |records| - o
  {
    if o + limit < |records| then records[o..o + limit] + Chunks(records, limit, o + limit) else records[o..]
  }

  /** Following the tokens reads the pieces in order. */
  lemma {:induction false} ScanFromChunks<T>(records: seq<T>, limit: nat, o: nat)
    requires 0 < limit
    requires o <= |records|
    ensures ScanFrom(records, limit, o) == Chunks(records, limit, o)
    decreases |records| - o
  {
    ScanFromStep(records, limit, o);
    if o + limit < |records| {
      ScanFromChunks(records, limit, o + limit);
    }
  }

  /** The pieces put back together are the records from `o` on. */
  lemma {:induction false} ChunksAll<T>(records: seq<T>, limit: nat, o: nat)
    requires 0 < limit
    requires o <= |records|
    ensures Chunks(records, limit, o) == records[o..]
    decreases |records| - o
  {
    if o + limit < |records| {
      ChunksAll(records, limit, o + limit);
      SplitAt(records, o, o + limit);
    }
  }

  lemma SplitAt<T>(xs: seq<T>, i: nat, j: nat)
    requires i <= j <= |xs|
    ensures xs[i..j] + xs[j..] == xs[i..]
  {
  }

  /** One page, then the rest from the token it returns. */
  lemma ScanFromStep<T>(records: seq<T>, limit: nat, o: nat)
    requires 0 < limit
    requires o <= |records|
    ensures ScanFrom(records, limit, o) ==
      if o + limit < |records| then records[o..o + limit] + ScanFrom(records, limit, o + limit) else records[o..]
  {
    var page := ScanPage(records, Some(limit), Some(o));
    if o + limit < |records| {
      assert page == (records[o..o + limit], Some(o + limit));
    } else {
      assert page == (records[o..], None);
    }
  }

  // ---------------------------------------------------------------------------
  // The storage.

  class MemoryStorage {
    /** table name -> the records of that table, in insertion order */
    var tables: map<string, seq<Record>>

    /** `self.tables.get(table_name, [])` */
    function Records(name: string): seq<Record>
      reads this
    {
      if name in tables then tables[name] else []
    }

    /** A storage without a file starts with no tables. */
    constructor()
      ensures tables == map[]
    {
      tables := map[];
    }

    /** `_find_index` */
    method FindIndex(records: seq<Record>, key: Record) returns (index: Option<nat>)
      ensures index == FirstMatch(records, key)
    {
      var i := 0;
      while i < |records|
        invariant 0 <= i <= |records|
        invariant forall j :: 0 <= j < i ==> !KeyMatches(records[j], key)
      {
        if KeyMatches(records[i], key) {
          FirstMatchAt(records, key, i);
          return Some(i);
        }
        i := i + 1;
      }
      index := None;
    }

    /** `query`: the records are popped off the front of the keyed list while they sort at or before the token. */
    method Query(name: string, key: Conditions, sortKey: Option<string>, reverse: bool,
                 limit: Option<int>, token: DynamoQuery.PageKey, filter: Conditions)
      returns (r: Result<DynamoQuery.Page, Error>)
      ensures r == DynamoQuery.Query(Records(name), key, sortKey, reverse, limit, token, filter)
    {
      var prepared := DynamoQuery.Prepare(Records(name), key, sortKey, reverse);
      if prepared.Failure? {
        return Failure(prepared.error);
      }
      var withKeys := prepared.value;
      while token != [] && withKeys != []
        invariant DynamoQuery.DropThrough(withKeys, token, sortKey, reverse) ==
          DynamoQuery.DropThrough(prepared.value, token, sortKey, reverse)
        decreases |withKeys|
      {
        var before := DynamoQuery.BeforeOrEqual(withKeys[0].0, token, sortKey, reverse);
        if before.Failure? {
          return Failure(before.error);
        }
        if !before.value {
          break;
        }
        withKeys := withKeys[1..];
      }
      DynamoQuery.QueryIntro(Records(name), key, sortKey, reverse, limit, token, filter);
      r := DynamoQuery.Finish(withKeys, limit, filter);
    }

    /** `get_item`: the first record of an unpaged, unsorted query. */
    method GetItem(name: string, key: Conditions) returns (r: Result<Option<Record>, Error>)
      ensures r == DynamoQuery.GetItem(Records(name), key)
    {
      var page := Query(name, key, None, false, None, [], []);
      if page.Failure? {
        return Failure(page.error);
      }
      r := Success(DynamoQuery.FirstOrNone(page.value.records));
    }

    /** `batch_get_item`: one `get_item` per entry of the key map, in the map's order. */
    method BatchGetItem(name: string, keysMap: seq<(string, Conditions)>)
      returns (r: Result<seq<(string, Option<Record>)>, Error>)
      ensures r == GetItems(Records(name), keysMap)
    {
      var records := Records(name);
      ghost var lookups := Lookups(records, keysMap);
      var out: seq<(string, Option<Record>)> := [];
      var i := 0;
      assert lookups[..0] == [];
      while i < |keysMap|
        invariant 0 <= i <= |keysMap|
        invariant Collect(lookups[..i]) == Success(out)
      {
        assert lookups[..i + 1][..i] == lookups[..i];
        var item := DynamoQuery.GetItem(records, keysMap[i].1);
        assert lookups[i] == (keysMap[i].0, item);
        if item.Failure? {
          CollectStops(lookups, i + 1);
          return Failure(item.error);
        }
        out := out + [(keysMap[i].0, item.value)];
        i := i + 1;
      }
      assert lookups[..i] == lookups;
      r := Success(out);
    }

    /** `query_index`: the query, cut down to the key fields for a keys-only index. */
    method QueryIndex(name: string, key: Conditions, sortKey: Option<string>, reverse: bool,
                      limit: Option<int>, token: DynamoQuery.PageKey, keysOnly: bool,
                      tableKeyNames: seq<string>, filter: Conditions)
      returns (r: Result<DynamoQuery.Page, Error>)
      ensures r == DynamoQuery.QueryIndex(Records(name), key, sortKey, reverse, limit, token, keysOnly, tableKeyNames, filter)
    {
      var page := Query(name, key, sortKey, reverse, limit, token, filter);
      if page.Failure? || !keysOnly {
        return page;
      }
      var projected := DynamoQuery.ProjectAll(page.value.records, DynamoQuery.RetainedFields(key, sortKey, tableKeyNames));
      if projected.Failure? {
        return Failure(projected.error);
      }
      r := Success(DynamoQuery.Page(projected.value, page.value.next));
    }

    /** `put`: the table is created when missing; the first record the key matches is replaced, or the data appended. */
    method Put(name: string, key: Record, data: Record)
      modifies this
      ensures tables == old(tables)[name := PutRecords(old(Records(name)), key, data)]
    {
      var records := Records(name);
      var index := FindIndex(records, key);
      if index.None? {
        records := records + [data];
      } else {
        records := records[index.value := data];
      }
      tables := tables[name := records];
    }

    /**
     * `update`: the table and the record are created when missing, then the updates are
     * applied to the stored record one by one, in order.
     */
    method Update(name: string, key: Record, updates: seq<(string, UpdateOp)>) returns (r: Result<Record, Error>)
      modifies this
      ensures tables == old(tables)[name := UpdateRecords(old(Records(name)), key, updates).0]
      ensures r == UpdateRecords(old(Records(name)), key, updates).1
    {
      var records := Records(name);
      var index := FindIndex(records, key);
      if index.None? {
        KeyMatchesItself(key);
        records := records + [key];
        index := Some(|records| - 1);
      }
      var i := index.value;
      assert (records, i) == UpdateTarget(old(Records(name)), key);
      var record := records[i];
      var k := 0;
      assert updates[..0] == [];
      while k < |updates|
        invariant 0 <= k <= |updates|
        invariant ApplyAll(records[i], updates[..k]) == (record, None)
        invariant tables == old(tables)
      {
        var (field, op) := updates[k];
        var applied := ApplyOne(record, field, op);
        ApplyAllStep(records[i], updates, k, record);
        if applied.Failure? {
          tables := tables[name := records[i := record]];
          return Failure(applied.error);
        }
        record := applied.value;
        k := k + 1;
      }
      assert updates[..k] == updates;
      tables := tables[name := records[i := record]];
      r := Success(record);
    }

    /** `delete`: removes and returns the first record the key matches; a missing table is not created. */
    method Delete(name: string, key: Record) returns (r: Option<Record>)
      modifies this
      ensures name in old(tables) ==> tables == old(tables)[name := DeleteRecords(old(tables[name]), key).0]
      ensures name !in old(tables) ==> tables == old(tables)
      ensures r == DeleteRecords(old(Records(name)), key).1
    {
      var records := Records(name);
      var index := FindIndex(records, key);
      r := None;
      if index.Some? {
        var i := index.value;
        r := Some(records[i]);
        tables := tables[name := records[..i] + records[i + 1..]];
      }
    }

    /** `item_count`: the number of records stored under the table name, 0 for an unknown table. */
    method ItemCount(name: string) returns (n: nat)
      ensures n == |Records(name)|
    {
      n := |Records(name)|;
    }

    /** `scan`: one page of the table in storage order. */
    method Scan(name: string, limit: Option<int>, token: Option<int>) returns (r: (seq<Record>, Option<int>))
      ensures r == ScanPage(Records(name), limit, token)
    {
      var records := Records(name);
      var items := records;
      var start := 0;
      if token.Some? {
        start := token.value;
        items := SliceFrom(items, start);
      }
      assert items == SlicedFrom(records, token);
      if limit.Some? && limit.value != 0 && limit.value < |items| {
        r := (SliceTo(items, limit.value), Some(start + limit.value));
      } else {
        r := (items, None);
      }
    }
  }
}
