/**
 * The in-memory query of website/dynamo.py (`MemoryStorage.query` and
 * `MemoryStorage.query_index`) as functions of the stored records, with the
 * properties the paging protocol relies on. `MemoryStorage` itself (dynamo_memory.dfy)
 * is proved to compute exactly these functions.
 *
 * The stages are: select the records that satisfy the key conditions; sort them by the
 * sort key; reverse them; pair each with its pagination key; drop the records at or
 * before the client's pagination token; cut the page at the limit, remembering the key
 * of the last record kept as the next token; and finally apply the filter conditions.
 */
module DynamoQuery {
  import opened Wrappers
  import opened Builtins
  import opened DynamoValues
  import opened DynamoConditions

  /** A pagination key (a dict in Python): field names and values in insertion order. */
  type PageKey = seq<(string, Value)>

  /** `d[k]` on a dict given as its entries. */
  function Lookup(d: PageKey, k: string): (v: Option<Value>)
    ensures v.Some? <==> k in Names(d)
    ensures v.Some? ==> (k, v.value) in d
  {
    if d == [] then None else if d[0].0 == k then Some(d[0].1) else Lookup(d[1..], k)
  }

  /** `d[k] = v`: overwrite in place when present, append otherwise. */
  function Upsert(d: PageKey, k: string, v: Value): (r: PageKey)
    ensures Lookup(r, k) == Some(v)
    ensures forall j :: j != k ==> Lookup(r, j) == Lookup(d, j)
  {
    if d == [] then [(k, v)]
    else if d[0].0 == k then [(k, v)] + d[1..]
    else [d[0]] + Upsert(d[1..], k, v)
  }

  // ---------------------------------------------------------------------------
  // Selecting records.

  /**
   * `[r for r in records if _query_matches(r, eq, conds)]`: keeps the matching records
   * in order; an error raised while matching any record aborts the query.
   */
  function Select(records: seq<Record>, eq: seq<(string, Value)>, conds: seq<(string, Between)>): (r: Result<seq<Record>, Error>)
    ensures r.Success? <==> forall i :: 0 <= i < |records| ==> QueryMatches(records[i], eq, conds).Success?
    ensures r.Success? ==> forall x :: x in r.value <==> x in records && QueryMatches(x, eq, conds) == Success(true)
    ensures r.Success? ==> |r.value| <= |records|
  {
    if records == [] then Success([])
    else
      assert forall i :: 1 <= i < |records| ==> records[i] == records[1..][i - 1];
      assert records == [records[0]] + records[1..];
      var m :- QueryMatches(records[0], eq, conds);
      var rest :- Select(records[1..], eq, conds);
      Success(if m then [records[0]] + rest else rest)
  }

  lemma SelectCons(x: Record, rest: seq<Record>, eq: seq<(string, Value)>, conds: seq<(string, Between)>)
    requires QueryMatches(x, eq, conds).Success?
    ensures Select([x] + rest, eq, conds) ==
      match Select(rest, eq, conds)
      case Failure(e) => Failure(e)
      case Success(t) => Success(if QueryMatches(x, eq, conds).value then [x] + t else t)
  {
    assert ([x] + rest)[0] == x && ([x] + rest)[1..] == rest;
  }

  /** With no conditions every record is selected, in order. */
  lemma {:induction false} SelectAll(records: seq<Record>)
    ensures Select(records, [], []) == Success(records)
  {
    if records != [] {
      SelectAll(records[1..]);
      assert records == [records[0]] + records[1..];
    }
  }

  /**
   * Selecting from two stretches of records one after the other is selecting from each
   * and concatenating: the selection keeps the stored order.
   */
  lemma {:induction false} SelectAppend(a: seq<Record>, b: seq<Record>, eq: seq<(string, Value)>, conds: seq<(string, Between)>)
    requires Select(a + b, eq, conds).Success?
    ensures Select(a, eq, conds).Success? && Select(b, eq, conds).Success?
    ensures Select(a + b, eq, conds).value == Select(a, eq, conds).value + Select(b, eq, conds).value
  {
    if a == [] {
      assert a + b == b;
    } else {
      var x, tail := a[0], a[1..];
      assert a + b == [x] + (tail + b);
      assert a == [x] + tail;
      assert QueryMatches(x, eq, conds).Success? by {
        assert (a + b)[0] == x;
      }
      SelectCons(x, tail + b, eq, conds);
      assert Select(tail + b, eq, conds).Success?;
      SelectAppend(tail, b, eq, conds);
      SelectCons(x, tail, eq, conds);
      var s, sb := Select(tail, eq, conds).value, Select(b, eq, conds).value;
      if QueryMatches(x, eq, conds).value {
        assert Select(a + b, eq, conds).value == [x] + (s + sb);
        assert Select(a, eq, conds).value == [x] + s;
        ConsAppend(x, s, sb);
      } else {
        assert Select(a + b, eq, conds).value == s + sb;
        assert Select(a, eq, conds).value == s;
      }
    }
  }

  lemma ConsAppend<T>(x: T, s: seq<T>, t: seq<T>)
    ensures [x] + (s + t) == ([x] + s) + t
  {
  }

  /** A selected record occurs as often as it is stored; a rejected one does not occur. */
  lemma {:induction false} SelectCount(records: seq<Record>, eq: seq<(string, Value)>, conds: seq<(string, Between)>, x: Record)
    requires Select(records, eq, conds).Success?
    ensures multiset(Select(records, eq, conds).value)[x] ==
      if QueryMatches(x, eq, conds) == Success(true) then multiset(records)[x] else 0
  {
    if records != [] {
      var tail := records[1..];
      SelectCount(tail, eq, conds, x);
      assert multiset(records) == multiset{records[0]} + multiset(tail) by {
        assert records == [records[0]] + tail;
      }
      var rest := Select(tail, eq, conds).value;
      if QueryMatches(records[0], eq, conds).value {
        assert Select(records, eq, conds).value == [records[0]] + rest;
        assert multiset([records[0]] + rest) == multiset{records[0]} + multiset(rest);
      } else {
        assert Select(records, eq, conds).value == rest;
      }
    }
  }

  /**
   * The first selected record is the first stored record that satisfies the conditions.
   */
  lemma {:induction false} SelectFirst(records: seq<Record>, eq: seq<(string, Value)>, conds: seq<(string, Between)>)
    requires Select(records, eq, conds).Success? && Select(records, eq, conds).value != []
    ensures exists i :: (0 <= i < |records| && records[i] == Select(records, eq, conds).value[0] &&
      QueryMatches(records[i], eq, conds) == Success(true) &&
      forall j :: 0 <= j < i ==> QueryMatches(records[j], eq, conds) == Success(false))
  {
    if QueryMatches(records[0], eq, conds) == Success(true) {
      assert records[0] == Select(records, eq, conds).value[0];
    } else {
      var tail := records[1..];
      SelectFirst(tail, eq, conds);
      var i :| 0 <= i < |tail| && tail[i] == Select(tail, eq, conds).value[0] &&
        QueryMatches(tail[i], eq, conds) == Success(true) &&
        forall j :: 0 <= j < i ==> QueryMatches(tail[j], eq, conds) == Success(false);
      assert records[i + 1] == tail[i];
      forall j | 0 <= j < i + 1 ensures QueryMatches(records[j], eq, conds) == Success(false) {
        if j > 0 { assert records[j] == tail[j - 1]; }
      }
    }
  }

  lemma {:induction false} SelectAscending(records: seq<Record>, eq: seq<(string, Value)>, conds: seq<(string, Between)>, k: string)
    requires Ascending(records, k)
    requires Select(records, eq, conds).Success?
    ensures Ascending(Select(records, eq, conds).value, k)
  {
    if records != [] {
      var tail := records[1..];
      assert Ascending(tail, k) by {
        forall i, j | 0 <= i < j < |tail| ensures SortLe(FieldValue(tail[i], k), FieldValue(tail[j], k)) {
          assert tail[i] == records[i + 1] && tail[j] == records[j + 1];
        }
      }
      SelectAscending(tail, eq, conds, k);
      var rest := Select(tail, eq, conds).value;
      if QueryMatches(records[0], eq, conds).value {
        var r := [records[0]] + rest;
        forall i, j | 0 <= i < j < |r| ensures SortLe(FieldValue(r[i], k), FieldValue(r[j], k)) {
          if i == 0 {
            assert r[j] in tail;
            var m :| 0 <= m < |tail| && tail[m] == r[j];
            assert records[m + 1] == r[j];
          }
        }
      }
    }
  }

  lemma {:induction false} SelectDescending(records: seq<Record>, eq: seq<(string, Value)>, conds: seq<(string, Between)>, k: string)
    requires Descending(records, k)
    requires Select(records, eq, conds).Success?
    ensures Descending(Select(records, eq, conds).value, k)
  {
    if records != [] {
      var tail := records[1..];
      assert Descending(tail, k) by {
        forall i, j | 0 <= i < j < |tail| ensures SortLe(FieldValue(tail[j], k), FieldValue(tail[i], k)) {
          assert tail[i] == records[i + 1] && tail[j] == records[j + 1];
        }
      }
      SelectDescending(tail, eq, conds, k);
      var rest := Select(tail, eq, conds).value;
      if QueryMatches(records[0], eq, conds).value {
        var r := [records[0]] + rest;
        forall i, j | 0 <= i < j < |r| ensures SortLe(FieldValue(r[j], k), FieldValue(r[i], k)) {
          if i == 0 {
            assert r[j] in tail;
            var m :| 0 <= m < |tail| && tail[m] == r[j];
            assert records[m + 1] == r[j];
          }
        }
      }
    }
  }

  // ---------------------------------------------------------------------------
  // Ordering.

  predicate AllNumbers(rs: seq<Record>, k: string) {
    forall i :: 0 <= i < |rs| ==> FieldValue(rs[i], k).Num?
  }

  predicate AllStrings(rs: seq<Record>, k: string) {
    forall i :: 0 <= i < |rs| ==> FieldValue(rs[i], k).Str?
  }

  /**
   * `rs.sort(key=lambda x: x[k])`: every record must have the field (KeyError), and
   * two or more sort values must be all numbers or all strings (TypeError).
   */
  function SortChecked(rs: seq<Record>, k: string): (r: Result<seq<Record>, Error>)
    ensures r.Success? <==> (forall i :: 0 <= i < |rs| ==> k in rs[i]) && (|rs| < 2 || AllNumbers(rs, k) || AllStrings(rs, k))
    ensures r.Success? ==> multiset(r.value) == multiset(rs) && Ascending(r.value, k)
    ensures r.Failure? && (forall i :: 0 <= i < |rs| ==> k in rs[i]) ==> r.error == TypeError
    ensures r.Failure? && !(forall i :: 0 <= i < |rs| ==> k in rs[i]) ==> r.error == KeyError
  {
    if !(forall i :: 0 <= i < |rs| ==> k in rs[i]) then Failure(KeyError)
    else if |rs| >= 2 && !AllNumbers(rs, k) && !AllStrings(rs, k) then Failure(TypeError)
    else
      SortAscending(rs, k);
      Success(SortByField(rs, k))
  }

  /** Sorting when a sort key is given, then reversing when asked to. */
  function Order(selected: seq<Record>, sortKey: Option<string>, reverse: bool): (r: Result<seq<Record>, Error>)
    ensures r.Success? ==> multiset(r.value) == multiset(selected)
    ensures !Given(sortKey) ==> r == Success(if reverse then Reverse(selected) else selected)
    ensures r.Success? && Given(sortKey) ==> forall i :: 0 <= i < |r.value| ==> sortKey.value in r.value[i]
    ensures r.Success? && Given(sortKey) && !reverse ==> Ascending(r.value, sortKey.value)
    ensures r.Success? && Given(sortKey) && reverse ==> Descending(r.value, sortKey.value)
  {
    if !Given(sortKey) then
      ReverseMultiset(selected);
      if reverse then Success(Reverse(selected)) else Success(selected)
    else
      match SortChecked(selected, sortKey.value)
      case Failure(e) => Failure(e)
      case Success(sorted) =>
        ReverseFacts(sorted, sortKey.value);
        HasFieldFromMultiset(sorted, selected, sortKey.value);
        if reverse then Success(Reverse(sorted)) else Success(sorted)
  }

  lemma ReverseFacts(sorted: seq<Record>, k: string)
    ensures multiset(Reverse(sorted)) == multiset(sorted)
    ensures Ascending(sorted, k) ==> Descending(Reverse(sorted), k)
  {
    ReverseMultiset(sorted);
    if Ascending(sorted, k) { ReverseDescending(sorted, k); }
  }

  /** A permutation of records that all have field `k` consists of records that have it. */
  lemma HasFieldFromMultiset(a: seq<Record>, b: seq<Record>, k: string)
    requires multiset(a) == multiset(b)
    requires forall i :: 0 <= i < |b| ==> k in b[i]
    ensures forall i :: 0 <= i < |a| ==> k in a[i]
    ensures forall i :: 0 <= i < |Reverse(a)| ==> k in Reverse(a)[i]
  {
    forall i | 0 <= i < |a| ensures k in a[i] {
      assert a[i] in multiset(b);
      var j :| 0 <= j < |b| && b[j] == a[i];
    }
  }

  // ---------------------------------------------------------------------------
  // Pagination keys.

  /** `{k: record[k] for k in names}` in the order of the names. */
  function Project(r: Record, names: seq<string>): (res: Result<PageKey, Error>)
    ensures res.Success? <==> forall i :: 0 <= i < |names| ==> names[i] in r
    ensures res.Success? ==> Names(res.value) == names
    ensures res.Success? ==> forall i :: 0 <= i < |names| ==> res.value[i] == (names[i], r[names[i]])
    ensures res.Failure? ==> res.error == KeyError
  {
    if names == [] then Success([])
    else if names[0] !in r then Failure(KeyError)
    else
      var rest :- Project(r, names[1..]);
      assert forall i :: 1 <= i < |names| ==> names[i] == names[1..][i - 1];
      Success([(names[0], r[names[0]])] + rest)
  }

  lemma {:induction false} LookupProject(r: Record, names: seq<string>)
    requires Project(r, names).Success?
    ensures forall j :: 0 <= j < |names| ==> Lookup(Project(r, names).value, names[j]) == Some(r[names[j]])
  {
    if names != [] {
      LookupProject(r, names[1..]);
      forall j | 0 <= j < |names| ensures Lookup(Project(r, names).value, names[j]) == Some(r[names[j]]) {
        if j > 0 && names[j] != names[0] {
          assert names[j] == names[1..][j - 1];
        }
      }
    }
  }

  /**
   * `extract_key(i, record)`: the key fields, then either the sort key's value or,
   * with no sort key, the position `i` under "offset".
   */
  function ExtractPageKey(i: nat, r: Record, keyNames: seq<string>, sortKey: Option<string>): (res: Result<PageKey, Error>)
    ensures res.Success? <==> (forall j :: 0 <= j < |keyNames| ==> keyNames[j] in r) && (sortKey.Some? ==> sortKey.value in r)
    ensures res.Success? ==> forall j :: 0 <= j < |keyNames| && Some(keyNames[j]) != sortKey && keyNames[j] != "offset" ==>
      Lookup(res.value, keyNames[j]) == Some(r[keyNames[j]])
    ensures res.Success? && sortKey.None? ==> Lookup(res.value, "offset") == Some(Num(i))
    ensures res.Success? && sortKey.Some? ==> Lookup(res.value, sortKey.value) == Some(r[sortKey.value])
    ensures res.Failure? ==> res.error == KeyError
  {
    var base :- Project(r, keyNames);
    LookupProject(r, keyNames);
    if sortKey.None? then
      Success(Upsert(base, "offset", Num(i)))
    else if sortKey.value in r then
      Success(Upsert(base, sortKey.value, r[sortKey.value]))
    else Failure(KeyError)
  }

  function Keyed(rs: seq<Record>, start: nat, keyNames: seq<string>, sortKey: Option<string>): (res: Result<seq<(PageKey, Record)>, Error>)
    ensures res.Success? ==> |res.value| == |rs|
    ensures res.Success? ==> forall i :: 0 <= i < |rs| ==> res.value[i].1 == rs[i]
    ensures res.Success? ==> forall i :: 0 <= i < |rs| ==> ExtractPageKey(start + i, rs[i], keyNames, sortKey) == Success(res.value[i].0)
  {
    if rs == [] then Success([])
    else
      var k :- ExtractPageKey(start, rs[0], keyNames, sortKey);
      var rest :- Keyed(rs[1..], start + 1, keyNames, sortKey);
      var ws := [(k, rs[0])] + rest;
      KeyedStep(rs, rs[1..], start, keyNames, sortKey, k, rest, ws);
      Success(ws)
  }

  lemma KeyedCons(rs: seq<Record>, start: nat, keyNames: seq<string>, sortKey: Option<string>)
    requires rs != []
    requires ExtractPageKey(start, rs[0], keyNames, sortKey).Success?
    requires Keyed(rs[1..], start + 1, keyNames, sortKey).Success?
    ensures Keyed(rs, start, keyNames, sortKey) ==
      Success([(ExtractPageKey(start, rs[0], keyNames, sortKey).value, rs[0])] + Keyed(rs[1..], start + 1, keyNames, sortKey).value)
  {
  }

  /** The recursive case of `Keyed`: a key for the head in front of the tail's keys. */
  lemma KeyedStep(rs: seq<Record>, tail: seq<Record>, start: nat, keyNames: seq<string>, sortKey: Option<string>,
                  k: PageKey, rest: seq<(PageKey, Record)>, ws: seq<(PageKey, Record)>)
    requires rs != [] && tail == rs[1..] && ws == [(k, rs[0])] + rest
    requires ExtractPageKey(start, rs[0], keyNames, sortKey) == Success(k)
    requires |rest| == |tail|
    requires forall i :: 0 <= i < |tail| ==> rest[i].1 == tail[i]
    requires forall i :: 0 <= i < |tail| ==> ExtractPageKey(start + 1 + i, tail[i], keyNames, sortKey) == Success(rest[i].0)
    ensures |ws| == |rs|
    ensures forall i :: 0 <= i < |rs| ==> ws[i].1 == rs[i]
    ensures forall i :: 0 <= i < |rs| ==> ExtractPageKey(start + i, rs[i], keyNames, sortKey) == Success(ws[i].0)
  {
    forall i | 0 <= i < |rs|
      ensures ws[i].1 == rs[i] && ExtractPageKey(start + i, rs[i], keyNames, sortKey) == Success(ws[i].0)
    {
      if i > 0 {
        assert ws[i] == rest[i - 1] && rs[i] == tail[i - 1];
        assert start + i == start + 1 + (i - 1);
      }
    }
  }

  function Records(ws: seq<(PageKey, Record)>): (rs: seq<Record>)
    ensures |rs| == |ws|
    ensures forall i :: 0 <= i < |ws| ==> rs[i] == ws[i].1
  {
    seq(|ws|, i requires 0 <= i < |ws| => ws[i].1)
  }

  // ---------------------------------------------------------------------------
  // Comparison against the pagination token.

  /** The first name that differs from `exclude`. */
  function FirstOther(names: seq<string>, exclude: Option<string>): (r: Option<nat>)
    ensures r.Some? ==> r.value < |names| && Some(names[r.value]) != exclude
    ensures r.Some? ==> forall j :: 0 <= j < r.value ==> Some(names[j]) == exclude
    ensures r.None? ==> forall j :: 0 <= j < |names| ==> Some(names[j]) == exclude
  {
    if names == [] then None
    else if Some(names[0]) != exclude then Some(0)
    else match FirstOther(names[1..], exclude)
      case None => None
      case Some(j) => Some(j + 1)
  }

  /**
   * `orderable(key)`: the value of the first field other than the sort key, paired with
   * the value of the first field other than that one; IndexError when there is none.
   */
  function Orderable(key: PageKey, sortKey: Option<string>): (r: Result<(Value, Value), Error>)
    ensures r.Failure? ==> r.error == IndexError
    ensures r.Failure? <==> (FirstOther(Names(key), sortKey).None? ||
      FirstOther(Names(key), Some(Names(key)[FirstOther(Names(key), sortKey).value])).None?)
  {
    var names := Names(key);
    match FirstOther(names, sortKey)
    case None => Failure(IndexError)
    case Some(p) =>
      match FirstOther(names, Some(names[p]))
      case None => Failure(IndexError)
      case Some(s) => Success((key[p].1, key[s].1))
  }

  /**
   * Python's `<=` on pairs: the first components decide unless they are equal, then
   * the second; two equal pairs compare true.
   */
  function PairLe(a: (Value, Value), b: (Value, Value)): (r: Result<bool, Error>)
    ensures a == b ==> r == Success(true)
    ensures a.0 != b.0 ==> r == LessEq(a.0, b.0)
  {
    if a.0 != b.0 then LessEq(a.0, b.0)
    else if a.1 != b.1 then LessEq(a.1, b.1)
    else Success(true)
  }

  /** On pairs of numbers, `PairLe` is the lexicographic order. */
  lemma PairLeNumbers(a0: int, a1: int, b0: int, b1: int)
    ensures PairLe((Num(a0), Num(a1)), (Num(b0), Num(b1))) == Success(a0 < b0 || (a0 == b0 && a1 <= b1))
  {
  }

  /**
   * `before_or_equal(key0, key1)`: compares the orderable pairs, the other way round when
   * a sort key is given and the query is reversed.
   */
  function BeforeOrEqual(k0: PageKey, k1: PageKey, sortKey: Option<string>, reverse: bool): (r: Result<bool, Error>)
    ensures Orderable(k0, sortKey).Failure? ==> r == Failure(IndexError)
    ensures r.Success? ==> Orderable(k0, sortKey).Success? && Orderable(k1, sortKey).Success?
    ensures r.Success? && (!reverse || !Given(sortKey)) ==> r == PairLe(Orderable(k0, sortKey).value, Orderable(k1, sortKey).value)
    ensures r.Success? && reverse && Given(sortKey) ==> r == PairLe(Orderable(k1, sortKey).value, Orderable(k0, sortKey).value)
  {
    var o0 :- Orderable(k0, sortKey);
    var o1 :- Orderable(k1, sortKey);
    if !reverse || !Given(sortKey) then PairLe(o0, o1) else PairLe(o1, o0)
  }

  /**
   * The `while pagination_token and with_keys and before_or_equal(...)` loop: drops
   * the longest prefix whose keys are at or before the token. An empty token drops
   * nothing.
   */
  function DropThrough(ws: seq<(PageKey, Record)>, token: PageKey, sortKey: Option<string>, reverse: bool): (r: Result<seq<(PageKey, Record)>, Error>)
    ensures r.Success? ==> |r.value| <= |ws| && r.value == ws[|ws| - |r.value|..]
    ensures token == [] ==> r == Success(ws)
  {
    if token == [] || ws == [] then Success(ws)
    else
      var before :- BeforeOrEqual(ws[0].0, token, sortKey, reverse);
      if before then DropThrough(ws[1..], token, sortKey, reverse) else Success(ws)
  }

  /**
   * What the loop drops is exactly the longest prefix of entries at or before the
   * token: every dropped entry compares at or before it, and the first one kept does not.
   */
  lemma {:induction false} DropThroughPrefix(ws: seq<(PageKey, Record)>, token: PageKey, sortKey: Option<string>, reverse: bool)
    requires DropThrough(ws, token, sortKey, reverse).Success?
    ensures var r := DropThrough(ws, token, sortKey, reverse).value;
      (forall j :: 0 <= j < |ws| - |r| ==> BeforeOrEqual(ws[j].0, token, sortKey, reverse) == Success(true)) &&
      (token != [] && r != [] ==> BeforeOrEqual(r[0].0, token, sortKey, reverse) == Success(false))
  {
    if token != [] && ws != [] && BeforeOrEqual(ws[0].0, token, sortKey, reverse) == Success(true) {
      DropThroughPrefix(ws[1..], token, sortKey, reverse);
      assert forall j :: 1 <= j < |ws| ==> ws[j] == ws[1..][j - 1];
    }
  }

  /**
   * `if limit and limit < len(with_keys)`: keep the first `limit` entries (Python slice
   * semantics, so a negative limit counts from the end) and return the key of the last
   * one kept as the next token; `with_keys[-1]` raises IndexError when nothing is kept.
   */
  function Truncate(ws: seq<(PageKey, Record)>, limit: Option<int>): (r: Result<(seq<(PageKey, Record)>, Option<PageKey>), Error>)
    ensures r.Success? ==> |r.value.0| <= |ws| && r.value.0 == ws[..|r.value.0|]
    ensures r.Success? ==> (r.value.1.Some? <==> limit.Some? && limit.value != 0 && limit.value < |ws|)
    ensures r.Success? && r.value.1.Some? ==> r.value.0 != [] && r.value.1.value == r.value.0[|r.value.0| - 1].0
    ensures limit.Some? && limit.value > 0 ==> r.Success? && |r.value.0| <= limit.value
    ensures limit.Some? && 0 < limit.value < |ws| ==> |r.value.0| == limit.value
  {
    if limit.Some? && limit.value != 0 && limit.value < |ws| then
      var kept := SliceTo(ws, limit.value);
      var last :- Index(kept, -1);
      Success((kept, Some(last.0)))
    else Success((ws, None))
  }

  // ---------------------------------------------------------------------------
  // The whole query.

  datatype Page = Page(records: seq<Record>, next: Option<PageKey>)

  /** The stages after the pagination token has been applied. */
  function Finish(dropped: seq<(PageKey, Record)>, limit: Option<int>, filter: Conditions): (r: Result<Page, Error>)
  {
    var (kept, next) :- Truncate(dropped, limit);
    var (feq, fconds) := Partition(filter);
    var records :- Select(Records(kept), feq, fconds);
    Success(Page(records, next))
  }

  lemma FinishIntro(dropped: seq<(PageKey, Record)>, limit: Option<int>, filter: Conditions)
    requires Truncate(dropped, limit).Success?
    requires Select(Records(Truncate(dropped, limit).value.0), Partition(filter).0, Partition(filter).1).Success?
    ensures Finish(dropped, limit, filter) ==
      Success(Page(Select(Records(Truncate(dropped, limit).value.0), Partition(filter).0, Partition(filter).1).value,
                   Truncate(dropped, limit).value.1))
  {
  }

  /** The stages before the pagination token is applied. */
  function Prepare(records: seq<Record>, key: Conditions, sortKey: Option<string>, reverse: bool): (r: Result<seq<(PageKey, Record)>, Error>)
  {
    var (eq, conds) := Partition(key);
    var _ :- ValidateOnlySortKey(conds, sortKey);
    var selected :- Select(records, eq, conds);
    var ordered :- Order(selected, sortKey, reverse);
    Keyed(ordered, 0, Names(key), sortKey)
  }

  /**
   * `MemoryStorage.query`. An empty `token` stands for both `None` and `{}`, and an
   * empty `filter` for both `None` and `{}`: Python treats them alike.
   */
  function Query(records: seq<Record>, key: Conditions, sortKey: Option<string>, reverse: bool,
                 limit: Option<int>, token: PageKey, filter: Conditions): (r: Result<Page, Error>)
    ensures r.Success? && r.value.next.Some? ==> r.value.next.value != [] && limit.Some? && limit.value != 0
  {
    var withKeys :- Prepare(records, key, sortKey, reverse);
    PreparedKeysNonEmpty(records, key, sortKey, reverse);
    var dropped :- DropThrough(withKeys, token, sortKey, reverse);
    NextKeyNonEmpty(withKeys, token, sortKey, reverse, limit, filter);
    Finish(dropped, limit, filter)
  }

  /** A next token is the key of a kept entry, so it is not empty when no key is. */
  lemma NextKeyNonEmpty(ws: seq<(PageKey, Record)>, token: PageKey, sortKey: Option<string>, reverse: bool,
                        limit: Option<int>, filter: Conditions)
    requires forall m :: 0 <= m < |ws| ==> ws[m].0 != []
    requires DropThrough(ws, token, sortKey, reverse).Success?
    ensures var f := Finish(DropThrough(ws, token, sortKey, reverse).value, limit, filter);
      f.Success? && f.value.next.Some? ==> f.value.next.value != [] && limit.Some? && limit.value != 0
  {
    var d := DropThrough(ws, token, sortKey, reverse).value;
    DroppedKeysNonEmpty(ws, d);
    if Finish(d, limit, filter).Success? {
      FinishNext(d, limit, filter);
      TruncateNextNonEmpty(d, limit);
    }
  }

  lemma DroppedKeysNonEmpty(ws: seq<(PageKey, Record)>, d: seq<(PageKey, Record)>)
    requires forall m :: 0 <= m < |ws| ==> ws[m].0 != []
    requires |d| <= |ws| && d == ws[|ws| - |d|..]
    ensures forall m :: 0 <= m < |d| ==> d[m].0 != []
  {
    forall m | 0 <= m < |d| ensures d[m].0 != [] {
      assert d[m] == ws[|ws| - |d| + m];
    }
  }

  lemma TruncateNextNonEmpty(d: seq<(PageKey, Record)>, limit: Option<int>)
    requires forall m :: 0 <= m < |d| ==> d[m].0 != []
    ensures Truncate(d, limit).Success? && Truncate(d, limit).value.1.Some? ==> Truncate(d, limit).value.1.value != []
  {
    var t := Truncate(d, limit);
    if t.Success? && t.value.1.Some? {
      var kept := t.value.0;
      assert kept[|kept| - 1] == d[|kept| - 1];
    }
  }

  lemma QueryIntro(records: seq<Record>, key: Conditions, sortKey: Option<string>, reverse: bool,
                   limit: Option<int>, token: PageKey, filter: Conditions)
    requires Prepare(records, key, sortKey, reverse).Success?
    requires DropThrough(Prepare(records, key, sortKey, reverse).value, token, sortKey, reverse).Success?
    ensures Query(records, key, sortKey, reverse, limit, token, filter) ==
      Finish(DropThrough(Prepare(records, key, sortKey, reverse).value, token, sortKey, reverse).value, limit, filter)
  {
  }

  /** A successful query went through every stage successfully. */
  lemma QueryStages(records: seq<Record>, key: Conditions, sortKey: Option<string>, reverse: bool,
                    limit: Option<int>, token: PageKey, filter: Conditions)
    requires Query(records, key, sortKey, reverse, limit, token, filter).Success?
    ensures Prepare(records, key, sortKey, reverse).Success?
    ensures DropThrough(Prepare(records, key, sortKey, reverse).value, token, sortKey, reverse).Success?
    ensures Query(records, key, sortKey, reverse, limit, token, filter) ==
      Finish(DropThrough(Prepare(records, key, sortKey, reverse).value, token, sortKey, reverse).value, limit, filter)
  {
  }

  lemma PrepareIntro(records: seq<Record>, key: Conditions, sortKey: Option<string>, reverse: bool)
    requires ValidateOnlySortKey(Partition(key).1, sortKey).Success?
    requires Select(records, Partition(key).0, Partition(key).1).Success?
    requires Order(Select(records, Partition(key).0, Partition(key).1).value, sortKey, reverse).Success?
    ensures Prepare(records, key, sortKey, reverse) ==
      Keyed(Order(Select(records, Partition(key).0, Partition(key).1).value, sortKey, reverse).value, 0, Names(key), sortKey)
  {
  }

  lemma PrepareUnfold(records: seq<Record>, key: Conditions, sortKey: Option<string>, reverse: bool)
    requires Prepare(records, key, sortKey, reverse).Success?
    ensures Select(records, Partition(key).0, Partition(key).1).Success?
    ensures Order(Select(records, Partition(key).0, Partition(key).1).value, sortKey, reverse).Success?
    ensures Records(Prepare(records, key, sortKey, reverse).value) ==
      Order(Select(records, Partition(key).0, Partition(key).1).value, sortKey, reverse).value
  {
    var (eq, conds) := Partition(key);
    var selected := Select(records, eq, conds).value;
    var ordered := Order(selected, sortKey, reverse).value;
    assert Records(Keyed(ordered, 0, Names(key), sortKey).value) == ordered;
  }

  /** The entries `Prepare` pairs with keys are stored records satisfying the key, in sort order. */
  lemma PrepareFacts(records: seq<Record>, key: Conditions, sortKey: Option<string>, reverse: bool)
    requires Prepare(records, key, sortKey, reverse).Success?
    ensures var rs := Records(Prepare(records, key, sortKey, reverse).value);
      (forall i :: 0 <= i < |rs| ==> rs[i] in records && QueryMatches(rs[i], Partition(key).0, Partition(key).1) == Success(true)) &&
      (Given(sortKey) ==> forall i :: 0 <= i < |rs| ==> sortKey.value in rs[i]) &&
      (Given(sortKey) && !reverse ==> Ascending(rs, sortKey.value)) &&
      (Given(sortKey) && reverse ==> Descending(rs, sortKey.value))
  {
    PrepareUnfold(records, key, sortKey, reverse);
    var selected := Select(records, Partition(key).0, Partition(key).1).value;
    var rs := Records(Prepare(records, key, sortKey, reverse).value);
    assert multiset(rs) == multiset(selected);
    forall i | 0 <= i < |rs| ensures rs[i] in selected {
      assert rs[i] in multiset(rs);
    }
  }

  /** Facts about the last stages: the page is drawn from the dropped entries. */
  lemma FinishFacts(dropped: seq<(PageKey, Record)>, limit: Option<int>, filter: Conditions)
    requires Finish(dropped, limit, filter).Success?
    ensures var p := Finish(dropped, limit, filter).value;
      (limit.Some? && limit.value > 0 ==> |p.records| <= limit.value) &&
      (p.next.Some? <==> (limit.Some? && limit.value != 0 && limit.value < |dropped|))
  {
    var kept := Truncate(dropped, limit).value.0;
    var (feq, fconds) := Partition(filter);
    assert |Select(Records(kept), feq, fconds).value| <= |kept|;
  }

  lemma FinishMember(dropped: seq<(PageKey, Record)>, limit: Option<int>, filter: Conditions, x: Record)
    requires Finish(dropped, limit, filter).Success?
    requires x in Finish(dropped, limit, filter).value.records
    ensures x in Records(dropped)
    ensures QueryMatches(x, Partition(filter).0, Partition(filter).1) == Success(true)
  {
    var kept := Truncate(dropped, limit).value.0;
    var (feq, fconds) := Partition(filter);
    assert x in Records(kept);
    var i :| 0 <= i < |Records(kept)| && Records(kept)[i] == x;
    assert Records(dropped)[i] == x;
  }

  lemma FinishOrder(dropped: seq<(PageKey, Record)>, limit: Option<int>, filter: Conditions, k: string, descending: bool)
    requires Finish(dropped, limit, filter).Success?
    requires !descending ==> Ascending(Records(dropped), k)
    requires descending ==> Descending(Records(dropped), k)
    ensures !descending ==> Ascending(Finish(dropped, limit, filter).value.records, k)
    ensures descending ==> Descending(Finish(dropped, limit, filter).value.records, k)
  {
    var kept := Truncate(dropped, limit).value.0;
    var (feq, fconds) := Partition(filter);
    var sub := Records(kept);
    assert forall i :: 0 <= i < |sub| ==> sub[i] == Records(dropped)[i];
    if descending {
      SelectDescending(sub, feq, fconds, k);
    } else {
      SelectAscending(sub, feq, fconds, k);
    }
  }

  /** Dropping a prefix keeps a suffix of the records, so their order and their membership. */
  lemma DropSuffix(ws: seq<(PageKey, Record)>, token: PageKey, sortKey: Option<string>, reverse: bool, k: string)
    requires DropThrough(ws, token, sortKey, reverse).Success?
    ensures var d := Records(DropThrough(ws, token, sortKey, reverse).value);
      (forall x :: x in d ==> x in Records(ws)) &&
      (Ascending(Records(ws), k) ==> Ascending(d, k)) &&
      (Descending(Records(ws), k) ==> Descending(d, k))
  {
    var dw := DropThrough(ws, token, sortKey, reverse).value;
    var d := Records(dw);
    var rw := Records(ws);
    var off := |ws| - |dw|;
    assert d == rw[off..] by {
      assert forall i :: 0 <= i < |d| ==> d[i] == rw[off + i];
    }
    SuffixOrder(rw, off, k);
  }

  /** A suffix holds only records of the whole and keeps its order. */
  lemma SuffixOrder(rs: seq<Record>, off: nat, k: string)
    requires off <= |rs|
    ensures forall x :: x in rs[off..] ==> x in rs
    ensures Ascending(rs, k) ==> Ascending(rs[off..], k)
    ensures Descending(rs, k) ==> Descending(rs[off..], k)
  {
    var d := rs[off..];
    assert forall i :: 0 <= i < |d| ==> d[i] == rs[off + i];
  }

  /** Every returned record is stored and satisfies both the key and the filter conditions. */
  lemma QueryRecordsMatch(records: seq<Record>, key: Conditions, sortKey: Option<string>, reverse: bool,
                          limit: Option<int>, token: PageKey, filter: Conditions, x: Record)
    requires Query(records, key, sortKey, reverse, limit, token, filter).Success?
    requires x in Query(records, key, sortKey, reverse, limit, token, filter).value.records
    ensures x in records
    ensures QueryMatches(x, Partition(key).0, Partition(key).1) == Success(true)
    ensures QueryMatches(x, Partition(filter).0, Partition(filter).1) == Success(true)
  {
    QueryStages(records, key, sortKey, reverse, limit, token, filter);
    var ws := Prepare(records, key, sortKey, reverse).value;
    var dropped := DropThrough(ws, token, sortKey, reverse).value;
    FinishMember(dropped, limit, filter, x);
    DropSuffix(ws, token, sortKey, reverse, "");
    PrepareFacts(records, key, sortKey, reverse);
  }

  /**
   * Without a limit, token or filter, every stored record that satisfies the key is on
   * the page.
   */
  lemma QueryUnlimitedComplete(records: seq<Record>, key: Conditions, sortKey: Option<string>, reverse: bool, x: Record)
    requires Query(records, key, sortKey, reverse, None, [], []).Success?
    requires x in records && QueryMatches(x, Partition(key).0, Partition(key).1) == Success(true)
    ensures x in Query(records, key, sortKey, reverse, None, [], []).value.records
  {
    QueryStages(records, key, sortKey, reverse, None, [], []);
    PrepareUnfold(records, key, sortKey, reverse);
    var ws := Prepare(records, key, sortKey, reverse).value;
    var selected := Select(records, Partition(key).0, Partition(key).1).value;
    assert x in multiset(selected);
    assert x in Records(ws);
    SelectAll(Records(ws));
    assert Partition([]) == ([], []);
    assert Finish(ws, None, []) == Success(Page(Records(ws), None));
  }

  /** With a sort key the page is in sort-key order, descending when reversed. */
  lemma QuerySorted(records: seq<Record>, key: Conditions, sortKey: Option<string>, reverse: bool,
                    limit: Option<int>, token: PageKey, filter: Conditions)
    requires Given(sortKey)
    requires Query(records, key, sortKey, reverse, limit, token, filter).Success?
    ensures var page := Query(records, key, sortKey, reverse, limit, token, filter).value.records;
      (forall x :: x in page ==> sortKey.value in x) &&
      (!reverse ==> Ascending(page, sortKey.value)) &&
      (reverse ==> Descending(page, sortKey.value))
  {
    var k := sortKey.value;
    QueryStages(records, key, sortKey, reverse, limit, token, filter);
    var ws := Prepare(records, key, sortKey, reverse).value;
    var dropped := DropThrough(ws, token, sortKey, reverse).value;
    PrepareFacts(records, key, sortKey, reverse);
    DropSuffix(ws, token, sortKey, reverse, k);
    FinishOrder(dropped, limit, filter, k, reverse);
    var page := Finish(dropped, limit, filter).value.records;
    forall x | x in page ensures k in x {
      FinishMember(dropped, limit, filter, x);
      var i :| 0 <= i < |Records(ws)| && Records(ws)[i] == x;
    }
  }

  /**
   * A positive limit bounds the page, and a next token is returned exactly when the
   * limit cut records off.
   */
  lemma QueryLimit(records: seq<Record>, key: Conditions, sortKey: Option<string>, reverse: bool,
                   limit: Option<int>, token: PageKey, filter: Conditions)
    requires Query(records, key, sortKey, reverse, limit, token, filter).Success?
    ensures var p := Query(records, key, sortKey, reverse, limit, token, filter).value;
      (limit.Some? && limit.value > 0 ==> |p.records| <= limit.value) &&
      (p.next.Some? <==> (limit.Some? && limit.value != 0 &&
        limit.value < |DropThrough(Prepare(records, key, sortKey, reverse).value, token, sortKey, reverse).value|))
  {
    QueryStages(records, key, sortKey, reverse, limit, token, filter);
    FinishFacts(DropThrough(Prepare(records, key, sortKey, reverse).value, token, sortKey, reverse).value, limit, filter);
  }

  /** A selected record has every field the key names. */
  lemma SelectedHasKeyFields(records: seq<Record>, key: Conditions, x: Record)
    requires Select(records, Partition(key).0, Partition(key).1).Success?
    requires x in Select(records, Partition(key).0, Partition(key).1).value
    ensures forall i :: 0 <= i < |key| ==> key[i].0 in x
  {
    var (eq, conds) := Partition(key);
    PartitionEq(key);
    PartitionCond(key);
    assert EqMatches(x, eq) && CondsMatch(x, conds) == Success(true);
    forall i | 0 <= i < |key| ensures key[i].0 in x {
      if key[i].1.Eq? {
        var j :| 0 <= j < |eq| && eq[j] == (key[i].0, key[i].1.value);
        assert Get(x, eq[j].0) == Some(eq[j].1);
      } else {
        var j :| 0 <= j < |conds| && conds[j] == (key[i].0, key[i].1.cond);
        assert conds[j].1.Matches(Get(x, conds[j].0)) == Success(true);
      }
    }
  }

  lemma {:induction false} KeyedSucceeds(rs: seq<Record>, start: nat, key: Conditions, sortKey: Option<string>)
    requires forall i, j :: 0 <= i < |rs| && 0 <= j < |key| ==> key[j].0 in rs[i]
    requires sortKey.Some? ==> forall i :: 0 <= i < |rs| ==> sortKey.value in rs[i]
    ensures Keyed(rs, start, Names(key), sortKey).Success?
  {
    if rs != [] {
      assert ExtractPageKey(start, rs[0], Names(key), sortKey).Success?;
      KeyedSucceeds(rs[1..], start + 1, key, sortKey);
    }
  }

  /**
   * Without a sort key, limit, token or filter the result is every stored record that
   * satisfies the key, in storage order (reversed when asked), with no next token.
   */
  lemma QueryUnpaged(records: seq<Record>, key: Conditions, reverse: bool)
    requires Select(records, Partition(key).0, Partition(key).1).Success?
    ensures var selected := Select(records, Partition(key).0, Partition(key).1).value;
      Query(records, key, None, reverse, None, [], []) ==
      Success(Page(if reverse then Reverse(selected) else selected, None))
  {
    var (eq, conds) := Partition(key);
    var selected := Select(records, eq, conds).value;
    var ordered := if reverse then Reverse(selected) else selected;
    assert Order(selected, None, reverse) == Success(ordered);
    OrderedKeyed(records, key, reverse, ordered);
    var ws := Keyed(ordered, 0, Names(key), None).value;
    PrepareIntro(records, key, None, reverse);
    assert Prepare(records, key, None, reverse) == Success(ws);
    QueryIntro(records, key, None, reverse, None, [], []);
    FinishUnpaged(ws, ordered);
  }

  /** Without a sort key every selected record, in either order, has a page key. */
  lemma OrderedKeyed(records: seq<Record>, key: Conditions, reverse: bool, ordered: seq<Record>)
    requires Select(records, Partition(key).0, Partition(key).1).Success?
    requires var selected := Select(records, Partition(key).0, Partition(key).1).value;
      ordered == if reverse then Reverse(selected) else selected
    ensures Keyed(ordered, 0, Names(key), None).Success?
  {
    var selected := Select(records, Partition(key).0, Partition(key).1).value;
    forall i, j | 0 <= i < |ordered| && 0 <= j < |key| ensures key[j].0 in ordered[i] {
      assert ordered[i] in selected;
      SelectedHasKeyFields(records, key, ordered[i]);
    }
    KeyedSucceeds(ordered, 0, key, None);
  }

  /** Without a limit or filter the last stage keeps every record and gives no next token. */
  lemma FinishUnpaged(ws: seq<(PageKey, Record)>, rs: seq<Record>)
    requires Records(ws) == rs
    ensures Finish(ws, None, []) == Success(Page(rs, None))
  {
    SelectAll(rs);
    assert Partition([]) == ([], []);
    assert Truncate(ws, None) == Success((ws, None));
    FinishIntro(ws, None, []);
  }

  lemma {:induction false} SelectNone(rs: seq<Record>, eq: seq<(string, Value)>, conds: seq<(string, Between)>)
    requires forall i :: 0 <= i < |rs| ==> QueryMatches(rs[i], eq, conds) == Success(false)
    ensures Select(rs, eq, conds) == Success([])
  {
    if rs != [] {
      SelectNone(rs[1..], eq, conds);
    }
  }

  /**
   * The filter applies after the page has been cut, so when the limit cuts the result
   * and the filter rejects every record kept, the page is empty yet carries a next token.
   */
  lemma FilterAfterLimit(records: seq<Record>, key: Conditions, sortKey: Option<string>, reverse: bool,
                         limit: Option<int>, token: PageKey, filter: Conditions)
    requires Prepare(records, key, sortKey, reverse).Success?
    requires DropThrough(Prepare(records, key, sortKey, reverse).value, token, sortKey, reverse).Success?
    requires var dropped := DropThrough(Prepare(records, key, sortKey, reverse).value, token, sortKey, reverse).value;
      limit.Some? && 0 < limit.value < |dropped| &&
      forall i :: 0 <= i < limit.value ==> QueryMatches(dropped[i].1, Partition(filter).0, Partition(filter).1) == Success(false)
    ensures var dropped := DropThrough(Prepare(records, key, sortKey, reverse).value, token, sortKey, reverse).value;
      Query(records, key, sortKey, reverse, limit, token, filter) == Success(Page([], Some(dropped[limit.value - 1].0)))
  {
    var dropped := DropThrough(Prepare(records, key, sortKey, reverse).value, token, sortKey, reverse).value;
    FinishFiltersAll(dropped, limit, filter);
    QueryIntro(records, key, sortKey, reverse, limit, token, filter);
  }

  /** The last stage alone: a cut page whose kept records all fail the filter. */
  lemma FinishFiltersAll(dropped: seq<(PageKey, Record)>, limit: Option<int>, filter: Conditions)
    requires limit.Some? && 0 < limit.value < |dropped|
    requires forall i :: 0 <= i < limit.value ==> QueryMatches(dropped[i].1, Partition(filter).0, Partition(filter).1) == Success(false)
    ensures Finish(dropped, limit, filter) == Success(Page([], Some(dropped[limit.value - 1].0)))
  {
    var t := Truncate(dropped, limit).value;
    var kept := t.0;
    assert |kept| == limit.value && kept == dropped[..limit.value];
    var rs := Records(kept);
    assert forall i :: 0 <= i < |rs| ==> rs[i] == dropped[i].1;
    SelectNone(rs, Partition(filter).0, Partition(filter).1);
    FinishIntro(dropped, limit, filter);
  }

  // ---------------------------------------------------------------------------
  // Following the next token.

  /**
   * The prepared entries are in strict token order: an entry's key compares at or before
   * another's exactly when the entry comes no later. Two entries that share their
   * orderable pair, such as two records of one partition with the same sort value,
   * break it.
   */
  predicate StrictlyOrdered(ws: seq<(PageKey, Record)>, sortKey: Option<string>, reverse: bool) {
    forall i, j :: 0 <= i < |ws| && 0 <= j < |ws| ==> BeforeOrEqual(ws[i].0, ws[j].0, sortKey, reverse) == Success(i <= j)
  }

  /** Strictly ordered keys: exactly the entries up to `m` compare at or before the key of `m`. */
  lemma StrictAt(ws: seq<(PageKey, Record)>, m: nat, sortKey: Option<string>, reverse: bool)
    requires StrictlyOrdered(ws, sortKey, reverse) && m < |ws|
    ensures forall i :: 0 <= i < |ws| ==> BeforeOrEqual(ws[i].0, ws[m].0, sortKey, reverse) == Success(i <= m)
  {
  }

  /** One round of the `pop(0)` loop: drop the first entry when it is at or before the token, else stop. */
  lemma DropThroughStep(ws: seq<(PageKey, Record)>, token: PageKey, sortKey: Option<string>, reverse: bool)
    requires ws != [] && token != []
    ensures BeforeOrEqual(ws[0].0, token, sortKey, reverse) == Success(true) ==>
      DropThrough(ws, token, sortKey, reverse) == DropThrough(ws[1..], token, sortKey, reverse)
    ensures BeforeOrEqual(ws[0].0, token, sortKey, reverse) == Success(false) ==>
      DropThrough(ws, token, sortKey, reverse) == Success(ws)
  {
  }

  /**
   * When exactly the entries up to `m` compare at or before the key of entry `m`, that key
   * as a token drops exactly the entries up to `m`; strictly ordered keys give this for
   * every `m`.
   */
  lemma {:induction false} DropThroughAt(ws: seq<(PageKey, Record)>, n: nat, m: nat, sortKey: Option<string>, reverse: bool)
    requires m < |ws| && n <= m + 1 && ws[m].0 != []
    requires forall i :: 0 <= i < |ws| ==> BeforeOrEqual(ws[i].0, ws[m].0, sortKey, reverse) == Success(i <= m)
    ensures DropThrough(ws[n..], ws[m].0, sortKey, reverse) == Success(ws[m + 1..])
    decreases m + 1 - n
  {
    var tail := ws[n..];
    if tail != [] {
      assert tail[0] == ws[n];
      DropThroughStep(tail, ws[m].0, sortKey, reverse);
      if n <= m {
        assert tail[1..] == ws[n + 1..];
        DropThroughAt(ws, n + 1, m, sortKey, reverse);
      }
    }
  }

  /** Every page key holds the offset or the sort value, so none is empty. */
  lemma PreparedKeysNonEmpty(records: seq<Record>, key: Conditions, sortKey: Option<string>, reverse: bool)
    requires Prepare(records, key, sortKey, reverse).Success?
    ensures forall m :: 0 <= m < |Prepare(records, key, sortKey, reverse).value| ==> Prepare(records, key, sortKey, reverse).value[m].0 != []
  {
    PrepareUnfold(records, key, sortKey, reverse);
    var ordered := Order(Select(records, Partition(key).0, Partition(key).1).value, sortKey, reverse).value;
    var ws := Prepare(records, key, sortKey, reverse).value;
    forall m | 0 <= m < |ws| ensures ws[m].0 != [] {
      assert ExtractPageKey(m, ordered[m], Names(key), sortKey) == Success(ws[m].0);
      if sortKey.None? {
        assert Lookup(ws[m].0, "offset").Some?;
      } else {
        assert Lookup(ws[m].0, sortKey.value).Some?;
      }
    }
  }

  /**
   * With strictly ordered keys, the next token of a cut page drops exactly the entries up
   * to the last one on the page.
   */
  lemma DropPaging(ws: seq<(PageKey, Record)>, token: PageKey, sortKey: Option<string>, reverse: bool, limit: Option<int>)
    requires StrictlyOrdered(ws, sortKey, reverse)
    requires forall m :: 0 <= m < |ws| ==> ws[m].0 != []
    requires DropThrough(ws, token, sortKey, reverse).Success?
    requires Truncate(DropThrough(ws, token, sortKey, reverse).value, limit).Success?
    requires Truncate(DropThrough(ws, token, sortKey, reverse).value, limit).value.1.Some?
    ensures var d := DropThrough(ws, token, sortKey, reverse).value;
      var t := Truncate(d, limit).value;
      DropThrough(ws, t.1.value, sortKey, reverse) == Success(d[|t.0|..])
  {
    var d := DropThrough(ws, token, sortKey, reverse).value;
    var t := Truncate(d, limit).value;
    StrictAt(ws, |ws| - |d| + |t.0| - 1, sortKey, reverse);
    DropPagingSplit(ws, d, t.0, sortKey, reverse);
  }

  /**
   * The same for a suffix `d` of the entries and a non-empty prefix `kept` of it: when the
   * entries at or before the last kept one are exactly those up to it, its key drops
   * everything up to it.
   */
  lemma DropPagingSplit(ws: seq<(PageKey, Record)>, d: seq<(PageKey, Record)>, kept: seq<(PageKey, Record)>,
                        sortKey: Option<string>, reverse: bool)
    requires |d| <= |ws| && d == ws[|ws| - |d|..]
    requires kept != [] && |kept| <= |d| && kept == d[..|kept|]
    requires ws[|ws| - |d| + |kept| - 1].0 != []
    requires forall i :: 0 <= i < |ws| ==>
      BeforeOrEqual(ws[i].0, ws[|ws| - |d| + |kept| - 1].0, sortKey, reverse) == Success(i <= |ws| - |d| + |kept| - 1)
    ensures DropThrough(ws, kept[|kept| - 1].0, sortKey, reverse) == Success(d[|kept|..])
  {
    var m := |ws| - |d| + |kept| - 1;
    SuffixPrefix(ws, d, kept, m);
    DropThroughWhole(ws, m, sortKey, reverse);
  }

  /** `DropThroughAt` from the first entry. */
  lemma DropThroughWhole(ws: seq<(PageKey, Record)>, m: nat, sortKey: Option<string>, reverse: bool)
    requires m < |ws| && ws[m].0 != []
    requires forall i :: 0 <= i < |ws| ==> BeforeOrEqual(ws[i].0, ws[m].0, sortKey, reverse) == Success(i <= m)
    ensures DropThrough(ws, ws[m].0, sortKey, reverse) == Success(ws[m + 1..])
  {
    DropThroughAt(ws, 0, m, sortKey, reverse);
    assert ws[0..] == ws;
  }

  /** Positions in a non-empty prefix `kept` of a suffix `d` of `s`, counted in `s`. */
  lemma SuffixPrefix<T>(s: seq<T>, d: seq<T>, kept: seq<T>, m: nat)
    requires |d| <= |s| && d == s[|s| - |d|..]
    requires kept != [] && |kept| <= |d| && kept == d[..|kept|]
    requires m == |s| - |d| + |kept| - 1
    ensures kept[|kept| - 1] == s[m]
    ensures d[|kept|..] == s[m + 1..]
  {
  }

  /** The next token of the last stage is the one the limit gave. */
  lemma FinishNext(d: seq<(PageKey, Record)>, limit: Option<int>, filter: Conditions)
    requires Finish(d, limit, filter).Success?
    ensures Truncate(d, limit).Success? && Finish(d, limit, filter).value.next == Truncate(d, limit).value.1
  {
  }

  /**
   * The last stage, split at the end of a cut page: the unlimited page of the whole is
   * the cut page followed by the unlimited page of the rest, and it fails exactly when
   * the rest does.
   */
  lemma FinishSplit(d: seq<(PageKey, Record)>, limit: Option<int>, filter: Conditions)
    requires Finish(d, limit, filter).Success?
    ensures var k := |Truncate(d, limit).value.0|;
      (Finish(d[k..], None, filter).Success? <==> Finish(d, None, filter).Success?) &&
      (Finish(d, None, filter).Success? ==>
        Finish(d, None, filter).value == Page(Finish(d, limit, filter).value.records + Finish(d[k..], None, filter).value.records, None))
  {
    var kept := Truncate(d, limit).value.0;
    var k := |kept|;
    var (feq, fconds) := Partition(filter);
    var a, b := Records(kept), Records(d[k..]);
    RecordsSplit(d, k);
    assert kept == d[..k];
    SelectAppendSucceeds(a, b, feq, fconds);
    FinishUnlimited(d, filter);
    FinishUnlimited(d[k..], filter);
    if Select(a + b, feq, fconds).Success? {
      SelectAppend(a, b, feq, fconds);
    }
  }

  /** The records of a keyed list, split at `k`. */
  lemma RecordsSplit(d: seq<(PageKey, Record)>, k: nat)
    requires k <= |d|
    ensures Records(d) == Records(d[..k]) + Records(d[k..])
  {
    var a, b := Records(d[..k]), Records(d[k..]);
    assert forall i :: 0 <= i < |a| ==> a[i] == d[i].1;
    assert forall i :: 0 <= i < |b| ==> b[i] == d[k + i].1;
  }

  /** Filtering two stretches succeeds exactly when filtering each does. */
  lemma SelectAppendSucceeds(a: seq<Record>, b: seq<Record>, eq: seq<(string, Value)>, conds: seq<(string, Between)>)
    ensures Select(a + b, eq, conds).Success? <==> Select(a, eq, conds).Success? && Select(b, eq, conds).Success?
  {
    assert forall i :: 0 <= i < |a| ==> (a + b)[i] == a[i];
    assert forall i :: 0 <= i < |b| ==> (a + b)[|a| + i] == b[i];
  }

  /** Without a limit the last stage is the filter alone, and it gives no token. */
  lemma FinishUnlimited(d: seq<(PageKey, Record)>, filter: Conditions)
    ensures Finish(d, None, filter).Success? <==> Select(Records(d), Partition(filter).0, Partition(filter).1).Success?
    ensures Finish(d, None, filter).Success? ==>
      Finish(d, None, filter).value == Page(Select(Records(d), Partition(filter).0, Partition(filter).1).value, None)
  {
    assert Truncate(d, None) == Success((d, None));
  }

  /**
   * Following `next_page_token`: when the prepared entries are strictly ordered, the page
   * for a token and a limit, followed by the unlimited query from that page's next token,
   * is exactly the unlimited query from the first token, in the same order and with the
   * filter applied; and the one query fails exactly when the other does.
   */
  lemma QueryPaging(records: seq<Record>, key: Conditions, sortKey: Option<string>, reverse: bool,
                    limit: Option<int>, token: PageKey, filter: Conditions)
    requires Query(records, key, sortKey, reverse, limit, token, filter).Success?
    requires Query(records, key, sortKey, reverse, limit, token, filter).value.next.Some?
    requires Prepare(records, key, sortKey, reverse).Success?
    requires StrictlyOrdered(Prepare(records, key, sortKey, reverse).value, sortKey, reverse)
    ensures var page := Query(records, key, sortKey, reverse, limit, token, filter).value;
      var rest := Query(records, key, sortKey, reverse, None, page.next.value, filter);
      var all := Query(records, key, sortKey, reverse, None, token, filter);
      (rest.Success? <==> all.Success?) &&
      (all.Success? ==> all.value == Page(page.records + rest.value.records, None))
  {
    QueryStages(records, key, sortKey, reverse, limit, token, filter);
    var ws := Prepare(records, key, sortKey, reverse).value;
    var d := DropThrough(ws, token, sortKey, reverse).value;
    FinishNext(d, limit, filter);
    PreparedKeysNonEmpty(records, key, sortKey, reverse);
    DropPaging(ws, token, sortKey, reverse, limit);
    var next := Truncate(d, limit).value.1.value;
    QueryIntro(records, key, sortKey, reverse, None, next, filter);
    QueryIntro(records, key, sortKey, reverse, None, token, filter);
    FinishSplit(d, limit, filter);
  }

  /** A page with no next token is the whole of the unlimited query from the same token. */
  lemma QueryLastPage(records: seq<Record>, key: Conditions, sortKey: Option<string>, reverse: bool,
                      limit: Option<int>, token: PageKey, filter: Conditions)
    requires Query(records, key, sortKey, reverse, limit, token, filter).Success?
    requires Query(records, key, sortKey, reverse, limit, token, filter).value.next.None?
    ensures Query(records, key, sortKey, reverse, None, token, filter) == Query(records, key, sortKey, reverse, limit, token, filter)
  {
    QueryStages(records, key, sortKey, reverse, limit, token, filter);
    var ws := Prepare(records, key, sortKey, reverse).value;
    var d := DropThrough(ws, token, sortKey, reverse).value;
    assert Truncate(d, limit).value == (d, None);
    QueryIntro(records, key, sortKey, reverse, None, token, filter);
  }

  /** With one equality field `p` in the key, a page key is that field's value followed by the sort value or the offset. */
  lemma SingleKeyShape(i: nat, r: Record, p: string, n: string, x: Value, sortKey: Option<string>)
    requires p in r && n != p
    requires (sortKey.None? && n == "offset" && x == Num(i)) || (sortKey == Some(n) && n in r && x == r[n])
    ensures ExtractPageKey(i, r, [p], sortKey) == Success([(p, r[p]), (n, x)])
  {
    var base := Project(r, [p]).value;
    assert |Names(base)| == 1 && base[0] == (p, r[p]);
    assert base == [(p, r[p])];
    assert base[1..] == [];
    assert Upsert(base, n, x) == [(p, r[p]), (n, x)];
  }

  /** Such a page key orders by the pair (partition value, sort value or offset). */
  lemma SingleKeyOrderable(p: string, a: Value, n: string, x: Value, sortKey: Option<string>)
    requires n != p && (sortKey.None? || sortKey == Some(n))
    ensures Orderable([(p, a), (n, x)], sortKey) == Success((a, x))
  {
    var names := Names([(p, a), (n, x)]);
    assert names == [p, n];
    assert FirstOther(names, sortKey) == Some(0) by {
      if sortKey.Some? { assert Some(names[0]) != sortKey; }
    }
    assert FirstOther(names, Some(p)) == Some(1) by {
      assert names[1..] == [n];
    }
  }

  /** A key of one equality field splits into that equality alone. */
  lemma PartitionSingle(p: string, v: Value)
    ensures Partition([(p, Eq(v))]) == ([(p, v)], [])
    ensures Names([(p, Eq(v))]) == [p]
  {
    var key := [(p, Eq(v))];
    assert key[0].1 == Eq(v) && key[0].0 == p;
    assert key[1..] == [] && Partition(key[1..]) == ([], []);
    assert [(p, v)] + [] == [(p, v)];
  }

  /** Entry `i` of `Prepare` has the page key `ExtractPageKey` gives its record at position `i`. */
  lemma PreparedKey(records: seq<Record>, key: Conditions, sortKey: Option<string>, reverse: bool, i: nat)
    requires Prepare(records, key, sortKey, reverse).Success?
    requires i < |Prepare(records, key, sortKey, reverse).value|
    ensures var w := Prepare(records, key, sortKey, reverse).value[i];
      ExtractPageKey(i, w.1, Names(key), sortKey) == Success(w.0)
  {
    PrepareUnfold(records, key, sortKey, reverse);
    PrepareIntro(records, key, sortKey, reverse);
  }

  /** The page keys of a query on one equality field `p`. */
  lemma SingleKeys(records: seq<Record>, p: string, v: Value, n: string, sortKey: Option<string>, reverse: bool, i: nat)
    requires n != p && ((sortKey.None? && n == "offset") || sortKey == Some(n))
    requires Prepare(records, [(p, Eq(v))], sortKey, reverse).Success?
    requires i < |Prepare(records, [(p, Eq(v))], sortKey, reverse).value|
    ensures var w := Prepare(records, [(p, Eq(v))], sortKey, reverse).value[i];
      sortKey.Some? ==> n in w.1 && w.0 == [(p, v), (n, w.1[n])]
    ensures var w := Prepare(records, [(p, Eq(v))], sortKey, reverse).value[i];
      sortKey.None? ==> w.0 == [(p, v), (n, Num(i))]
  {
    var key := [(p, Eq(v))];
    var w := Prepare(records, key, sortKey, reverse).value[i];
    PartitionSingle(p, v);
    PreparedKey(records, key, sortKey, reverse, i);
    PrepareFacts(records, key, sortKey, reverse);
    var rs := Records(Prepare(records, key, sortKey, reverse).value);
    assert rs[i] == w.1;
    var eq := [(p, v)];
    assert EqMatches(w.1, eq);
    assert eq[0] == (p, v);
    assert Get(w.1, eq[0].0) == Some(eq[0].1);
    if sortKey.Some? {
      SingleKeyShape(i, w.1, p, n, w.1[n], sortKey);
    } else {
      SingleKeyShape(i, w.1, p, n, Num(i), sortKey);
    }
  }

  /**
   * Without a sort key, a query on one equality field has no ties: the offsets order
   * the page keys strictly, so `QueryPaging` applies.
   */
  lemma OffsetKeysOrdered(records: seq<Record>, p: string, v: Value, reverse: bool)
    requires p != "offset"
    requires Prepare(records, [(p, Eq(v))], None, reverse).Success?
    ensures StrictlyOrdered(Prepare(records, [(p, Eq(v))], None, reverse).value, None, reverse)
  {
    var ws := Prepare(records, [(p, Eq(v))], None, reverse).value;
    forall i, j | 0 <= i < |ws| && 0 <= j < |ws|
      ensures BeforeOrEqual(ws[i].0, ws[j].0, None, reverse) == Success(i <= j)
    {
      SingleKeys(records, p, v, "offset", None, reverse, i);
      SingleKeys(records, p, v, "offset", None, reverse, j);
      SingleKeyOrderable(p, v, "offset", Num(i), None);
      SingleKeyOrderable(p, v, "offset", Num(j), None);
    }
  }

  /** Comparing two page keys of a single-field query with a sort key compares their sort values. */
  lemma SortKeysCompare(p: string, v: Value, s: string, x: Value, y: Value, reverse: bool)
    requires s != p && s != ""
    requires (x.Num? && y.Num?) || (x.Str? && y.Str?)
    requires x != y
    ensures BeforeOrEqual([(p, v), (s, x)], [(p, v), (s, y)], Some(s), reverse) ==
      Success(if reverse then SortLe(y, x) else SortLe(x, y))
  {
    SingleKeyOrderable(p, v, s, x, Some(s));
    SingleKeyOrderable(p, v, s, y, Some(s));
    SortLeAgreesWithLessEq(x, y);
    SortLeAgreesWithLessEq(y, x);
  }

  /** Two distinct numbers or two distinct strings are not both `SortLe` each other. */
  lemma SortLeStrict(x: Value, y: Value)
    requires (x.Num? && y.Num?) || (x.Str? && y.Str?)
    requires SortLe(x, y) && SortLe(y, x)
    ensures x == y
  {
    if x.Str? { Text.LeAntisymmetric(x.s, y.s); }
  }

  /**
   * With a sort key, a query on one equality field has no ties when the selected records
   * hold pairwise different sort values, all numbers or all strings: `QueryPaging` applies.
   */
  lemma SortKeysOrdered(records: seq<Record>, p: string, v: Value, s: string, reverse: bool)
    requires s != p && s != ""
    requires Prepare(records, [(p, Eq(v))], Some(s), reverse).Success?
    requires var rs := Records(Prepare(records, [(p, Eq(v))], Some(s), reverse).value);
      (forall i :: 0 <= i < |rs| ==> FieldValue(rs[i], s).Num?) || (forall i :: 0 <= i < |rs| ==> FieldValue(rs[i], s).Str?)
    requires var rs := Records(Prepare(records, [(p, Eq(v))], Some(s), reverse).value);
      forall i, j :: 0 <= i < j < |rs| ==> FieldValue(rs[i], s) != FieldValue(rs[j], s)
    ensures StrictlyOrdered(Prepare(records, [(p, Eq(v))], Some(s), reverse).value, Some(s), reverse)
  {
    var key := [(p, Eq(v))];
    var ws := Prepare(records, key, Some(s), reverse).value;
    var rs := Records(ws);
    PrepareFacts(records, key, Some(s), reverse);
    forall i, j | 0 <= i < |ws| && 0 <= j < |ws|
      ensures BeforeOrEqual(ws[i].0, ws[j].0, Some(s), reverse) == Success(i <= j)
    {
      SingleKeys(records, p, v, s, Some(s), reverse, i);
      SingleKeys(records, p, v, s, Some(s), reverse, j);
      var x, y := FieldValue(rs[i], s), FieldValue(rs[j], s);
      assert ws[i].0 == [(p, v), (s, x)] && ws[j].0 == [(p, v), (s, y)];
      if i == j {
        SingleKeyOrderable(p, v, s, x, Some(s));
      } else {
        assert x != y;
        assert (x.Num? && y.Num?) || (x.Str? && y.Str?);
        SortKeysCompare(p, v, s, x, y, reverse);
        if i < j {
          assert if reverse then SortLe(y, x) else SortLe(x, y);
        } else {
          assert if reverse then SortLe(x, y) else SortLe(y, x);
          if reverse && SortLe(y, x) { SortLeStrict(x, y); }
          if !reverse && SortLe(x, y) { SortLeStrict(x, y); }
        }
      }
    }
  }

  /** The records of `QueryPagingTie`: all in partition `u`, two of them tied at `ts` 1. */
  predicate TieRecords(a: Record, b: Record, c: Record) {
    Get(a, "user") == Some(Str("u")) && Get(b, "user") == Some(Str("u")) && Get(c, "user") == Some(Str("u")) &&
    Get(a, "ts") == Some(Num(1)) && Get(b, "ts") == Some(Num(1)) && Get(c, "ts") == Some(Num(2))
  }

  lemma TieSelected(a: Record, b: Record, c: Record)
    requires TieRecords(a, b, c)
    ensures Select([a, b, c], [("user", Str("u"))], []) == Success([a, b, c])
  {
    var eq := [("user", Str("u"))];
    assert eq[0] == ("user", Str("u"));
    assert EqMatches(a, eq) && EqMatches(b, eq) && EqMatches(c, eq);
    assert CondsMatch(a, []) == Success(true) && CondsMatch(b, []) == Success(true) && CondsMatch(c, []) == Success(true);
    SelectCons(a, [b, c], eq, []);
    SelectCons(b, [c], eq, []);
    SelectCons(c, [], eq, []);
    assert [a, b, c] == [a] + [b, c] && [b, c] == [b] + [c] && [c] == [c] + [];
    assert Select([], eq, []) == Success([]);
  }

  lemma TieSorted(a: Record, b: Record, c: Record)
    requires TieRecords(a, b, c)
    ensures SortByField([a, b, c], "ts") == [a, b, c]
  {
    assert FieldValue(a, "ts") == Num(1) && FieldValue(b, "ts") == Num(1) && FieldValue(c, "ts") == Num(2);
    assert [a, b, c][1..] == [b, c] && [b, c][1..] == [c] && [c][1..] == [];
    assert SortByField([c], "ts") == [c];
    assert Insert(b, [c], "ts") == [b, c];
    assert SortByField([b, c], "ts") == [b, c];
    assert Insert(a, [b, c], "ts") == [a, b, c];
  }

  /** The keys of one record that has one. */
  lemma KeyedOne(c: Record, i: nat, keyNames: seq<string>, sortKey: Option<string>, kc: PageKey)
    requires ExtractPageKey(i, c, keyNames, sortKey) == Success(kc)
    ensures Keyed([c], i, keyNames, sortKey) == Success([(kc, c)])
  {
    assert [c][1..] == [];
    assert Keyed([], i + 1, keyNames, sortKey) == Success([]);
    KeyedCons([c], i, keyNames, sortKey);
    assert [(kc, c)] + [] == [(kc, c)];
  }

  /** The keys of two records, each of which has one. */
  lemma KeyedTwo(b: Record, c: Record, i: nat, keyNames: seq<string>, sortKey: Option<string>, kb: PageKey, kc: PageKey)
    requires ExtractPageKey(i, b, keyNames, sortKey) == Success(kb)
    requires ExtractPageKey(i + 1, c, keyNames, sortKey) == Success(kc)
    ensures Keyed([b, c], i, keyNames, sortKey) == Success([(kb, b), (kc, c)])
  {
    KeyedOne(c, i + 1, keyNames, sortKey, kc);
    assert [b, c][1..] == [c];
    KeyedCons([b, c], i, keyNames, sortKey);
    assert [(kb, b)] + [(kc, c)] == [(kb, b), (kc, c)];
  }

  /** The keys of three records, each of which has one. */
  lemma KeyedThree(a: Record, b: Record, c: Record, i: nat, keyNames: seq<string>, sortKey: Option<string>,
                   ka: PageKey, kb: PageKey, kc: PageKey)
    requires ExtractPageKey(i, a, keyNames, sortKey) == Success(ka)
    requires ExtractPageKey(i + 1, b, keyNames, sortKey) == Success(kb)
    requires ExtractPageKey(i + 2, c, keyNames, sortKey) == Success(kc)
    ensures Keyed([a, b, c], i, keyNames, sortKey) == Success([(ka, a), (kb, b), (kc, c)])
  {
    KeyedTwo(b, c, i + 1, keyNames, sortKey, kb, kc);
    assert [a, b, c][1..] == [b, c];
    KeyedCons([a, b, c], i, keyNames, sortKey);
    assert [(ka, a)] + [(kb, b), (kc, c)] == [(ka, a), (kb, b), (kc, c)];
  }

  lemma TieKeyed(a: Record, b: Record, c: Record)
    requires TieRecords(a, b, c)
    ensures Keyed([a, b, c], 0, ["user"], Some("ts")) ==
      Success([([("user", Str("u")), ("ts", Num(1))], a), ([("user", Str("u")), ("ts", Num(1))], b),
               ([("user", Str("u")), ("ts", Num(2))], c)])
  {
    assert "ts" != "user" by { assert "ts"[0] != "user"[0]; }
    SingleKeyShape(0, a, "user", "ts", Num(1), Some("ts"));
    SingleKeyShape(1, b, "user", "ts", Num(1), Some("ts"));
    SingleKeyShape(2, c, "user", "ts", Num(2), Some("ts"));
    assert a["user"] == Str("u") && b["user"] == Str("u") && c["user"] == Str("u");
    KeyedThree(a, b, c, 0, ["user"], Some("ts"),
      [("user", Str("u")), ("ts", Num(1))], [("user", Str("u")), ("ts", Num(1))], [("user", Str("u")), ("ts", Num(2))]);
  }

  lemma TiePrepared(a: Record, b: Record, c: Record)
    requires TieRecords(a, b, c)
    ensures Prepare([a, b, c], [("user", Eq(Str("u")))], Some("ts"), false) ==
      Success([([("user", Str("u")), ("ts", Num(1))], a), ([("user", Str("u")), ("ts", Num(1))], b),
               ([("user", Str("u")), ("ts", Num(2))], c)])
  {
    var key := [("user", Eq(Str("u")))];
    var sortKey := Some("ts");
    PartitionSingle("user", Str("u"));
    TieSelected(a, b, c);
    TieOrdered(a, b, c);
    assert ValidateOnlySortKey([], sortKey) == Success(());
    PrepareIntro([a, b, c], key, sortKey, false);
    TieKeyed(a, b, c);
  }

  lemma TieOrdered(a: Record, b: Record, c: Record)
    requires TieRecords(a, b, c)
    ensures Order([a, b, c], Some("ts"), false) == Success([a, b, c])
  {
    TieSorted(a, b, c);
    assert "ts" in a && "ts" in b && "ts" in c;
    assert FieldValue(a, "ts") == Num(1) && FieldValue(b, "ts") == Num(1) && FieldValue(c, "ts") == Num(2);
    AllNumbersThree(a, b, c, "ts");
  }

  lemma AllNumbersThree(a: Record, b: Record, c: Record, k: string)
    requires FieldValue(a, k).Num? && FieldValue(b, k).Num? && FieldValue(c, k).Num?
    ensures AllNumbers([a, b, c], k)
  {
  }

  lemma TieFirstPage(a: Record, b: Record, c: Record)
    requires TieRecords(a, b, c)
    ensures Query([a, b, c], [("user", Eq(Str("u")))], Some("ts"), false, Some(1), [], []) ==
      Success(Page([a], Some([("user", Str("u")), ("ts", Num(1))])))
  {
    var ka := [("user", Str("u")), ("ts", Num(1))];
    var kc := [("user", Str("u")), ("ts", Num(2))];
    var ws := [(ka, a), (ka, b), (kc, c)];
    TiePrepared(a, b, c);
    assert Truncate(ws, Some(1)) == Success(([(ka, a)], Some(ka)));
    SelectAll([a]);
    assert Records([(ka, a)]) == [a];
    QueryIntro([a, b, c], [("user", Eq(Str("u")))], Some("ts"), false, Some(1), [], []);
  }

  /** The token `ka` is at or before itself and before `kc`. */
  lemma TieCompare()
    ensures BeforeOrEqual([("user", Str("u")), ("ts", Num(1))], [("user", Str("u")), ("ts", Num(1))], Some("ts"), false) == Success(true)
    ensures BeforeOrEqual([("user", Str("u")), ("ts", Num(2))], [("user", Str("u")), ("ts", Num(1))], Some("ts"), false) == Success(false)
  {
    assert "ts" != "user" by { assert "ts"[0] != "user"[0]; }
    SingleKeyOrderable("user", Str("u"), "ts", Num(1), Some("ts"));
    SingleKeyOrderable("user", Str("u"), "ts", Num(2), Some("ts"));
  }

  /** Dropping through a token equal to the first two keys drops both entries. */
  lemma DropTie(ka: PageKey, kc: PageKey, x: Record, y: Record, z: Record, sortKey: Option<string>, reverse: bool)
    requires ka != []
    requires BeforeOrEqual(ka, ka, sortKey, reverse) == Success(true)
    requires BeforeOrEqual(kc, ka, sortKey, reverse) == Success(false)
    ensures DropThrough([(ka, x), (ka, y), (kc, z)], ka, sortKey, reverse) == Success([(kc, z)])
  {
    var ws := [(ka, x), (ka, y), (kc, z)];
    DropThroughStep(ws, ka, sortKey, reverse);
    assert ws[1..] == [(ka, y), (kc, z)];
    DropThroughStep(ws[1..], ka, sortKey, reverse);
    assert ws[1..][1..] == [(kc, z)];
    DropThroughStep(ws[1..][1..], ka, sortKey, reverse);
  }

  lemma TieSecondPage(a: Record, b: Record, c: Record)
    requires TieRecords(a, b, c)
    ensures Query([a, b, c], [("user", Eq(Str("u")))], Some("ts"), false, None, [("user", Str("u")), ("ts", Num(1))], []) ==
      Success(Page([c], None))
  {
    var ka := [("user", Str("u")), ("ts", Num(1))];
    var kc := [("user", Str("u")), ("ts", Num(2))];
    TiePrepared(a, b, c);
    TieCompare();
    DropTie(ka, kc, a, b, c, Some("ts"), false);
    SelectAll([c]);
    assert Records([(kc, c)]) == [c];
    QueryIntro([a, b, c], [("user", Eq(Str("u")))], Some("ts"), false, None, ka, []);
  }

  lemma TieAll(a: Record, b: Record, c: Record)
    requires TieRecords(a, b, c)
    ensures Query([a, b, c], [("user", Eq(Str("u")))], Some("ts"), false, None, [], []) == Success(Page([a, b, c], None))
  {
    var ka := [("user", Str("u")), ("ts", Num(1))];
    var kc := [("user", Str("u")), ("ts", Num(2))];
    var ws := [(ka, a), (ka, b), (kc, c)];
    TiePrepared(a, b, c);
    SelectAll([a, b, c]);
    assert Records(ws) == [a, b, c];
    QueryIntro([a, b, c], [("user", Eq(Str("u")))], Some("ts"), false, None, [], []);
  }

  /**
   * As written, paging loses records that tie on the sort value: with two records at
   * `ts` 1, the first page of one record hands out a token equal to the second
   * record's key, and the `while ... pop(0)` loop drops that record too. Following the
   * token yields `[a]` then `[c]`, while the unlimited query yields `[a, b, c]`.
   */
  lemma QueryPagingTie(a: Record, b: Record, c: Record)
    requires TieRecords(a, b, c)
    ensures var key := [("user", Eq(Str("u")))];
      var first := Query([a, b, c], key, Some("ts"), false, Some(1), [], []);
      var all := Query([a, b, c], key, Some("ts"), false, None, [], []);
      first == Success(Page([a], Some([("user", Str("u")), ("ts", Num(1))]))) &&
      Query([a, b, c], key, Some("ts"), false, None, first.value.next.value, []) == Success(Page([c], None)) &&
      all == Success(Page([a, b, c], None))
  {
    TieFirstPage(a, b, c);
    TieSecondPage(a, b, c);
    TieAll(a, b, c);
  }

  // ---------------------------------------------------------------------------
  // Index queries.

  /** `{key: record[key] for key in keep}` for each record; KeyError when a field is missing. */
  function ProjectAll(rs: seq<Record>, keep: set<string>): (r: Result<seq<Record>, Error>)
    ensures r.Success? <==> forall i :: 0 <= i < |rs| ==> keep <= rs[i].Keys
    ensures r.Success? ==> |r.value| == |rs|
    ensures r.Success? ==> forall i :: 0 <= i < |rs| ==> r.value[i].Keys == keep && forall k :: k in keep ==> r.value[i][k] == rs[i][k]
  {
    if rs == [] then Success([])
    else if !(keep <= rs[0].Keys) then Failure(KeyError)
    else
      var rest :- ProjectAll(rs[1..], keep);
      assert forall i :: 1 <= i < |rs| ==> rs[i] == rs[1..][i - 1];
      Success([map k | k in keep :: rs[0][k]] + rest)
  }

  function NameSet(names: seq<string>): (s: set<string>)
    ensures forall n :: n in s <==> n in names
  {
    set n | n in names
  }

  /** The fields a keys-only index keeps: the query's key fields, the index sort key and the table key names. */
  function RetainedFields(key: Conditions, sortKey: Option<string>, tableKeyNames: seq<string>): (s: set<string>)
    ensures forall n :: n in s <==> n in Names(key) || (Given(sortKey) && n == sortKey.value) || n in tableKeyNames
  {
    NameSet(Names(key)) + (if Given(sortKey) then {sortKey.value} else {}) + NameSet(tableKeyNames)
  }

  /** `MemoryStorage.query_index`: the query, projected onto the retained fields for a keys-only index. */
  function QueryIndex(records: seq<Record>, key: Conditions, sortKey: Option<string>, reverse: bool,
                      limit: Option<int>, token: PageKey, keysOnly: bool, tableKeyNames: seq<string>,
                      filter: Conditions): (r: Result<Page, Error>)
    ensures r.Success? ==> Query(records, key, sortKey, reverse, limit, token, filter).Success?
    ensures r.Success? ==> var q := Query(records, key, sortKey, reverse, limit, token, filter).value;
      r.value.next == q.next && |r.value.records| == |q.records|
  {
    var page :- Query(records, key, sortKey, reverse, limit, token, filter);
    if !keysOnly then Success(page)
    else
      var projected :- ProjectAll(page.records, RetainedFields(key, sortKey, tableKeyNames));
      Success(Page(projected, page.next))
  }

  /** An index that projects all attributes answers exactly like the table query. */
  lemma QueryIndexAllAttributes(records: seq<Record>, key: Conditions, sortKey: Option<string>, reverse: bool,
                                limit: Option<int>, token: PageKey, tableKeyNames: seq<string>, filter: Conditions)
    ensures QueryIndex(records, key, sortKey, reverse, limit, token, false, tableKeyNames, filter) ==
      Query(records, key, sortKey, reverse, limit, token, filter)
  {
  }

  /**
   * A keys-only index returns the same page of records, each cut down to exactly the
   * query's key fields, the index sort key and the table key names.
   */
  lemma QueryIndexKeysOnly(records: seq<Record>, key: Conditions, sortKey: Option<string>, reverse: bool,
                           limit: Option<int>, token: PageKey, tableKeyNames: seq<string>, filter: Conditions)
    requires QueryIndex(records, key, sortKey, reverse, limit, token, true, tableKeyNames, filter).Success?
    ensures var r := QueryIndex(records, key, sortKey, reverse, limit, token, true, tableKeyNames, filter).value;
      var q := Query(records, key, sortKey, reverse, limit, token, filter);
      q.Success? && r.next == q.value.next && |r.records| == |q.value.records| &&
      forall i :: 0 <= i < |r.records| ==>
        r.records[i].Keys == RetainedFields(key, sortKey, tableKeyNames) &&
        forall f :: f in r.records[i] ==> f in q.value.records[i] && r.records[i][f] == q.value.records[i][f]
  {
    var q := Query(records, key, sortKey, reverse, limit, token, filter).value;
    var keep := RetainedFields(key, sortKey, tableKeyNames);
    assert ProjectAll(q.records, keep).Success?;
  }

  /** `first_or_none` */
  function FirstOrNone<T>(xs: seq<T>): (r: Option<T>)
    ensures r.None? <==> xs == []
    ensures r.Some? ==> r.value == xs[0]
  {
    if xs == [] then None else Some(xs[0])
  }

  /** `MemoryStorage.get_item`: the first record the key selects. */
  function GetItem(records: seq<Record>, key: Conditions): (r: Result<Option<Record>, Error>)
    ensures r.Success? && r.value.Some? ==>
      r.value.value in records && QueryMatches(r.value.value, Partition(key).0, Partition(key).1) == Success(true)
  {
    var page :- Query(records, key, None, false, None, [], []);
    if page.records == [] then Success(None)
    else
      QueryRecordsMatch(records, key, None, false, None, [], [], page.records[0]);
      Success(FirstOrNone(page.records))
  }

  /** `get_item` finds a record exactly when one satisfies the key, and then the first one in storage order. */
  lemma GetItemFirstMatch(records: seq<Record>, key: Conditions)
    requires Select(records, Partition(key).0, Partition(key).1).Success?
    ensures GetItem(records, key).Success?
    ensures var r := GetItem(records, key).value;
      (r.None? <==> forall x :: x in records ==> QueryMatches(x, Partition(key).0, Partition(key).1) != Success(true)) &&
      (r.Some? ==> exists i :: (0 <= i < |records| && records[i] == r.value &&
        QueryMatches(records[i], Partition(key).0, Partition(key).1) == Success(true) &&
        forall j :: 0 <= j < i ==> QueryMatches(records[j], Partition(key).0, Partition(key).1) == Success(false)))
  {
    QueryUnpaged(records, key, false);
    var (eq, conds) := Partition(key);
    if Select(records, eq, conds).value != [] {
      SelectFirst(records, eq, conds);
    }
  }
}
