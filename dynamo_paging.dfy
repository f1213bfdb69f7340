/**
 * The client-side cursor of website/dynamo.py (`QueryIterator` and its two subclasses):
 * it walks the records of a paged read one at a time, fetching the next page from the
 * backend when the current one is used up, and it can hand out a token of the form
 * `"{backend token}@{position in the page}"` from which a new iterator resumes at the
 * same record.
 *
 * The iterator's state is the `Cursor` datatype; every operation is a function from a
 * cursor to its result and the next cursor, and the `QueryIterator` class keeps the
 * same four fields and updates them in place as those functions say.
 */
module DynamoPaging {
  import opened Wrappers
  import opened Builtins
  import opened DynamoValues
  import Text
  import DynamoQuery
  import DynamoMemory
  import DynamoConditions
  import DynamoTable

  /** `ResultPage(records, next_page_token)`, with the next token already encoded. */
  datatype ResultPage = ResultPage(records: seq<Record>, nextPageToken: Option<string>)

  /** `has_next_page`: the next token is truthy. */
  predicate HasNextPage(p: ResultPage) {
    Given(p.nextPageToken)
  }

  /** `_do_fetch()`: the page the backend returns for a backend token, or what it raises. */
  type Fetch = Option<string> -> Result<ResultPage, Error>

  /** The fields `page`, `i`, `pagination_token` and `have_eof` of a `QueryIterator`. */
  datatype Cursor = Cursor(page: Option<ResultPage>, i: int, token: Option<string>, haveEof: bool)

  /**
   * What every cursor the operations produce satisfies: the position in a loaded page is
   * never negative, and it is past the end of the page only when there is no next page
   * or the page was empty.
   */
  predicate Valid(c: Cursor) {
    c.page.Some? ==> 0 <= c.i && (c.i < |c.page.value.records| || !HasNextPage(c.page.value) || c.haveEof)
  }

  // ---------------------------------------------------------------------------
  // The operations, as functions of the cursor.

  /** `_fetch_next_page()`: back to position 0 of the page for the current token. */
  function FetchPage(fetch: Fetch, c: Cursor): (r: Result<Cursor, Error>)
    ensures r.Success? <==> fetch(c.token).Success?
    ensures r.Failure? ==> r.error == fetch(c.token).error
    ensures r.Success? ==> r.value.page == Some(fetch(c.token).value) && r.value.i == 0 && r.value.token == c.token
    ensures r.Success? ==> (r.value.haveEof <==> fetch(c.token).value.records == [])
  {
    var p :- fetch(c.token);
    Success(Cursor(Some(p), 0, c.token, |p.records| == 0))
  }

  /** The cursor with its page loaded: `if self.page is None: self._fetch_next_page()`. */
  function Loaded(fetch: Fetch, c: Cursor): (r: Result<Cursor, Error>)
  {
    if c.page.None? then FetchPage(fetch, c) else Success(c)
  }

  /**
   * `eof`: true at once when the last fetched page was empty; otherwise the page is
   * loaded and the cursor is at the end exactly when it is past the page and there is
   * no next page.
   */
  function AtEnd(fetch: Fetch, c: Cursor): (r: Result<(bool, Cursor), Error>)
    ensures c.haveEof ==> r == Success((true, c))
    ensures c.page.Some? ==> r.Success? && r.value.1 == c
    ensures r.Success? ==> r.value.1.token == c.token
    ensures r.Success? && !c.haveEof ==>
      r.value.1.page.Some? && (r.value.0 <==> r.value.1.i >= |r.value.1.page.value.records| && !HasNextPage(r.value.1.page.value))
  {
    if c.haveEof then Success((true, c))
    else
      var d :- Loaded(fetch, c);
      Success((d.i >= |d.page.value.records| && !HasNextPage(d.page.value), d))
  }

  /**
   * `advance()`: with no page loaded it only fetches one; otherwise it moves one record
   * on, and when that leaves the page and there is a next one, it takes the next token
   * and drops the page so that the next look fetches it. (The source's check for a
   * `None` token after this step can never be true, since the token was truthy.)
   */
  function Step(fetch: Fetch, c: Cursor): (r: Result<Cursor, Error>)
    ensures c.page.None? ==> r == FetchPage(fetch, c)
    ensures c.page.Some? ==> r.Success? && r.value.i == c.i + 1 && r.value.haveEof == c.haveEof
    ensures c.page.Some? && r.value.page.None? ==>
      c.i + 1 >= |c.page.value.records| && HasNextPage(c.page.value) && r.value.token == c.page.value.nextPageToken
    ensures c.page.Some? && r.value.page.Some? ==> r.value.page == c.page && r.value.token == c.token
  {
    if c.page.None? then FetchPage(fetch, c)
    else
      var p := c.page.value;
      if c.i + 1 >= |p.records| && HasNextPage(p) then Success(Cursor(None, c.i + 1, p.nextPageToken, c.haveEof))
      else Success(c.(i := c.i + 1))
  }

  /** `current`: the record under the cursor; at the end it raises RuntimeError. */
  function Peek(fetch: Fetch, c: Cursor): (r: Result<(Record, Cursor), Error>)
    ensures r.Success? ==> r.value.1.page.Some? && r.value.0 in r.value.1.page.value.records
    ensures r.Success? ==> AtEnd(fetch, r.value.1) == Success((false, r.value.1))
  {
    var d :- Loaded(fetch, c);
    var (eof, e) :- AtEnd(fetch, d);
    if eof then Failure(RuntimeError)
    else
      var x :- Index(e.page.value.records, e.i);
      Success((x, e))
  }

  /** `pagination_token or ""` */
  function TokenText(token: Option<string>): string {
    if Given(token) then token.value else ""
  }

  /** `next_page_token`: `None` at the end, else the backend token and the position, joined by `@`. */
  function ResumeToken(fetch: Fetch, c: Cursor): (r: Result<(Option<string>, Cursor), Error>)
    ensures r.Success? <==> AtEnd(fetch, c).Success?
    ensures r.Success? ==> r.value.1 == AtEnd(fetch, c).value.1 && (r.value.0.None? <==> AtEnd(fetch, c).value.0)
    ensures r.Success? && r.value.0.Some? ==> '@' in r.value.0.value
  {
    var (eof, d) :- AtEnd(fetch, c);
    if eof then Success((None, d))
    else Success((Some(TokenText(d.token) + "@" + Text.IntToString(d.i)), d))
  }

  /**
   * `_analyze_pagination_token(x)`: no (or an empty) token means the first page from its
   * start; otherwise the text before the first `@` is the backend token (empty for
   * none) and the text after it the number of records to skip. A token without `@`
   * raises IndexError, a count that is no integer ValueError.
   */
  function AnalyzeToken(x: Option<string>): (r: Result<(Option<string>, int), Error>)
    ensures !Given(x) ==> r == Success((None, 0))
    ensures Given(x) && '@' !in x.value ==> r == Failure(IndexError)
    ensures r.Failure? ==> r.error == IndexError || r.error == ValueError
    ensures r.Success? && r.value.0.Some? ==> r.value.0.value != "" && '@' !in r.value.0.value
  {
    if !Given(x) then Success((None, 0))
    else
      var parts := Text.Split(x.value, '@');
      SplitFacts(x.value, '@');
      if |parts| < 2 then Failure(IndexError)
      else
        match Text.ParseInt(parts[1])
        case None => Failure(ValueError)
        case Some(n) => Success((if parts[0] == "" then None else Some(parts[0]), n))
  }

  /** No part of a split holds the separator, and text without it is one part. */
  lemma SplitFacts(s: string, sep: char)
    ensures forall i :: 0 <= i < |Text.Split(s, sep)| ==> sep !in Text.Split(s, sep)[i]
    ensures sep !in s ==> Text.Split(s, sep) == [s]
  {
    SplitPartsFree(s, sep);
    if sep !in s {
      Text.SplitNoSeparator(s, sep);
    }
  }

  lemma {:induction false} SplitPartsFree(s: string, sep: char)
    ensures forall i :: 0 <= i < |Text.Split(s, sep)| ==> sep !in Text.Split(s, sep)[i]
    decreases |s|
  {
    if s != [] {
      SplitPartsFree(s[1..], sep);
    }
  }

  /**
   * The skipping loop of the constructor: while not at the end (asked first, so the
   * first page is always fetched) and fewer than `n` records were skipped, advance.
   */
  function Drop(fetch: Fetch, c: Cursor, k: int, n: int): (r: Result<Cursor, Error>)
    decreases n - k
  {
    var (eof, d) :- AtEnd(fetch, c);
    if eof || k >= n then Success(d)
    else
      var e :- Step(fetch, d);
      Drop(fetch, e, k + 1, n)
  }

  /** `QueryIterator(pagination_token)`: analyse the token, then skip that many records. */
  function Init(fetch: Fetch, x: Option<string>): (r: Result<Cursor, Error>)
    ensures AnalyzeToken(x).Failure? ==> r == Failure(AnalyzeToken(x).error)
    ensures AnalyzeToken(x).Success? && fetch(AnalyzeToken(x).value.0).Failure? ==>
      r == Failure(fetch(AnalyzeToken(x).value.0).error)
  {
    var (token, n) :- AnalyzeToken(x);
    Drop(fetch, Cursor(None, 0, token, false), 0, n)
  }

  /** `PythonQueryIterator.__next__`: `None` stands for StopIteration. */
  function NextRecord(fetch: Fetch, c: Cursor): (r: Result<(Option<Record>, Cursor), Error>)
    ensures r.Success? && r.value.0.None? ==> AtEnd(fetch, c) == Success((true, r.value.1))
    ensures r.Success? && r.value.0.Some? ==>
      AtEnd(fetch, c).Success? && !AtEnd(fetch, c).value.0 &&
      Peek(fetch, AtEnd(fetch, c).value.1).Success? && Peek(fetch, AtEnd(fetch, c).value.1).value.0 == r.value.0.value
  {
    var (eof, d) :- AtEnd(fetch, c);
    if eof then Success((None, d))
    else
      var (x, e) :- Peek(fetch, d);
      Success((Some(x), Step(fetch, e).value))
  }

  /** Up to `n` calls of `__next__`, collecting the records until StopIteration. */
  function NextN(fetch: Fetch, c: Cursor, n: nat): (r: Result<(seq<Record>, Cursor), Error>)
    decreases n
  {
    if n == 0 then Success(([], c))
    else
      var (x, d) :- NextRecord(fetch, c);
      if x.None? then Success(([], d))
      else
        var (rest, e) :- NextN(fetch, d, n - 1);
        Success(([x.value] + rest, e))
  }

  // ---------------------------------------------------------------------------
  // What the operations keep and promise.

  lemma FetchPageValid(fetch: Fetch, c: Cursor)
    ensures FetchPage(fetch, c).Success? ==> Valid(FetchPage(fetch, c).value)
    ensures FetchPage(fetch, c).Success? <==> fetch(c.token).Success?
  {
  }

  /** Every operation turns a valid cursor into a valid one. */
  lemma AtEndValid(fetch: Fetch, c: Cursor)
    requires Valid(c)
    ensures AtEnd(fetch, c).Success? ==> Valid(AtEnd(fetch, c).value.1)
  {
  }

  lemma StepValid(fetch: Fetch, c: Cursor)
    requires Valid(c)
    ensures Step(fetch, c).Success? ==> Valid(Step(fetch, c).value)
  {
  }

  /** On a valid cursor that is not at the end, `current` never runs off its page. */
  lemma PeekInPage(fetch: Fetch, c: Cursor)
    requires Valid(c)
    ensures Peek(fetch, c).Success? ==> Valid(Peek(fetch, c).value.1)
    ensures Peek(fetch, c).Failure? ==>
      Peek(fetch, c).error == RuntimeError || Loaded(fetch, c).Failure?
  {
    var d := Loaded(fetch, c);
    if d.Success? {
      AtEndValid(fetch, d.value);
    }
  }

  lemma {:induction false} DropValid(fetch: Fetch, c: Cursor, k: int, n: int)
    requires Valid(c)
    ensures Drop(fetch, c, k, n).Success? ==> Valid(Drop(fetch, c, k, n).value)
    decreases n - k
  {
    AtEndValid(fetch, c);
    var r := AtEnd(fetch, c);
    if r.Success? && !r.value.0 && k < n {
      StepValid(fetch, r.value.1);
      var e := Step(fetch, r.value.1);
      if e.Success? {
        DropValid(fetch, e.value, k + 1, n);
      }
    }
  }

  lemma InitValid(fetch: Fetch, x: Option<string>)
    ensures Init(fetch, x).Success? ==> Valid(Init(fetch, x).value)
  {
    var a := AnalyzeToken(x);
    if a.Success? {
      DropValid(fetch, Cursor(None, 0, a.value.0, false), 0, a.value.1);
    }
  }

  /** Once an empty page has been fetched the iterator is at its end, whatever token that page carried. */
  lemma EmptyPageEnds(fetch: Fetch, c: Cursor)
    requires FetchPage(fetch, c).Success?
    requires FetchPage(fetch, c).value.page.value.records == []
    ensures var d := FetchPage(fetch, c).value;
      AtEnd(fetch, d) == Success((true, d)) &&
      Step(fetch, d).Success? && AtEnd(fetch, Step(fetch, d).value).Success? &&
      AtEnd(fetch, Step(fetch, d).value).value.0
  {
  }

  /** Before the end, `__next__` yields the record under the cursor and moves one on. */
  lemma NextRecordYields(fetch: Fetch, c: Cursor)
    requires Valid(c) && c.page.Some? && !c.haveEof
    requires c.i < |c.page.value.records|
    ensures var p := c.page.value;
      NextRecord(fetch, c) == Success((Some(p.records[c.i]),
        if c.i + 1 >= |p.records| && HasNextPage(p) then Cursor(None, c.i + 1, p.nextPageToken, false)
        else c.(i := c.i + 1)))
  {
  }

  /** A token the cursor hands out is split back into the backend token and the position. */
  lemma AnalyzeNextToken(token: Option<string>, i: int)
    requires token.None? || Given(token)
    requires token.Some? ==> '@' !in token.value
    ensures AnalyzeToken(Some(TokenText(token) + "@" + Text.IntToString(i))) == Success((token, i))
  {
    var t := TokenText(token);
    var digits := Text.IntToString(i);
    var x := t + "@" + digits;
    assert x == t + ['@'] + digits;
    Text.SplitAtSeparator(t, '@', digits);
    assert '@' !in digits by {
      if i < 0 {
        Text.NatToStringHasNo(-i, '@');
        assert digits == "-" + Text.NatToString(-i);
      } else {
        Text.NatToStringHasNo(i, '@');
      }
    }
    Text.SplitNoSeparator(digits, '@');
    assert Text.Split(x, '@') == [t, digits];
    Text.ParseIntOfString(i);
  }

  /** Skipping on a loaded page that the skipped records do not run past. */
  lemma {:induction false} DropWithinPage(fetch: Fetch, p: ResultPage, token: Option<string>, k: int, n: int)
    requires 0 <= k <= n < |p.records|
    ensures Drop(fetch, Cursor(Some(p), k, token, false), k, n) == Success(Cursor(Some(p), n, token, false))
    decreases n - k
  {
    if k < n {
      DropWithinPage(fetch, p, token, k + 1, n);
    }
  }

  /**
   * Resuming: the token a cursor hands out before its end, on the page it fetched for its
   * backend token, gives a new iterator that stands on the same record of the same page.
   * (A backend token never holds `@`: it is URL-safe base64.)
   */
  lemma ResumeAtSamePlace(fetch: Fetch, c: Cursor)
    requires Valid(c) && c.page.Some? && !c.haveEof
    requires fetch(c.token) == Success(c.page.value)
    requires c.token.None? || Given(c.token)
    requires c.token.Some? ==> '@' !in c.token.value
    requires AtEnd(fetch, c) == Success((false, c))
    ensures ResumeToken(fetch, c).Success? && ResumeToken(fetch, c).value.0.Some?
    ensures Init(fetch, ResumeToken(fetch, c).value.0) == Success(c)
  {
    var p := c.page.value;
    var x := TokenText(c.token) + "@" + Text.IntToString(c.i);
    assert ResumeToken(fetch, c) == Success((Some(x), c));
    AnalyzeNextToken(c.token, c.i);
    var start := Cursor(None, 0, c.token, false);
    var first := Cursor(Some(p), 0, c.token, false);
    assert AtEnd(fetch, start) == Success((false, first));
    assert Init(fetch, Some(x)) == Drop(fetch, start, 0, c.i);
    if c.i > 0 {
      assert Step(fetch, first) == Success(Cursor(Some(p), 1, c.token, false));
      assert Drop(fetch, start, 0, c.i) == Drop(fetch, Cursor(Some(p), 1, c.token, false), 1, c.i);
      DropWithinPage(fetch, p, c.token, 1, c.i);
    } else {
      assert Drop(fetch, start, 0, c.i) == Success(first);
    }
    assert c == Cursor(Some(p), c.i, c.token, false);
  }

  /** Walking a cursor through the rest of a last page yields the rest of its records. */
  lemma {:induction false} NextNRest(fetch: Fetch, p: ResultPage, token: Option<string>, k: nat)
    requires !HasNextPage(p) && k <= |p.records|
    ensures NextN(fetch, Cursor(Some(p), k, token, false), |p.records| - k + 1) ==
      Success((p.records[k..], Cursor(Some(p), |p.records|, token, false)))
    decreases |p.records| - k
  {
    var c := Cursor(Some(p), k, token, false);
    if k < |p.records| {
      var d := Cursor(Some(p), k + 1, token, false);
      NextRecordYields(fetch, c);
      assert NextRecord(fetch, c) == Success((Some(p.records[k]), d));
      NextNRest(fetch, p, token, k + 1);
      assert NextN(fetch, d, |p.records| - k) == Success((p.records[k + 1..], Cursor(Some(p), |p.records|, token, false)));
      assert [p.records[k]] + p.records[k + 1..] == p.records[k..];
    } else {
      assert NextRecord(fetch, c) == Success((None, c));
      assert p.records[k..] == [];
    }
  }

  /**
   * Iterating from no token over a read that fits one page yields exactly that page's
   * records, in order, and then stops.
   */
  lemma SinglePageIteration(fetch: Fetch, p: ResultPage)
    requires fetch(None) == Success(p) && !HasNextPage(p)
    ensures Init(fetch, None).Success?
    ensures NextN(fetch, Init(fetch, None).value, |p.records| + 1).Success?
    ensures NextN(fetch, Init(fetch, None).value, |p.records| + 1).value.0 == p.records
  {
    var first := Cursor(Some(p), 0, None, |p.records| == 0);
    assert Init(fetch, None) == Success(first);
    if p.records == [] {
      assert NextRecord(fetch, first) == Success((None, first));
    } else {
      NextNRest(fetch, p, None, 0);
    }
  }

  // ---------------------------------------------------------------------------
  // The two backends: `GetManyIterator` and `ScanIterator`.

  /**
   * `encode_page_token` and `decode_page_token` for one kind of pagination key. The
   * real pair is base64 over JSON; the model takes any pair of functions.
   */
  datatype Codec<!K> = Codec(encode: K -> string, decode: string -> Result<K, Error>)

  /** `decode_page_token(x)`: `None` stays `None`. */
  function DecodeToken<K>(codec: Codec<K>, t: Option<string>): Result<Option<K>, Error> {
    if t.None? then Success(None)
    else
      var k :- codec.decode(t.value);
      Success(Some(k))
  }

  /** `encode_page_token(x)`: `None` stays `None`. */
  function EncodeNext<K>(codec: Codec<K>, next: Option<K>): Option<string> {
    if next.Some? then Some(codec.encode(next.value)) else None
  }

  /**
   * `GetManyIterator._do_fetch`: `table.get_many(key, reverse, batch_size, token)` on the
   * records stored when the iterator was made.
   */
  function GetManyFetch(s: DynamoTable.Schema, stored: seq<Record>, key: DynamoConditions.Conditions, reverse: bool,
                        batchSize: Option<int>, codec: Codec<DynamoQuery.PageKey>): Fetch
  {
    (t: Option<string>) =>
      var token :- DecodeToken(codec, t);
      var page :- DynamoTable.ManyPage(s, stored, key, reverse, batchSize, token.GetOr([]), []);
      Success(ResultPage(page.records, EncodeNext(codec, page.next)))
  }

  /** `ScanIterator._do_fetch`: `table.scan(limit, token)`; a scan token carries an offset. */
  function ScanFetch(stored: seq<Record>, limit: Option<int>, codec: Codec<int>): Fetch
  {
    (t: Option<string>) =>
      var offset :- DecodeToken(codec, t);
      var (items, next) := DynamoMemory.ScanPage(stored, limit, offset);
      Success(ResultPage(items, EncodeNext(codec, next)))
  }

  /** A scan fetch for a token that decodes back to an offset reads the page at that offset. */
  lemma ScanFetchAt(stored: seq<Record>, limit: Option<int>, codec: Codec<int>, offset: int)
    requires codec.decode(codec.encode(offset)) == Success(offset)
    ensures var page := DynamoMemory.ScanPage(stored, limit, Some(offset));
      ScanFetch(stored, limit, codec)(Some(codec.encode(offset))) == Success(ResultPage(page.0, EncodeNext(codec, page.1)))
  {
  }

  /** Iterating a scan without a limit yields every stored record, in storage order. */
  lemma ScanIteratesAll(stored: seq<Record>, codec: Codec<int>)
    ensures Init(ScanFetch(stored, None, codec), None).Success?
    ensures var fetch := ScanFetch(stored, None, codec);
      NextN(fetch, Init(fetch, None).value, |stored| + 1).Success? &&
      NextN(fetch, Init(fetch, None).value, |stored| + 1).value.0 == stored
  {
    var fetch := ScanFetch(stored, None, codec);
    var p := ResultPage(stored, None);
    assert fetch(None) == Success(p);
    SinglePageIteration(fetch, p);
  }

  /** Iterating `get_all` without a batch size yields exactly the records of one unlimited `get_many`. */
  lemma GetAllIteratesPage(s: DynamoTable.Schema, stored: seq<Record>, key: DynamoConditions.Conditions, reverse: bool,
                           codec: Codec<DynamoQuery.PageKey>)
    requires DynamoTable.ManyPage(s, stored, key, reverse, None, [], []).Success?
    ensures var fetch := GetManyFetch(s, stored, key, reverse, None, codec);
      Init(fetch, None).Success? &&
      NextN(fetch, Init(fetch, None).value, |DynamoTable.ManyPage(s, stored, key, reverse, None, [], []).value.records| + 1).Success? &&
      NextN(fetch, Init(fetch, None).value, |DynamoTable.ManyPage(s, stored, key, reverse, None, [], []).value.records| + 1).value.0
        == DynamoTable.ManyPage(s, stored, key, reverse, None, [], []).value.records
  {
    var fetch := GetManyFetch(s, stored, key, reverse, None, codec);
    var page := DynamoTable.ManyPage(s, stored, key, reverse, None, [], []).value;
    DynamoTable.ManyPageUnlimited(s, stored, key, reverse, []);
    var p := ResultPage(page.records, None);
    assert fetch(None) == Success(p);
    SinglePageIteration(fetch, p);
  }

  /** `GetManyIterator(table, key, reverse, batch_size, pagination_token)` over the table's current records. */
  method GetManyIterator(table: DynamoTable.Table, key: DynamoConditions.Conditions, reverse: bool, batchSize: Option<int>,
                         x: Option<string>, codec: Codec<DynamoQuery.PageKey>) returns (r: Result<QueryIterator, Error>)
    ensures var fetch := GetManyFetch(table.schema, table.Stored(), key, reverse, batchSize, codec);
      (r.Success? <==> Init(fetch, x).Success?) &&
      (r.Success? ==> fresh(r.value) && r.value.fetch == fetch && Init(fetch, x) == Success(r.value.State()))
  {
    r := QueryIterator.New(GetManyFetch(table.schema, table.Stored(), key, reverse, batchSize, codec), x);
  }

  /** `Table.get_all(key, reverse, batch_size)`: a `GetManyIterator` from the start. */
  method GetAll(table: DynamoTable.Table, key: DynamoConditions.Conditions, reverse: bool, batchSize: Option<int>,
                codec: Codec<DynamoQuery.PageKey>) returns (r: Result<QueryIterator, Error>)
    ensures var fetch := GetManyFetch(table.schema, table.Stored(), key, reverse, batchSize, codec);
      (r.Success? <==> Init(fetch, None).Success?) &&
      (r.Success? ==> fresh(r.value) && r.value.fetch == fetch && Init(fetch, None) == Success(r.value.State()))
  {
    r := GetManyIterator(table, key, reverse, batchSize, None, codec);
  }

  /** `ScanIterator(table, limit, pagination_token)` over the table's current records. */
  method ScanIterator(table: DynamoTable.Table, limit: Option<int>, x: Option<string>, codec: Codec<int>)
    returns (r: Result<QueryIterator, Error>)
    ensures var fetch := ScanFetch(table.Stored(), limit, codec);
      (r.Success? <==> Init(fetch, x).Success?) &&
      (r.Success? ==> fresh(r.value) && r.value.fetch == fetch && Init(fetch, x) == Success(r.value.State()))
  {
    r := QueryIterator.New(ScanFetch(table.Stored(), limit, codec), x);
  }

  // ---------------------------------------------------------------------------
  // The iterator object.

  class QueryIterator {
    const fetch: Fetch
    var page: Option<ResultPage>
    var i: int
    var paginationToken: Option<string>
    var haveEof: bool

    function State(): Cursor
      reads this
    {
      Cursor(page, i, paginationToken, haveEof)
    }

    /** The fields before the skipping loop: no page, nothing known about the end. */
    constructor Start(fetch: Fetch, token: Option<string>)
      ensures this.fetch == fetch
      ensures State() == Cursor(None, 0, token, false)
    {
      this.fetch := fetch;
      page := None;
      i := 0;
      paginationToken := token;
      haveEof := false;
    }

    /**
     * `QueryIterator(pagination_token)`: a new iterator that has analysed the token and
     * skipped the records it counts, or the error that analysis or a fetch raised.
     */
    static method New(fetch: Fetch, x: Option<string>) returns (r: Result<QueryIterator, Error>)
      ensures r.Success? <==> Init(fetch, x).Success?
      ensures r.Success? ==> fresh(r.value) && r.value.fetch == fetch && Init(fetch, x) == Success(r.value.State())
      ensures r.Failure? ==> Init(fetch, x) == Failure(r.error)
    {
      var analysed := AnalyzeToken(x);
      if analysed.Failure? {
        return Failure(analysed.error);
      }
      var (token, n) := analysed.value;
      var it := new QueryIterator.Start(fetch, token);
      var k := 0;
      while true
        invariant it.fetch == fetch && fresh(it)
        invariant Init(fetch, x) == Drop(fetch, it.State(), k, n)
        decreases n - k
      {
        var eof := it.Eof();
        if eof.Failure? {
          return Failure(eof.error);
        }
        if eof.value || k >= n {
          break;
        }
        var advanced := it.Advance();
        if advanced.Failure? {
          assert false;
        }
        k := k + 1;
      }
      r := Success(it);
    }

    /** `_fetch_next_page()` */
    method FetchNextPage() returns (r: Result<(), Error>)
      modifies this
      ensures r.Success? <==> FetchPage(fetch, old(State())).Success?
      ensures r.Success? ==> State() == FetchPage(fetch, old(State())).value
      ensures r.Failure? ==> FetchPage(fetch, old(State())) == Failure(r.error)
    {
      var p := fetch(paginationToken);
      if p.Failure? {
        return Failure(p.error);
      }
      i := 0;
      page := Some(p.value);
      haveEof := |p.value.records| == 0;
      r := Success(());
    }

    /** `eof` */
    method Eof() returns (r: Result<bool, Error>)
      modifies this
      ensures r.Success? <==> AtEnd(fetch, old(State())).Success?
      ensures r.Success? ==> AtEnd(fetch, old(State())).value == (r.value, State())
      ensures r.Failure? ==> AtEnd(fetch, old(State())) == Failure(r.error)
    {
      if haveEof {
        return Success(true);
      }
      if page.None? {
        var fetched := FetchNextPage();
        if fetched.Failure? {
          return Failure(fetched.error);
        }
      }
      r := Success(i >= |page.value.records| && !HasNextPage(page.value));
    }

    /** `advance()` */
    method Advance() returns (r: Result<(), Error>)
      modifies this
      ensures r.Success? <==> Step(fetch, old(State())).Success?
      ensures r.Success? ==> State() == Step(fetch, old(State())).value
      ensures r.Failure? ==> Step(fetch, old(State())) == Failure(r.error)
    {
      if page.None? {
        r := FetchNextPage();
        return;
      }
      i := i + 1;
      if i >= |page.value.records| && HasNextPage(page.value) {
        paginationToken := page.value.nextPageToken;
        page := None;
      }
      r := Success(());
    }

    /** `current` */
    method Current() returns (r: Result<Record, Error>)
      modifies this
      ensures r.Success? <==> Peek(fetch, old(State())).Success?
      ensures r.Success? ==> Peek(fetch, old(State())).value == (r.value, State())
      ensures r.Failure? ==> Peek(fetch, old(State())).error == r.error
    {
      if page.None? {
        var fetched := FetchNextPage();
        if fetched.Failure? {
          return Failure(fetched.error);
        }
      }
      var eof := Eof();
      if eof.Failure? {
        assert false;
      }
      if eof.value {
        return Failure(RuntimeError);
      }
      r := Index(page.value.records, i);
    }

    /** `next_page_token` */
    method NextPageToken() returns (r: Result<Option<string>, Error>)
      modifies this
      ensures r.Success? <==> ResumeToken(fetch, old(State())).Success?
      ensures r.Success? ==> ResumeToken(fetch, old(State())).value == (r.value, State())
      ensures r.Failure? ==> ResumeToken(fetch, old(State())) == Failure(r.error)
    {
      var eof := Eof();
      if eof.Failure? {
        return Failure(eof.error);
      }
      if eof.value {
        return Success(None);
      }
      r := Success(Some(TokenText(paginationToken) + "@" + Text.IntToString(i)));
    }

    /** `PythonQueryIterator.__next__`: `None` stands for StopIteration. */
    method Next() returns (r: Result<Option<Record>, Error>)
      modifies this
      ensures r.Success? <==> NextRecord(fetch, old(State())).Success?
      ensures r.Success? ==> NextRecord(fetch, old(State())).value == (r.value, State())
      ensures r.Failure? ==> NextRecord(fetch, old(State())).error == r.error
    {
      var eof := Eof();
      if eof.Failure? {
        return Failure(eof.error);
      }
      if eof.value {
        return Success(None);
      }
      var x := Current();
      if x.Failure? {
        return Failure(x.error);
      }
      var advanced := Advance();
      if advanced.Failure? {
        assert false;
      }
      r := Success(Some(x.value));
    }
  }
}
