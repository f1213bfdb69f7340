/**
 * The aggregation helpers of website/statistics.py: program-run and quiz records are
 * grouped under a `#`-joined key of some of their fields, their counters are summed per
 * group, and the key is split back into typed fields. Beside them: score minimum and
 * maximum, the graph window, URL arguments, per-level quiz progress and the id
 * allocation for common errors.
 */
module Statistics {
  import opened Wrappers
  import opened Builtins
  import Text
  import opened Hedy

  /** `MAX_COMMON_ERRORS` of `LiveStatisticsModule`. */
  const MAX_COMMON_ERRORS: int := 10

  // ---------------------------------------------------------------------------
  // Statistics records.

  /** A field value of a statistics record: a number, a text or a list of numbers. */
  datatype StatValue = Num(n: int) | Str(s: string) | Nums(xs: seq<int>)

  /** A statistics record: its fields in the dict's order. */
  type StatRecord = seq<(string, StatValue)>

  /** `rec.get(name)` */
  function Get(rec: StatRecord, name: string): (r: Option<StatValue>)
    ensures r.Some? <==> exists i :: 0 <= i < |rec| && rec[i].0 == name
    ensures r.Some? ==> (name, r.value) in rec
  {
    if rec == [] then None
    else if rec[0].0 == name then Some(rec[0].1)
    else
      var r := Get(rec[1..], name);
      assert forall i :: 0 < i < |rec| ==> rec[i] == rec[1..][i - 1];
      r
  }

  /** `str(v)` */
  function Show(v: StatValue): string {
    match v
    case Num(n) => Text.IntToString(n)
    case Str(s) => s
    case Nums(xs) => "[" + Text.Join(", ", seq(|xs|, i requires 0 <= i < |xs| => Text.IntToString(xs[i]))) + "]"
  }

  // ---------------------------------------------------------------------------
  // `_aggregate_key` and `_split_keys_data`.

  /** The type a key field is converted back to: `int` or `str`. */
  datatype KeyClass = IntKey | StrKey

  /** `Key(name, class_)` */
  datatype Key = Key(name: string, class_: KeyClass)

  /** `str(record[key.name])` for every key, in order; a missing field raises KeyError. */
  function KeyTexts(rec: StatRecord, keys: seq<Key>): (r: Result<seq<string>, Error>)
    ensures r.Failure? ==> r.error == KeyError
  {
    if keys == [] then Success([])
    else
      match Get(rec, keys[0].name)
      case None => Failure(KeyError)
      case Some(v) =>
        var rest :- KeyTexts(rec, keys[1..]);
        Success([Show(v)] + rest)
  }

  /** The key texts are there exactly when every key field is, and are those fields' texts. */
  lemma {:induction false} KeyTextsFields(rec: StatRecord, keys: seq<Key>)
    ensures KeyTexts(rec, keys).Success? <==> forall i :: 0 <= i < |keys| ==> Get(rec, keys[i].name).Some?
    ensures KeyTexts(rec, keys).Success? ==> |KeyTexts(rec, keys).value| == |keys|
    ensures KeyTexts(rec, keys).Success? ==>
      forall i :: 0 <= i < |keys| ==> KeyTexts(rec, keys).value[i] == Show(Get(rec, keys[i].name).value)
  {
    if keys != [] {
      KeyTextsFields(rec, keys[1..]);
      assert forall i :: 0 < i < |keys| ==> keys[i] == keys[1..][i - 1];
    }
  }

  /** `_aggregate_key(record, keys)`: the key fields' texts joined by `#`. */
  function AggregateKey(rec: StatRecord, keys: seq<Key>): (r: Result<string, Error>)
    ensures r.Success? <==> KeyTexts(rec, keys).Success?
    ensures r.Failure? ==> r.error == KeyError
  {
    var parts :- KeyTexts(rec, keys);
    Success(Text.Join("#", parts))
  }

  /** `class_(text)`: `int` raises ValueError on text that is not a number. */
  function Convert(c: KeyClass, text: string): (r: Result<StatValue, Error>)
    ensures r.Failure? ==> r.error == ValueError
    ensures c == StrKey ==> r == Success(Str(text))
  {
    match c
    case StrKey => Success(Str(text))
    case IntKey =>
      match Text.ParseInt(text)
      case None => Failure(ValueError)
      case Some(n) => Success(Num(n))
  }

  /** A value whose text `Convert` turns back into the value itself. */
  predicate RoundTrips(c: KeyClass, v: StatValue) {
    (c == IntKey && v.Num?) || (c == StrKey && v.Str?)
  }

  lemma ConvertShow(c: KeyClass, v: StatValue)
    requires RoundTrips(c, v)
    ensures Convert(c, Show(v)) == Success(v)
  {
    if c == IntKey {
      Text.ParseIntOfString(v.n);
    }
  }

  /**
   * `{keys[i].name: keys[i].class_(values[i]) for i in range(len(keys))}`; a later key
   * of the same name wins, and too few values raise IndexError.
   */
  function KeyMap(values: seq<string>, keys: seq<Key>): (r: Result<map<string, StatValue>, Error>)
    ensures r.Success? ==> |values| >= |keys|
    ensures |values| < |keys| ==> r.Failure?
    ensures r.Success? ==> forall i :: 0 <= i < |keys| ==> keys[i].name in r.value
    ensures r.Failure? ==> r.error == IndexError || r.error == ValueError
  {
    if keys == [] then Success(map[])
    else
      var m :- KeyMap(values, keys[..|keys| - 1]);
      var text :- Index(values, |keys| - 1);
      var v :- Convert(keys[|keys| - 1].class_, text);
      assert forall i :: 0 <= i < |keys| - 1 ==> keys[i] == keys[..|keys| - 1][i];
      Success(m[keys[|keys| - 1].name := v])
  }

  /** The map holds exactly the key names. */
  lemma {:induction false} KeyMapKeys(values: seq<string>, keys: seq<Key>)
    requires KeyMap(values, keys).Success?
    ensures KeyMap(values, keys).value.Keys == set i | 0 <= i < |keys| :: keys[i].name
  {
    if keys != [] {
      var front := keys[..|keys| - 1];
      KeyMapKeys(values, front);
      var names := set i | 0 <= i < |keys| :: keys[i].name;
      var before := set i | 0 <= i < |front| :: front[i].name;
      assert names == before + {keys[|keys| - 1].name} by {
        forall k | k in names ensures k in before + {keys[|keys| - 1].name} {
          var i :| 0 <= i < |keys| && keys[i].name == k;
          if i < |front| {
            assert front[i] == keys[i];
          }
        }
        forall k | k in before ensures k in names {
          var i :| 0 <= i < |front| && front[i].name == k;
          assert keys[i] == front[i];
        }
      }
    }
  }

  /** The result of `_split_keys_data`: the typed key fields, and the aggregated data under `data`. */
  datatype Grouped = Grouped(fields: map<string, StatValue>, data: Entry)

  /** `_split_keys_data(k, v, keys)`: a key field named `data` is overwritten by the data. */
  function SplitKeysData(k: string, v: Entry, keys: seq<Key>): (r: Result<Grouped, Error>)
    ensures r.Success? ==> r.value.data == v && "data" !in r.value.fields
    ensures r.Failure? ==> r.error == IndexError || r.error == ValueError
  {
    var fields :- KeyMap(Text.Split(k, '#'), keys);
    Success(Grouped(fields - {"data"}, v))
  }

  lemma {:induction false} KeyMapOfTexts(rec: StatRecord, keys: seq<Key>, values: seq<string>)
    requires |values| >= |keys|
    requires forall i :: 0 <= i < |keys| ==>
      Get(rec, keys[i].name).Some? && Convert(keys[i].class_, values[i]) == Success(Get(rec, keys[i].name).value)
    ensures KeyMap(values, keys).Success?
    ensures forall i :: 0 <= i < |keys| ==> KeyMap(values, keys).value[keys[i].name] == Get(rec, keys[i].name).value
  {
    if keys != [] {
      var front, last := keys[..|keys| - 1], keys[|keys| - 1];
      KeyMapOfTexts(rec, front, values);
      var m := KeyMap(values, front).value;
      var v := Get(rec, last.name).value;
      assert Index(values, |keys| - 1) == Success(values[|keys| - 1]);
      assert KeyMap(values, keys) == Success(m[last.name := v]);
      forall i | 0 <= i < |keys|
        ensures m[last.name := v][keys[i].name] == Get(rec, keys[i].name).value
      {
        if i < |keys| - 1 && keys[i].name != last.name {
          assert keys[i] == front[i];
        }
      }
    }
  }

  /**
   * Splitting an aggregate key gives back every key field's value, when no field's
   * text holds a `#` and every field converts back to itself.
   */
  lemma SplitAggregateKey(rec: StatRecord, keys: seq<Key>, v: Entry)
    requires forall i :: 0 <= i < |keys| ==> Get(rec, keys[i].name).Some?
    requires forall i :: 0 <= i < |keys| ==> '#' !in Show(Get(rec, keys[i].name).value)
    requires forall i :: 0 <= i < |keys| ==> RoundTrips(keys[i].class_, Get(rec, keys[i].name).value)
    ensures AggregateKey(rec, keys).Success?
    ensures SplitKeysData(AggregateKey(rec, keys).value, v, keys).Success?
    ensures SplitKeysData(AggregateKey(rec, keys).value, v, keys).value.data == v
    ensures forall i :: 0 <= i < |keys| && keys[i].name != "data" ==>
      SplitKeysData(AggregateKey(rec, keys).value, v, keys).value.fields[keys[i].name] == Get(rec, keys[i].name).value
  {
    KeyTextsFields(rec, keys);
    var parts := KeyTexts(rec, keys).value;
    var key := Text.Join("#", parts);
    assert AggregateKey(rec, keys) == Success(key);
    SplitJoined(parts);
    var values := Text.Split(key, '#');
    forall i | 0 <= i < |keys|
      ensures Convert(keys[i].class_, values[i]) == Success(Get(rec, keys[i].name).value)
    {
      assert values[i] == parts[i] == Show(Get(rec, keys[i].name).value);
      ConvertShow(keys[i].class_, Get(rec, keys[i].name).value);
    }
    KeyMapOfTexts(rec, keys, values);
    var fields := KeyMap(values, keys).value;
    var grouped := Grouped(fields - {"data"}, v);
    assert SplitKeysData(key, v, keys) == Success(grouped);
    forall i | 0 <= i < |keys| && keys[i].name != "data"
      ensures grouped.fields[keys[i].name] == Get(rec, keys[i].name).value
    {
      assert keys[i].name in fields;
      assert grouped.fields[keys[i].name] == fields[keys[i].name];
    }
  }

  lemma SplitJoined(parts: seq<string>)
    requires forall i :: 0 <= i < |parts| ==> '#' !in parts[i]
    ensures |Text.Split(Text.Join("#", parts), '#')| >= |parts|
    ensures forall i :: 0 <= i < |parts| ==> Text.Split(Text.Join("#", parts), '#')[i] == parts[i]
  {
    if parts != [] {
      Text.SplitJoin(parts, '#');
    }
  }

  // ---------------------------------------------------------------------------
  // Aggregated counters.

  /** The dict of `_initialize()`, with the exception counters beside the fixed ones. */
  datatype Entry = Entry(failedRuns: int, successfulRuns: int, anonymousRuns: int, loggedRuns: int,
                         studentRuns: int, userTypeUnknownRuns: int, totalAttempts: int,
                         completedAttempts: int, scores: seq<int>, exceptions: map<string, int>)

  /** `_initialize()` */
  function Initialize(): (e: Entry)
    ensures e.failedRuns == 0 && e.successfulRuns == 0
    ensures e.anonymousRuns == 0 && e.loggedRuns == 0 && e.studentRuns == 0 && e.userTypeUnknownRuns == 0
    ensures e.totalAttempts == 0 && e.completedAttempts == 0
    ensures e.scores == [] && |e.exceptions| == 0
  {
    Entry(0, 0, 0, 0, 0, 0, 0, 0, [], map[])
  }

  /** Runs attributed to some user type. */
  function UserTypeRuns(e: Entry): int {
    e.anonymousRuns + e.loggedRuns + e.studentRuns + e.userTypeUnknownRuns
  }

  /** The values of `UserType`. */
  predicate IsUserType(id: Option<StatValue>) {
    id == Some(Str("@all")) || id == Some(Str("@all-anonymous")) ||
    id == Some(Str("@all-logged")) || id == Some(Str("@all-students"))
  }

  /** `rec.get(name) or 0`, added to a number: a non-empty text or list raises TypeError. */
  function NumberOr0(v: Option<StatValue>): (r: Result<int, Error>)
    ensures r.Failure? ==> r.error == TypeError
    ensures v == None || v == Some(Num(0)) || v == Some(Str("")) || v == Some(Nums([])) ==> r == Success(0)
    ensures v.Some? && v.value.Num? ==> r == Success(v.value.n)
  {
    match v
    case None => Success(0)
    case Some(Num(n)) => Success(n)
    case Some(Str(s)) => if s == "" then Success(0) else Failure(TypeError)
    case Some(Nums(xs)) => if xs == [] then Success(0) else Failure(TypeError)
  }

  /** `rec.get(name) or []`, added to a list of scores. */
  function NumbersOrEmpty(v: Option<StatValue>): (r: Result<seq<int>, Error>)
    ensures r.Failure? ==> r.error == TypeError
    ensures v.Some? && v.value.Nums? ==> r == Success(v.value.xs)
    ensures v == None ==> r == Success([])
  {
    match v
    case None => Success([])
    case Some(Nums(xs)) => Success(xs)
    case Some(Num(n)) => if n == 0 then Success([]) else Failure(TypeError)
    case Some(Str(s)) => if s == "" then Success([]) else Failure(TypeError)
  }

  /** `_add_user_type_runs(data, id_, value)`: the value goes to the counter of the id's user type, if any. */
  function AddUserTypeRuns(e: Entry, id: Option<StatValue>, value: int): (r: Entry)
    ensures UserTypeRuns(r) == UserTypeRuns(e) + (if IsUserType(id) then value else 0)
    ensures id == Some(Str("@all-students")) ==> r.studentRuns == e.studentRuns + value
    ensures r.failedRuns == e.failedRuns && r.successfulRuns == e.successfulRuns
    ensures r.totalAttempts == e.totalAttempts && r.completedAttempts == e.completedAttempts
    ensures r.scores == e.scores && r.exceptions == e.exceptions
  {
    e.(anonymousRuns := e.anonymousRuns + (if id == Some(Str("@all-anonymous")) then value else 0),
       loggedRuns := e.loggedRuns + (if id == Some(Str("@all-logged")) then value else 0),
       studentRuns := e.studentRuns + (if id == Some(Str("@all-students")) then value else 0),
       userTypeUnknownRuns := e.userTypeUnknownRuns + (if id == Some(Str("@all")) then value else 0))
  }

  /** A field counted as an exception: its name, lower-cased, ends in `exception`. */
  predicate IsException(name: string) {
    Text.EndsWith(Text.Lower(name), "exception")
  }

  /** The sum of a record's exception counts; other fields count 0. */
  function ExceptionRuns(rec: StatRecord): int {
    if rec == [] then 0
    else
      ExceptionRuns(rec[..|rec| - 1]) +
      (if IsException(rec[|rec| - 1].0) && rec[|rec| - 1].1.Num? then rec[|rec| - 1].1.n else 0)
  }

  /** One exception field: counted under its name, and as failed runs of the user type `id` when asked. */
  function AddException(e: Entry, name: string, v: StatValue, includeFailedRuns: bool, id: Option<StatValue>): (r: Result<Entry, Error>)
    ensures r.Success? <==> v.Num?
    ensures r.Failure? ==> r.error == TypeError
  {
    if !v.Num? then Failure(TypeError)
    else
      var counted := e.(exceptions := e.exceptions[name := (if name in e.exceptions then e.exceptions[name] else 0) + v.n]);
      if includeFailedRuns then
        Success(AddUserTypeRuns(counted.(failedRuns := counted.failedRuns + v.n), id, v.n))
      else Success(counted)
  }

  /**
   * `_add_exception_data(entry, data, include_failed_runs)` with the id that the failed
   * runs are attributed to as a parameter: every exception field of the record is added
   * to the entry, in the record's order.
   */
  function AddExceptionData(e: Entry, rec: StatRecord, includeFailedRuns: bool, id: Option<StatValue>): (r: Result<Entry, Error>)
    ensures r.Failure? ==> r.error == TypeError
    ensures r.Success? ==> r.value.successfulRuns == e.successfulRuns && r.value.scores == e.scores
    ensures r.Success? ==> r.value.totalAttempts == e.totalAttempts && r.value.completedAttempts == e.completedAttempts
    ensures r.Success? ==> r.value.failedRuns == e.failedRuns + (if includeFailedRuns then ExceptionRuns(rec) else 0)
    ensures r.Success? ==>
      UserTypeRuns(r.value) == UserTypeRuns(e) + (if includeFailedRuns && IsUserType(id) then ExceptionRuns(rec) else 0)
  {
    if rec == [] then Success(e)
    else
      var prefix := rec[..|rec| - 1];
      var before :- AddExceptionData(e, prefix, includeFailedRuns, id);
      var (name, v) := rec[|rec| - 1];
      if IsException(name) then AddException(before, name, v, includeFailedRuns, id) else Success(before)
  }

  /** The exception counters after a record: the ones before, and one per exception field of the record. */
  lemma {:induction false} AddExceptionDataKeys(e: Entry, rec: StatRecord, includeFailedRuns: bool, id: Option<StatValue>, k: string)
    requires AddExceptionData(e, rec, includeFailedRuns, id).Success?
    ensures k in AddExceptionData(e, rec, includeFailedRuns, id).value.exceptions <==>
      k in e.exceptions || exists i :: 0 <= i < |rec| && rec[i].0 == k && IsException(k)
  {
    if rec != [] {
      var prefix := rec[..|rec| - 1];
      AddExceptionDataKeys(e, prefix, includeFailedRuns, id, k);
      assert forall i :: 0 <= i < |rec| - 1 ==> rec[i] == prefix[i];
    }
  }

  /** The loop of `_add_exception_data` over the record's exception fields. */
  method AddExceptionDataLoop(e: Entry, rec: StatRecord, includeFailedRuns: bool, id: Option<StatValue>)
    returns (r: Result<Entry, Error>)
    ensures r == AddExceptionData(e, rec, includeFailedRuns, id)
  {
    var entry := e;
    var i := 0;
    while i < |rec|
      invariant 0 <= i <= |rec|
      invariant AddExceptionData(e, rec[..i], includeFailedRuns, id) == Success(entry)
    {
      AddExceptionDataStep(e, rec, i, includeFailedRuns, id);
      var (name, v) := rec[i];
      if IsException(name) {
        var next := AddException(entry, name, v, includeFailedRuns, id);
        if next.Failure? {
          AddExceptionDataFails(e, rec, i + 1, includeFailedRuns, id);
          return next;
        }
        entry := next.value;
      }
      i := i + 1;
    }
    assert rec[..i] == rec;
    return Success(entry);
  }

  /** One more field after the first `i`. */
  lemma AddExceptionDataStep(e: Entry, rec: StatRecord, i: nat, includeFailedRuns: bool, id: Option<StatValue>)
    requires i < |rec|
    ensures AddExceptionData(e, rec[..i + 1], includeFailedRuns, id) ==
      match AddExceptionData(e, rec[..i], includeFailedRuns, id)
      case Failure(err) => Failure(err)
      case Success(before) =>
        if IsException(rec[i].0) then AddException(before, rec[i].0, rec[i].1, includeFailedRuns, id) else Success(before)
  {
    var whole := rec[..i + 1];
    assert whole != [] && whole[..|whole| - 1] == rec[..i] && whole[|whole| - 1] == rec[i];
  }

  /** Once a prefix fails, the whole record fails with the same error. */
  lemma {:induction false} AddExceptionDataFails(e: Entry, rec: StatRecord, n: nat, includeFailedRuns: bool, id: Option<StatValue>)
    requires n <= |rec|
    requires AddExceptionData(e, rec[..n], includeFailedRuns, id).Failure?
    ensures AddExceptionData(e, rec, includeFailedRuns, id) == AddExceptionData(e, rec[..n], includeFailedRuns, id)
    decreases |rec| - n
  {
    if n < |rec| {
      assert rec[..n + 1][..n] == rec[..n];
      AddExceptionDataFails(e, rec, n + 1, includeFailedRuns, id);
    } else {
      assert rec[..n] == rec;
    }
  }

  /**
   * The body of `_add_program_run_data(data, rec)`, with the id that the failed runs of
   * the record's exceptions are attributed to as a parameter: a fresh entry when there is
   * none; the record's successful runs are added, also to the counter of the record's
   * user type, and then its exceptions.
   */
  function RunData(data: Option<Entry>, rec: StatRecord, failedId: Option<StatValue>): (r: Result<Entry, Error>)
    ensures r.Failure? ==> r.error == TypeError
    ensures r.Success? ==> NumberOr0(Get(rec, "successful_runs")).Success?
    ensures r.Success? ==>
      r.value.successfulRuns == data.GetOr(Initialize()).successfulRuns + NumberOr0(Get(rec, "successful_runs")).value
    ensures r.Success? ==> r.value.failedRuns == data.GetOr(Initialize()).failedRuns + ExceptionRuns(rec)
    ensures r.Success? ==>
      UserTypeRuns(r.value) == UserTypeRuns(data.GetOr(Initialize())) +
        (if IsUserType(Get(rec, "id")) then r.value.successfulRuns - data.GetOr(Initialize()).successfulRuns else 0) +
        (if IsUserType(failedId) then ExceptionRuns(rec) else 0)
    ensures r.Success? ==> r.value.totalAttempts == data.GetOr(Initialize()).totalAttempts
    ensures r.Success? ==> r.value.completedAttempts == data.GetOr(Initialize()).completedAttempts
    ensures r.Success? ==> r.value.scores == data.GetOr(Initialize()).scores
  {
    var value :- NumberOr0(Get(rec, "successful_runs"));
    AddExceptionData(Counted(data, rec, value), rec, true, failedId)
  }

  /** Whether an exception record raises does not depend on the id its failed runs go to. */
  lemma {:induction false} AddExceptionDataSameOutcome(e: Entry, rec: StatRecord, id1: Option<StatValue>, id2: Option<StatValue>)
    ensures AddExceptionData(e, rec, true, id1).Success? <==> AddExceptionData(e, rec, true, id2).Success?
    ensures AddExceptionData(e, rec, true, id1).Success? ==>
      AddExceptionData(e, rec, true, id1).value.successfulRuns == AddExceptionData(e, rec, true, id2).value.successfulRuns
  {
    if rec != [] {
      AddExceptionDataSameOutcome(e, rec[..|rec| - 1], id1, id2);
    }
  }

  /** The entry with the record's successful runs counted, before its exceptions. */
  function Counted(data: Option<Entry>, rec: StatRecord, value: int): Entry {
    var e := data.GetOr(Initialize());
    AddUserTypeRuns(e.(successfulRuns := e.successfulRuns + value), Get(rec, "id"), value)
  }

  lemma RunDataUnfold(data: Option<Entry>, rec: StatRecord, failedId: Option<StatValue>)
    requires NumberOr0(Get(rec, "successful_runs")).Success?
    ensures RunData(data, rec, failedId) ==
      AddExceptionData(Counted(data, rec, NumberOr0(Get(rec, "successful_runs")).value), rec, true, failedId)
  {
  }

  /** Whether a record raises does not depend on the id its failed runs go to. */
  lemma RunDataSameOutcome(data: Option<Entry>, rec: StatRecord, id1: Option<StatValue>, id2: Option<StatValue>)
    ensures RunData(data, rec, id1).Success? <==> RunData(data, rec, id2).Success?
  {
    if NumberOr0(Get(rec, "successful_runs")).Success? {
      var counted := Counted(data, rec, NumberOr0(Get(rec, "successful_runs")).value);
      AddExceptionDataSameOutcome(counted, rec, id1, id2);
      RunDataUnfold(data, rec, id1);
      RunDataUnfold(data, rec, id2);
    }
  }

  /**
   * `_add_program_run_data(data, rec)` AS WRITTEN: the failed runs of the record's
   * exceptions are attributed to the user type of `entry.get("id")`, and the aggregated
   * entry has no `id` field.
   */
  function AddProgramRunDataAsWritten(data: Option<Entry>, rec: StatRecord): (r: Result<Entry, Error>)
    ensures r.Success? ==> NumberOr0(Get(rec, "successful_runs")).Success?
    ensures r.Success? ==>
      r.value.successfulRuns == data.GetOr(Initialize()).successfulRuns + NumberOr0(Get(rec, "successful_runs")).value
    ensures r.Success? ==> r.value.failedRuns == data.GetOr(Initialize()).failedRuns + ExceptionRuns(rec)
    ensures r.Success? ==>
      UserTypeRuns(r.value) - UserTypeRuns(data.GetOr(Initialize())) ==
      (if IsUserType(Get(rec, "id")) then r.value.successfulRuns - data.GetOr(Initialize()).successfulRuns else 0)
  {
    NoneHasNoUserType();
    RunData(data, rec, None)
  }

  /**
   * A record of a known user type with failed runs: as written, those failed runs are
   * missing from the user-type counters, which the corrected version counts.
   */
  lemma FailedRunsNotAttributed(data: Option<Entry>, rec: StatRecord)
    requires IsUserType(Get(rec, "id")) && ExceptionRuns(rec) != 0
    requires AddProgramRunDataAsWritten(data, rec).Success?
    ensures AddProgramRunData(data, rec).Success?
    ensures UserTypeRuns(AddProgramRunDataAsWritten(data, rec).value) !=
      UserTypeRuns(data.GetOr(Initialize())) +
      (AddProgramRunDataAsWritten(data, rec).value.successfulRuns - data.GetOr(Initialize()).successfulRuns) +
      (AddProgramRunDataAsWritten(data, rec).value.failedRuns - data.GetOr(Initialize()).failedRuns)
    ensures UserTypeRuns(AddProgramRunData(data, rec).value) - UserTypeRuns(AddProgramRunDataAsWritten(data, rec).value) ==
      ExceptionRuns(rec)
  {
    RunDataSameOutcome(data, rec, None, Get(rec, "id"));
  }

  /**
   * `_add_program_run_data(data, rec)`: a fresh entry when there is none; the record's
   * successful runs, and the failed runs of its exceptions, are added, both also to the
   * counter of the record's user type.
   */
  function AddProgramRunData(data: Option<Entry>, rec: StatRecord): (r: Result<Entry, Error>)
    ensures r.Failure? ==> r.error == TypeError
    ensures r.Success? ==> NumberOr0(Get(rec, "successful_runs")).Success?
    ensures r.Success? ==>
      r.value.successfulRuns == data.GetOr(Initialize()).successfulRuns + NumberOr0(Get(rec, "successful_runs")).value
    ensures r.Success? ==> r.value.failedRuns == data.GetOr(Initialize()).failedRuns + ExceptionRuns(rec)
    ensures r.Success? && IsUserType(Get(rec, "id")) ==>
      UserTypeRuns(r.value) - UserTypeRuns(data.GetOr(Initialize())) ==
      (r.value.successfulRuns - data.GetOr(Initialize()).successfulRuns) + (r.value.failedRuns - data.GetOr(Initialize()).failedRuns)
    ensures r.Success? && !IsUserType(Get(rec, "id")) ==> UserTypeRuns(r.value) == UserTypeRuns(data.GetOr(Initialize()))
    ensures r.Success? ==> r.value.totalAttempts == data.GetOr(Initialize()).totalAttempts
    ensures r.Success? ==> r.value.completedAttempts == data.GetOr(Initialize()).completedAttempts
    ensures r.Success? ==> r.value.scores == data.GetOr(Initialize()).scores
  {
    RunData(data, rec, Get(rec, "id"))
  }

  /** `_add_quiz_data(data, rec)`: started and finished attempts and the scores are added. */
  function AddQuizData(data: Option<Entry>, rec: StatRecord): (r: Result<Entry, Error>)
    ensures r.Failure? ==> r.error == TypeError
    ensures r.Success? ==> NumberOr0(Get(rec, "started")).Success? && NumberOr0(Get(rec, "finished")).Success?
    ensures r.Success? ==> r.value.totalAttempts == data.GetOr(Initialize()).totalAttempts + NumberOr0(Get(rec, "started")).value
    ensures r.Success? ==> r.value.completedAttempts == data.GetOr(Initialize()).completedAttempts + NumberOr0(Get(rec, "finished")).value
    ensures r.Success? ==> NumbersOrEmpty(Get(rec, "scores")).Success?
    ensures r.Success? ==> r.value.scores == data.GetOr(Initialize()).scores + NumbersOrEmpty(Get(rec, "scores")).value
    ensures r.Success? ==> r.value.successfulRuns == data.GetOr(Initialize()).successfulRuns
    ensures r.Success? ==> r.value.failedRuns == data.GetOr(Initialize()).failedRuns
    ensures r.Success? ==> UserTypeRuns(r.value) == UserTypeRuns(data.GetOr(Initialize()))
  {
    var e := data.GetOr(Initialize());
    var started :- NumberOr0(Get(rec, "started"));
    var finished :- NumberOr0(Get(rec, "finished"));
    var scores :- NumbersOrEmpty(Get(rec, "scores"));
    Success(e.(totalAttempts := e.totalAttempts + started, completedAttempts := e.completedAttempts + finished,
               scores := e.scores + scores))
  }

  // ---------------------------------------------------------------------------
  // `_aggregate_for_keys`

  /** The aggregation dict: aggregate keys with their entries, in insertion order. */
  type Groups = seq<(string, Entry)>

  predicate DistinctKeys(g: Groups) {
    forall i, j :: 0 <= i < j < |g| ==> g[i].0 != g[j].0
  }

  /** `result.get(key)` */
  function Find(g: Groups, key: string): (r: Option<Entry>)
    ensures r.Some? ==> (key, r.value) in g
    ensures r.None? ==> forall i :: 0 <= i < |g| ==> g[i].0 != key
  {
    if g == [] then None
    else if g[0].0 == key then Some(g[0].1)
    else
      var r := Find(g[1..], key);
      assert forall i :: 0 < i < |g| ==> g[i] == g[1..][i - 1];
      r
  }

  /** `result[key] = e`: replaced in place, or added at the end. */
  function Store(g: Groups, key: string, e: Entry): (r: Groups)
    requires DistinctKeys(g)
    ensures DistinctKeys(r)
    ensures forall i :: 0 <= i < |r| ==> r[i].0 == key || exists j :: 0 <= j < |g| && g[j].0 == r[i].0
    ensures Find(r, key) == Some(e)
    ensures forall k :: k != key ==> Find(r, k) == Find(g, k)
  {
    if g == [] then [(key, e)]
    else if g[0].0 == key then
      assert forall k :: k != key ==> Find(g, k) == Find(g[1..], k);
      [(key, e)] + g[1..]
    else
      var rest := Store(g[1..], key, e);
      StoreBehind(g, key, e, rest);
      [g[0]] + rest
  }

  /** Storing behind a first entry with another key keeps that entry in front. */
  lemma StoreBehind(g: Groups, key: string, e: Entry, rest: Groups)
    requires DistinctKeys(g) && g != [] && g[0].0 != key
    requires DistinctKeys(rest)
    requires forall i :: 0 <= i < |rest| ==> rest[i].0 == key || exists j :: 0 <= j < |g[1..]| && g[1..][j].0 == rest[i].0
    requires Find(rest, key) == Some(e)
    requires forall k :: k != key ==> Find(rest, k) == Find(g[1..], k)
    ensures DistinctKeys([g[0]] + rest)
    ensures forall i :: 0 <= i < |[g[0]] + rest| ==> ([g[0]] + rest)[i].0 == key || exists j :: 0 <= j < |g| && g[j].0 == ([g[0]] + rest)[i].0
    ensures Find([g[0]] + rest, key) == Some(e)
    ensures forall k :: k != key ==> Find([g[0]] + rest, k) == Find(g, k)
  {
    StoreBehindKeys(g, key, rest);
    var r := [g[0]] + rest;
    assert r[1..] == rest;
  }

  lemma StoreBehindKeys(g: Groups, key: string, rest: Groups)
    requires DistinctKeys(g) && g != [] && g[0].0 != key
    requires DistinctKeys(rest)
    requires forall i :: 0 <= i < |rest| ==> rest[i].0 == key || exists j :: 0 <= j < |g[1..]| && g[1..][j].0 == rest[i].0
    ensures DistinctKeys([g[0]] + rest)
    ensures forall i :: 0 <= i < |[g[0]] + rest| ==> ([g[0]] + rest)[i].0 == key || exists j :: 0 <= j < |g| && g[j].0 == ([g[0]] + rest)[i].0
  {
    var r := [g[0]] + rest;
    assert forall i :: 0 < i < |g| ==> g[i] == g[1..][i - 1];
    assert forall i :: 0 < i < |r| ==> r[i] == rest[i - 1];
    assert forall i :: 0 < i < |r| ==> r[i].0 != g[0].0;
  }

  /** The successful runs a record adds: `rec.get("successful_runs") or 0`. */
  function RunsOf(rec: StatRecord): int {
    match NumberOr0(Get(rec, "successful_runs"))
    case Success(n) => n
    case Failure(_) => 0
  }

  /** The successful runs of the records filed under `key`. */
  function SuccessfulRunsUnder(data: seq<StatRecord>, keys: seq<Key>, key: string): int {
    if data == [] then 0
    else
      var last := data[|data| - 1];
      SuccessfulRunsUnder(data[..|data| - 1], keys, key) +
      (if AggregateKey(last, keys) == Success(key) then RunsOf(last) else 0)
  }

  /**
   * One round of the loop of `_aggregate_for_keys`:
   * `result[key] = _add_program_run_data(result.get(key), record)` and then
   * `result[key] = _add_quiz_data(result.get(key), record)`.
   */
  function AddRecord(groups: Groups, rec: StatRecord, keys: seq<Key>): (r: Result<Groups, Error>)
    requires DistinctKeys(groups)
    ensures r.Success? ==> AggregateKey(rec, keys).Success? && DistinctKeys(r.value)
    ensures r.Success? ==> forall k :: k != AggregateKey(rec, keys).value ==> Find(r.value, k) == Find(groups, k)
    ensures r.Success? ==> Find(r.value, AggregateKey(rec, keys).value).Some?
    ensures r.Success? ==> (Find(r.value, AggregateKey(rec, keys).value).value.successfulRuns ==
      Find(groups, AggregateKey(rec, keys).value).GetOr(Initialize()).successfulRuns + RunsOf(rec))
    ensures r.Success? ==> (Find(r.value, AggregateKey(rec, keys).value).value.failedRuns ==
      Find(groups, AggregateKey(rec, keys).value).GetOr(Initialize()).failedRuns + ExceptionRuns(rec))
  {
    var key :- AggregateKey(rec, keys);
    var run :- AddProgramRunDataAsWritten(Find(groups, key), rec);
    var withRun := Store(groups, key, run);
    var quiz :- AddQuizData(Find(withRun, key), rec);
    Success(Store(withRun, key, quiz))
  }

  /** One round of the loop of `_aggregate_for_keys`, with the failed runs attributed to the record's user type. */
  function AddRecordCorrected(groups: Groups, rec: StatRecord, keys: seq<Key>): (r: Result<Groups, Error>)
    requires DistinctKeys(groups)
    ensures r.Failure? ==> r.error == (if AggregateKey(rec, keys).Failure? then KeyError else TypeError)
    ensures r.Success? ==> AggregateKey(rec, keys).Success? && DistinctKeys(r.value)
    ensures r.Success? ==> forall k :: k != AggregateKey(rec, keys).value ==> Find(r.value, k) == Find(groups, k)
    ensures r.Success? ==> Find(r.value, AggregateKey(rec, keys).value).Some?
    ensures r.Success? ==> (Find(r.value, AggregateKey(rec, keys).value).value.successfulRuns ==
      Find(groups, AggregateKey(rec, keys).value).GetOr(Initialize()).successfulRuns + RunsOf(rec))
    ensures r.Success? ==> (Find(r.value, AggregateKey(rec, keys).value).value.failedRuns ==
      Find(groups, AggregateKey(rec, keys).value).GetOr(Initialize()).failedRuns + ExceptionRuns(rec))
    ensures r.Success? && IsUserType(Get(rec, "id")) ==>
      (UserTypeRuns(Find(r.value, AggregateKey(rec, keys).value).value) ==
       UserTypeRuns(Find(groups, AggregateKey(rec, keys).value).GetOr(Initialize())) + RunsOf(rec) + ExceptionRuns(rec))
  {
    var key :- AggregateKey(rec, keys);
    var run :- AddProgramRunData(Find(groups, key), rec);
    var withRun := Store(groups, key, run);
    var quiz :- AddQuizData(Find(withRun, key), rec);
    Success(Store(withRun, key, quiz))
  }

  /**
   * The corrected round fails exactly when the round as written does; the group it changes
   * has the same successful and failed runs, and its user-type counters also hold the
   * record's failed runs when the record has a user type.
   */
  lemma CorrectedRecordCounts(groups: Groups, rec: StatRecord, keys: seq<Key>)
    requires DistinctKeys(groups)
    ensures AddRecordCorrected(groups, rec, keys).Success? <==> AddRecord(groups, rec, keys).Success?
    ensures AddRecord(groups, rec, keys).Success? ==>
      var key := AggregateKey(rec, keys).value;
      var written := Find(AddRecord(groups, rec, keys).value, key).value;
      Find(AddRecordCorrected(groups, rec, keys).value, key).Some? &&
      var corrected := Find(AddRecordCorrected(groups, rec, keys).value, key).value;
      corrected.successfulRuns == written.successfulRuns && corrected.failedRuns == written.failedRuns &&
      UserTypeRuns(corrected) == UserTypeRuns(written) + (if IsUserType(Get(rec, "id")) then ExceptionRuns(rec) else 0)
  {
    if AggregateKey(rec, keys).Success? {
      var key := AggregateKey(rec, keys).value;
      var data := Find(groups, key);
      RunDataSameOutcome(data, rec, None, Get(rec, "id"));
      var rw := AddProgramRunDataAsWritten(data, rec);
      var rc := AddProgramRunData(data, rec);
      if rw.Success? {
        var w, c := rw.value, rc.value;
        var ww, cc := Store(groups, key, w), Store(groups, key, c);
        var qw, qc := AddQuizData(Some(w), rec), AddQuizData(Some(c), rec);
        assert Find(ww, key) == Some(w) && Find(cc, key) == Some(c);
        QuizSameOutcome(Some(w), Some(c), rec);
        if qw.Success? {
          assert AddRecord(groups, rec, keys) == Success(Store(ww, key, qw.value));
          assert AddRecordCorrected(groups, rec, keys) == Success(Store(cc, key, qc.value));
          assert Find(Store(ww, key, qw.value), key) == Some(qw.value);
          assert Find(Store(cc, key, qc.value), key) == Some(qc.value);
          QuizKeepsRuns(w, rec, qw.value);
          QuizKeepsRuns(c, rec, qc.value);
        } else {
          assert AddRecord(groups, rec, keys).Failure?;
          assert AddRecordCorrected(groups, rec, keys).Failure?;
        }
      } else {
        assert AddRecord(groups, rec, keys).Failure?;
        assert AddRecordCorrected(groups, rec, keys).Failure?;
      }
    }
  }

  /** Adding quiz data leaves every run counter as it was. */
  lemma QuizKeepsRuns(e: Entry, rec: StatRecord, q: Entry)
    requires AddQuizData(Some(e), rec) == Success(q)
    ensures q.successfulRuns == e.successfulRuns && q.failedRuns == e.failedRuns && UserTypeRuns(q) == UserTypeRuns(e)
  {
    assert Some(e).GetOr(Initialize()) == e;
  }

  /** Without an id there is no user type. */
  lemma NoneHasNoUserType()
    ensures !IsUserType(None)
  {
  }

  /** Whether the quiz fields of a record can be added does not depend on the entry. */
  lemma QuizSameOutcome(d1: Option<Entry>, d2: Option<Entry>, rec: StatRecord)
    ensures AddQuizData(d1, rec).Success? <==> AddQuizData(d2, rec).Success?
  {
  }


  /** The loop of `_aggregate_for_keys` that files every record under its aggregate key. */
  function Accumulate(data: seq<StatRecord>, keys: seq<Key>): (r: Result<Groups, Error>)
    ensures r.Success? ==> DistinctKeys(r.value)
  {
    if data == [] then Success([])
    else
      var groups :- Accumulate(data[..|data| - 1], keys);
      AddRecord(groups, data[|data| - 1], keys)
  }

  /**
   * After accumulation there is one group per distinct aggregate key, and each group's
   * successful runs are the sum over its records.
   */
  lemma AccumulateGroups(data: seq<StatRecord>, keys: seq<Key>)
    requires Accumulate(data, keys).Success?
    ensures forall k :: Find(Accumulate(data, keys).value, k).Some? <==>
      exists j :: 0 <= j < |data| && AggregateKey(data[j], keys) == Success(k)
    ensures forall k :: Find(Accumulate(data, keys).value, k).Some? ==>
      Find(Accumulate(data, keys).value, k).value.successfulRuns == SuccessfulRunsUnder(data, keys, k)
  {
    forall k
      ensures Find(Accumulate(data, keys).value, k).Some? <==>
        exists j :: 0 <= j < |data| && AggregateKey(data[j], keys) == Success(k)
      ensures Find(Accumulate(data, keys).value, k).Some? ==>
        Find(Accumulate(data, keys).value, k).value.successfulRuns == SuccessfulRunsUnder(data, keys, k)
    {
      AccumulateGroup(data, keys, k);
    }
  }

  /** Some record of the data has aggregate key `k`. */
  predicate HasKey(data: seq<StatRecord>, keys: seq<Key>, k: string) {
    exists j :: 0 <= j < |data| && AggregateKey(data[j], keys) == Success(k)
  }

  lemma {:induction false} AccumulateGroup(data: seq<StatRecord>, keys: seq<Key>, k: string)
    requires Accumulate(data, keys).Success?
    ensures Find(Accumulate(data, keys).value, k).Some? <==> HasKey(data, keys, k)
    ensures Find(Accumulate(data, keys).value, k).Some? ==>
      Find(Accumulate(data, keys).value, k).value.successfulRuns == SuccessfulRunsUnder(data, keys, k)
  {
    if data != [] {
      var prefix := data[..|data| - 1];
      AccumulateLast(data, keys);
      LastKeyFound(data, keys);
      AccumulateGroup(prefix, keys, k);
      var key := AggregateKey(data[|data| - 1], keys).value;
      if k != key {
        OtherKeyStep(data, keys, k);
      } else {
        SameKeyStep(data, keys);
        assert AggregateKey(data[|data| - 1], keys) == Success(k);
      }
    }
  }

  /** The last round of the loop: the groups of the records before it, with the last record added. */
  lemma AccumulateLast(data: seq<StatRecord>, keys: seq<Key>)
    requires data != [] && Accumulate(data, keys).Success?
    ensures Accumulate(data[..|data| - 1], keys).Success?
    ensures AddRecord(Accumulate(data[..|data| - 1], keys).value, data[|data| - 1], keys) == Accumulate(data, keys)
  {
  }

  /** A record filed under another key leaves the group of `k` as it was. */
  lemma OtherKeyStep(data: seq<StatRecord>, keys: seq<Key>, k: string)
    requires data != [] && Accumulate(data, keys).Success?
    requires k != AggregateKey(data[|data| - 1], keys).value
    ensures Accumulate(data[..|data| - 1], keys).Success?
    ensures Find(Accumulate(data, keys).value, k) == Find(Accumulate(data[..|data| - 1], keys).value, k)
    ensures SuccessfulRunsUnder(data, keys, k) == SuccessfulRunsUnder(data[..|data| - 1], keys, k)
    ensures HasKey(data, keys, k) <==> HasKey(data[..|data| - 1], keys, k)
  {
    var prefix := data[..|data| - 1];
    AccumulateLast(data, keys);
    if j :| 0 <= j < |data| && AggregateKey(data[j], keys) == Success(k) {
      assert j != |data| - 1;
      assert prefix[j] == data[j];
    }
    if j :| 0 <= j < |prefix| && AggregateKey(prefix[j], keys) == Success(k) {
      assert AggregateKey(data[j], keys) == Success(k);
    }
  }

  lemma SuccessfulRunsSnoc(data: seq<StatRecord>, keys: seq<Key>, key: string)
    requires data != [] && AggregateKey(data[|data| - 1], keys) == Success(key)
    ensures SuccessfulRunsUnder(data, keys, key) == SuccessfulRunsUnder(data[..|data| - 1], keys, key) + RunsOf(data[|data| - 1])
  {
  }

  /** After the last record, its aggregate key has a group. */
  lemma LastKeyFound(data: seq<StatRecord>, keys: seq<Key>)
    requires data != [] && Accumulate(data, keys).Success?
    ensures AggregateKey(data[|data| - 1], keys).Success?
    ensures Find(Accumulate(data, keys).value, AggregateKey(data[|data| - 1], keys).value).Some?
  {
    AccumulateLast(data, keys);
  }

  /** The group of the last record's key adds that record's successful runs. */
  lemma SameKeyStep(data: seq<StatRecord>, keys: seq<Key>)
    requires data != [] && Accumulate(data, keys).Success?
    requires AggregateKey(data[|data| - 1], keys).Success?
    requires Find(Accumulate(data, keys).value, AggregateKey(data[|data| - 1], keys).value).Some?
    requires Accumulate(data[..|data| - 1], keys).Success?
    requires var k := AggregateKey(data[|data| - 1], keys).value;
      Find(Accumulate(data[..|data| - 1], keys).value, k).Some? ==>
      Find(Accumulate(data[..|data| - 1], keys).value, k).value.successfulRuns == SuccessfulRunsUnder(data[..|data| - 1], keys, k)
    requires var k := AggregateKey(data[|data| - 1], keys).value;
      Find(Accumulate(data[..|data| - 1], keys).value, k).None? ==> !HasKey(data[..|data| - 1], keys, k)
    ensures Find(Accumulate(data, keys).value, AggregateKey(data[|data| - 1], keys).value).value.successfulRuns ==
      SuccessfulRunsUnder(data, keys, AggregateKey(data[|data| - 1], keys).value)
  {
    var prefix := data[..|data| - 1];
    var groups := Accumulate(prefix, keys).value;
    var rec := data[|data| - 1];
    AccumulateLast(data, keys);
    var key := AggregateKey(rec, keys).value;
    var after := AddRecord(groups, rec, keys).value;
    assert after == Accumulate(data, keys).value;
    var before := Find(groups, key).GetOr(Initialize()).successfulRuns;
    assert Find(after, key).value.successfulRuns == before + RunsOf(rec);
    SuccessfulRunsSnoc(data, keys, key);
    if Find(groups, key).None? {
      NoRunsUnderAbsentKey(prefix, keys, key);
      assert before == 0;
    }
    assert before == SuccessfulRunsUnder(prefix, keys, key);
  }

  lemma {:induction false} NoRunsUnderAbsentKey(data: seq<StatRecord>, keys: seq<Key>, key: string)
    requires forall j :: 0 <= j < |data| ==> AggregateKey(data[j], keys) != Success(key)
    ensures SuccessfulRunsUnder(data, keys, key) == 0
  {
    if data != [] {
      NoRunsUnderAbsentKey(data[..|data| - 1], keys, key);
    }
  }

  /** `[_split_keys_data(k, v, keys) for k, v in result.items()]` */
  function SplitAll(g: Groups, keys: seq<Key>): (r: Result<seq<Grouped>, Error>)
    ensures r.Success? ==> |r.value| == |g| && forall i :: 0 <= i < |g| ==> r.value[i].data == g[i].1
  {
    if g == [] then Success([])
    else
      var init :- SplitAll(g[..|g| - 1], keys);
      var last :- SplitKeysData(g[|g| - 1].0, g[|g| - 1].1, keys);
      Success(init + [last])
  }

  lemma {:induction false} SplitAllFails(g: Groups, keys: seq<Key>, n: nat)
    requires n <= |g|
    requires SplitAll(g[..n], keys).Failure?
    ensures SplitAll(g, keys) == SplitAll(g[..n], keys)
    decreases |g| - n
  {
    if n < |g| {
      assert g[..n + 1][..n] == g[..n];
      SplitAllFails(g, keys, n + 1);
    } else {
      assert g[..n] == g;
    }
  }

  /** `_aggregate_for_keys(data, keys)` */
  function AggregateForKeys(data: seq<StatRecord>, keys: seq<Key>): (r: Result<seq<Grouped>, Error>)
    ensures r.Success? ==> Accumulate(data, keys).Success? && |r.value| == |Accumulate(data, keys).value|
    ensures r.Success? ==> forall i :: 0 <= i < |r.value| ==> r.value[i].data == Accumulate(data, keys).value[i].1
  {
    var groups :- Accumulate(data, keys);
    SplitAll(groups, keys)
  }

  /** `_aggregate_for_keys(data, keys)`: the loop over the records, then the splitting of the keys. */
  method AggregateForKeysLoop(data: seq<StatRecord>, keys: seq<Key>) returns (r: Result<seq<Grouped>, Error>)
    ensures r == AggregateForKeys(data, keys)
  {
    var groups := AccumulateLoop(data, keys);
    if groups.Failure? {
      return Failure(groups.error);
    }
    r := SplitAllLoop(groups.value, keys);
  }

  /** The loop of `_aggregate_for_keys` over the records. */
  method AccumulateLoop(data: seq<StatRecord>, keys: seq<Key>) returns (r: Result<Groups, Error>)
    ensures r == Accumulate(data, keys)
  {
    var groups: Groups := [];
    var i := 0;
    while i < |data|
      invariant 0 <= i <= |data|
      invariant Accumulate(data[..i], keys) == Success(groups)
      invariant DistinctKeys(groups)
    {
      assert data[..i + 1][..i] == data[..i];
      var next := AddRecord(groups, data[i], keys);
      if next.Failure? {
        AccumulateFails(data, keys, i + 1);
        return Failure(next.error);
      }
      groups := next.value;
      i := i + 1;
    }
    assert data[..i] == data;
    return Success(groups);
  }

  /** `[_split_keys_data(k, v, keys) for k, v in result.items()]` as a loop. */
  method SplitAllLoop(groups: Groups, keys: seq<Key>) returns (r: Result<seq<Grouped>, Error>)
    ensures r == SplitAll(groups, keys)
  {
    var out: seq<Grouped> := [];
    var j := 0;
    while j < |groups|
      invariant 0 <= j <= |groups|
      invariant SplitAll(groups[..j], keys) == Success(out)
    {
      assert groups[..j + 1][..j] == groups[..j];
      var g := SplitKeysData(groups[j].0, groups[j].1, keys);
      if g.Failure? {
        SplitAllFails(groups, keys, j + 1);
        return Failure(g.error);
      }
      out := out + [g.value];
      j := j + 1;
    }
    assert groups[..j] == groups;
    return Success(out);
  }

  lemma {:induction false} AccumulateFails(data: seq<StatRecord>, keys: seq<Key>, n: nat)
    requires n <= |data|
    requires Accumulate(data[..n], keys).Failure?
    ensures Accumulate(data, keys) == Accumulate(data[..n], keys)
    decreases |data| - n
  {
    if n < |data| {
      assert data[..n + 1][..n] == data[..n];
      AccumulateFails(data, keys, n + 1);
    } else {
      assert data[..n] == data;
    }
  }

  // ---------------------------------------------------------------------------
  // The order of the aggregation dict

  /** The aggregate keys of a dict, in its insertion order. */
  function GroupKeys(g: Groups): (ks: seq<string>)
    ensures |ks| == |g| && forall i :: 0 <= i < |g| ==> ks[i] == g[i].0
  {
    if g == [] then []
    else
      var rest := GroupKeys(g[1..]);
      assert forall i :: 1 <= i < |g| ==> g[i] == g[1..][i - 1];
      [g[0].0] + rest
  }

  /**
   * The distinct aggregate keys of the records, each where it first appears. A record
   * whose key cannot be built adds nothing (accumulation then fails anyway).
   */
  function FirstAppearance(data: seq<StatRecord>, keys: seq<Key>): seq<string> {
    if data == [] then []
    else
      var before := FirstAppearance(data[..|data| - 1], keys);
      match AggregateKey(data[|data| - 1], keys)
      case Success(k) => if k in before then before else before + [k]
      case Failure(_) => before
  }

  /** `result[key] = e` keeps the position of a key already present and appends a new one. */
  lemma {:induction false} StoreKeys(g: Groups, key: string, e: Entry)
    requires DistinctKeys(g)
    ensures GroupKeys(Store(g, key, e)) == if key in GroupKeys(g) then GroupKeys(g) else GroupKeys(g) + [key]
  {
    if g != [] && g[0].0 != key {
      assert DistinctKeys(g[1..]);
      StoreKeys(g[1..], key, e);
      StoreKeysBehind(g, key, Store(g[1..], key, e));
    }
  }

  lemma StoreKeysBehind(g: Groups, key: string, rest: Groups)
    requires g != [] && g[0].0 != key
    requires GroupKeys(rest) == if key in GroupKeys(g[1..]) then GroupKeys(g[1..]) else GroupKeys(g[1..]) + [key]
    ensures GroupKeys([g[0]] + rest) == if key in GroupKeys(g) then GroupKeys(g) else GroupKeys(g) + [key]
  {
    assert ([g[0]] + rest)[1..] == rest;
    assert key in GroupKeys(g) <==> key in GroupKeys(g[1..]);
  }

  /** One round of the loop appends the record's key when it is new, and otherwise keeps the order. */
  lemma AddRecordKeys(groups: Groups, rec: StatRecord, keys: seq<Key>)
    requires DistinctKeys(groups)
    requires AddRecord(groups, rec, keys).Success?
    ensures var k := AggregateKey(rec, keys).value;
      GroupKeys(AddRecord(groups, rec, keys).value) == if k in GroupKeys(groups) then GroupKeys(groups) else GroupKeys(groups) + [k]
  {
    var key := AggregateKey(rec, keys).value;
    var run := AddProgramRunDataAsWritten(Find(groups, key), rec).value;
    var withRun := Store(groups, key, run);
    var quiz := AddQuizData(Find(withRun, key), rec).value;
    StoreKeys(groups, key, run);
    StoreKeys(withRun, key, quiz);
    assert key in GroupKeys(withRun);
  }

  /**
   * The dict built by `_aggregate_for_keys` holds the distinct aggregate keys in the order
   * in which they first appear among the records.
   */
  lemma {:induction false} AccumulateOrder(data: seq<StatRecord>, keys: seq<Key>)
    requires Accumulate(data, keys).Success?
    ensures GroupKeys(Accumulate(data, keys).value) == FirstAppearance(data, keys)
  {
    if data != [] {
      var prefix := data[..|data| - 1];
      AccumulateLast(data, keys);
      AccumulateOrder(prefix, keys);
      AddRecordKeys(Accumulate(prefix, keys).value, data[|data| - 1], keys);
    }
  }

  /**
   * `FirstAppearance` lists each aggregate key of a record exactly once, and a key comes
   * before another exactly when some record carries it before any record carries the other.
   */
  lemma FirstAppearanceOrder(data: seq<StatRecord>, keys: seq<Key>)
    ensures var fa := FirstAppearance(data, keys);
      (forall i, j :: 0 <= i < j < |fa| ==> fa[i] != fa[j]) &&
      (forall k :: k in fa <==> HasKey(data, keys, k)) &&
      (forall i, j :: 0 <= i < j < |fa| ==> FirstAt(data, keys, fa[i]) < FirstAt(data, keys, fa[j]))
  {
    FirstAppearanceDistinct(data, keys);
    FirstAppearanceKeys(data, keys);
    FirstAppearanceSorted(data, keys);
  }

  /** No string occurs twice. */
  predicate Distinct(s: seq<string>) {
    forall i, j :: 0 <= i < j < |s| ==> s[i] != s[j]
  }

  lemma {:induction false} FirstAppearanceDistinct(data: seq<StatRecord>, keys: seq<Key>)
    ensures Distinct(FirstAppearance(data, keys))
  {
    if data != [] {
      var before := FirstAppearance(data[..|data| - 1], keys);
      FirstAppearanceDistinct(data[..|data| - 1], keys);
      if AggregateKey(data[|data| - 1], keys).Success? && AggregateKey(data[|data| - 1], keys).value !in before {
        var k := AggregateKey(data[|data| - 1], keys).value;
        assert FirstAppearance(data, keys) == before + [k];
        assert forall i :: 0 <= i < |before| ==> before[i] != k;
      } else {
        assert FirstAppearance(data, keys) == before;
      }
    }
  }

  lemma {:induction false} FirstAppearanceKeys(data: seq<StatRecord>, keys: seq<Key>)
    ensures forall k :: k in FirstAppearance(data, keys) <==> HasKey(data, keys, k)
  {
    if data != [] {
      var prefix := data[..|data| - 1];
      FirstAppearanceKeys(prefix, keys);
      forall k
        ensures HasKey(data, keys, k) <==>
          HasKey(prefix, keys, k) || AggregateKey(data[|data| - 1], keys) == Success(k)
      {
        HasKeyLast(data, keys, k);
      }
    }
  }

  /** A key already listed for the records before the last one keeps its first position. */
  lemma FirstAtKept(data: seq<StatRecord>, keys: seq<Key>, k: string)
    requires data != [] && k in FirstAppearance(data[..|data| - 1], keys)
    ensures FirstAt(data, keys, k) == FirstAt(data[..|data| - 1], keys, k) < |data| - 1
  {
    var prefix := data[..|data| - 1];
    FirstAppearanceKeys(prefix, keys);
    FirstAtPrefix(data, keys, k);
    FirstAtBound(prefix, keys, k);
  }

  lemma {:induction false} FirstAppearanceSorted(data: seq<StatRecord>, keys: seq<Key>)
    ensures var fa := FirstAppearance(data, keys);
      forall i, j :: 0 <= i < j < |fa| ==> FirstAt(data, keys, fa[i]) < FirstAt(data, keys, fa[j])
  {
    if data != [] {
      var prefix := data[..|data| - 1];
      var before := FirstAppearance(prefix, keys);
      FirstAppearanceSorted(prefix, keys);
      forall i | 0 <= i < |before|
        ensures FirstAt(data, keys, before[i]) == FirstAt(prefix, keys, before[i]) < |data| - 1
      {
        FirstAtKept(data, keys, before[i]);
      }
      if AggregateKey(data[|data| - 1], keys).Success? && AggregateKey(data[|data| - 1], keys).value !in before {
        var k := AggregateKey(data[|data| - 1], keys).value;
        FirstAppearanceKeys(prefix, keys);
        FirstAtLast(data, keys, k);
      }
    }
  }

  lemma HasKeyLast(data: seq<StatRecord>, keys: seq<Key>, k: string)
    requires data != []
    ensures HasKey(data, keys, k) <==>
      HasKey(data[..|data| - 1], keys, k) || AggregateKey(data[|data| - 1], keys) == Success(k)
  {
    var prefix := data[..|data| - 1];
    if j :| 0 <= j < |prefix| && AggregateKey(prefix[j], keys) == Success(k) {
      assert data[j] == prefix[j];
    }
    if j :| 0 <= j < |data| && AggregateKey(data[j], keys) == Success(k) {
      if j < |prefix| {
        assert data[j] == prefix[j];
      }
    }
  }

  /** The position of the first record filed under `k`, or the number of records when there is none. */
  function FirstAt(data: seq<StatRecord>, keys: seq<Key>, k: string): (n: nat)
    ensures n <= |data|
    ensures n < |data| ==> AggregateKey(data[n], keys) == Success(k)
    ensures forall j :: 0 <= j < n ==> AggregateKey(data[j], keys) != Success(k)
  {
    if data == [] then 0
    else if AggregateKey(data[0], keys) == Success(k) then 0
    else
      var n := FirstAt(data[1..], keys, k);
      assert forall j :: 1 <= j < |data| ==> data[j] == data[1..][j - 1];
      n + 1
  }

  lemma FirstAtBound(data: seq<StatRecord>, keys: seq<Key>, k: string)
    requires HasKey(data, keys, k)
    ensures FirstAt(data, keys, k) < |data|
  {
  }

  /** A key that some record of a prefix carries is first met inside the prefix. */
  lemma FirstAtPrefix(data: seq<StatRecord>, keys: seq<Key>, k: string)
    requires data != [] && HasKey(data[..|data| - 1], keys, k)
    ensures FirstAt(data, keys, k) == FirstAt(data[..|data| - 1], keys, k)
  {
    var prefix := data[..|data| - 1];
    FirstAtBound(prefix, keys, k);
    var n := FirstAt(prefix, keys, k);
    assert data[n] == prefix[n];
    assert forall j :: 0 <= j < n ==> data[j] == prefix[j];
    FirstAtUnique(data, keys, k, n);
  }

  /** A key that only the last record carries is first met there. */
  lemma FirstAtLast(data: seq<StatRecord>, keys: seq<Key>, k: string)
    requires data != [] && AggregateKey(data[|data| - 1], keys) == Success(k)
    requires !HasKey(data[..|data| - 1], keys, k)
    ensures FirstAt(data, keys, k) == |data| - 1
  {
    var prefix := data[..|data| - 1];
    assert forall j :: 0 <= j < |data| - 1 ==> data[j] == prefix[j];
    FirstAtUnique(data, keys, k, |data| - 1);
  }

  /** `FirstAt` is the one position that carries the key with no earlier one carrying it. */
  lemma FirstAtUnique(data: seq<StatRecord>, keys: seq<Key>, k: string, n: nat)
    requires n < |data| && AggregateKey(data[n], keys) == Success(k)
    requires forall j :: 0 <= j < n ==> AggregateKey(data[j], keys) != Success(k)
    ensures FirstAt(data, keys, k) == n
  {
  }

  /**
   * `_aggregate_for_keys` returns one result per distinct aggregate key, ordered by where
   * each key first appears, each holding the data of that key's group.
   */
  lemma AggregateForKeysOrder(data: seq<StatRecord>, keys: seq<Key>)
    requires AggregateForKeys(data, keys).Success?
    ensures var r, fa := AggregateForKeys(data, keys).value, FirstAppearance(data, keys);
      |r| == |fa| && forall i :: 0 <= i < |r| ==> Find(Accumulate(data, keys).value, fa[i]) == Some(r[i].data)
  {
    var groups := Accumulate(data, keys).value;
    AccumulateOrder(data, keys);
    forall i | 0 <= i < |groups|
      ensures Find(groups, groups[i].0) == Some(groups[i].1)
    {
      FindDistinct(groups, i);
    }
  }

  /** With distinct keys, each key finds its own entry. */
  lemma {:induction false} FindDistinct(g: Groups, i: nat)
    requires DistinctKeys(g) && i < |g|
    ensures Find(g, g[i].0) == Some(g[i].1)
  {
    if i > 0 {
      assert DistinctKeys(g[1..]);
      assert g[1..][i - 1] == g[i];
      FindDistinct(g[1..], i - 1);
    }
  }

  // ---------------------------------------------------------------------------
  // `_add_value_to_result` and `_add_dict_to_result`

  /** Whether a value is taken: `source is not None and (source > 0 if is_counter else True)`. */
  predicate Accepted(source: Option<int>, isCounter: bool) {
    source.Some? && (!isCounter || source.value > 0)
  }

  /** `target.get(key)`, with absent or falsy read as 0. */
  function Get0(target: map<string, int>, key: string): int {
    if key in target then target[key] else 0
  }

  /** `_add_value_to_result(target, key, source, is_counter)` */
  function AddValueToResult(target: map<string, int>, key: string, source: Option<int>, isCounter: bool): (r: map<string, int>)
    ensures !Accepted(source, isCounter) ==> r == target
    ensures Accepted(source, isCounter) ==> r == target[key := Get0(target, key) + source.value]
  {
    if Accepted(source, isCounter) then
      if key !in target || target[key] == 0 then target[key := source.value]
      else target[key := target[key] + source.value]
    else target
  }

  /** Adding is order-independent: two accepted values in either order give the same dict. */
  lemma AddValuesCommute(target: map<string, int>, k1: string, s1: Option<int>, k2: string, s2: Option<int>, isCounter: bool)
    ensures AddValueToResult(AddValueToResult(target, k1, s1, isCounter), k2, s2, isCounter) ==
            AddValueToResult(AddValueToResult(target, k2, s2, isCounter), k1, s1, isCounter)
  {
  }

  /** `_add_dict_to_result(target, key, series, source, is_counter)`: a falsy slot becomes `{}` first. */
  function AddDictToResult(target: map<string, map<string, int>>, key: string, series: string, source: Option<int>,
                           isCounter: bool): (r: map<string, map<string, int>>)
    ensures !Accepted(source, isCounter) ==> r == target
    ensures Accepted(source, isCounter) ==> r.Keys == target.Keys + {key}
    ensures Accepted(source, isCounter) ==> key in r && series in r[key] && r[key][series] == source.value
    ensures Accepted(source, isCounter) ==> forall s :: s in r[key] && s != series ==> key in target && s in target[key] && r[key][s] == target[key][s]
    ensures forall k :: k in target && k != key ==> r[k] == target[k]
  {
    if Accepted(source, isCounter) then
      var slot := if key !in target || target[key] == map[] then map[] else target[key];
      target[key := slot[series := source.value]]
    else target
  }

  // ---------------------------------------------------------------------------
  // `_score_metrics`

  /** `_score_metrics(scores)`, without the average: the least and the greatest score. */
  method ScoreMetrics(scores: seq<int>) returns (lo: Option<int>, hi: Option<int>)
    ensures scores == [] ==> lo == None && hi == None
    ensures scores != [] ==> lo.Some? && hi.Some? && lo.value in scores && hi.value in scores
    ensures scores != [] ==> forall s :: s in scores ==> lo.value <= s <= hi.value
  {
    if scores == [] {
      return None, None;
    }
    var minResult := scores[0];
    var maxResult := scores[0];
    var i := 0;
    while i < |scores|
      invariant 0 <= i <= |scores|
      invariant minResult in scores && maxResult in scores
      invariant forall j :: 0 <= j < i ==> minResult <= scores[j] <= maxResult
      invariant minResult <= scores[0] <= maxResult
    {
      if scores[i] < minResult {
        minResult := scores[i];
      }
      if scores[i] > maxResult {
        maxResult := scores[i];
      }
      i := i + 1;
    }
    return Some(minResult), Some(maxResult);
  }

  // ---------------------------------------------------------------------------
  // `_collect_graph_data`

  /** The chart histories of the weeks that have one, one after the other. */
  function Histories<V>(data: seq<Option<seq<V>>>): seq<V> {
    if data == [] then []
    else Histories(data[..|data| - 1]) + data[|data| - 1].GetOr([])
  }

  /** The labels `1, 2, ..., n`. */
  function Labels(n: nat): (r: seq<int>)
    ensures |r| == n && forall i :: 0 <= i < n ==> r[i] == i + 1
  {
    seq(n, i requires 0 <= i < n => i + 1)
  }

  /** `window_size if len(graph_data) > window_size else 0` */
  function WindowSlice(n: nat, window: int): int {
    if n > window then window else 0
  }

  /**
   * `_collect_graph_data(data, window_size)`: all chart history points labelled 1, 2, ...,
   * of which only the last `window_size` are kept when there are more.
   */
  method CollectGraphData<V>(data: seq<Option<seq<V>>>, window: int) returns (graph: seq<V>, labels: seq<int>)
    ensures graph == SliceFrom(Histories(data), -WindowSlice(|Histories(data)|, window))
    ensures labels == SliceFrom(Labels(|Histories(data)|), -WindowSlice(|Histories(data)|, window))
  {
    var graphData: seq<V> := [];
    var allLabels: seq<int> := [];
    var c := 0;
    var i := 0;
    while i < |data|
      invariant 0 <= i <= |data|
      invariant graphData == Histories(data[..i])
      invariant c == |graphData| && allLabels == Labels(c)
    {
      assert data[..i + 1][..i] == data[..i];
      if data[i].Some? {
        var history := data[i].value;
        graphData := graphData + history;
        allLabels := allLabels + seq(|history|, j requires 0 <= j < |history| => c + 1 + j);
        c := c + |history|;
      }
      i := i + 1;
    }
    assert data[..i] == data;
    var slice := if |graphData| > window then window else 0;
    graph := SliceFrom(graphData, -slice);
    labels := SliceFrom(allLabels, -slice);
  }

  /**
   * The window: with more points than a positive window size, the last `window` points
   * and their labels; otherwise all of them. A window size of 0 keeps everything, as
   * `xs[-0:]` is all of `xs`.
   */
  lemma GraphWindow<V>(h: seq<V>, window: int)
    ensures |SliceFrom(h, -WindowSlice(|h|, window))| == |SliceFrom(Labels(|h|), -WindowSlice(|h|, window))|
    ensures 0 < window < |h| ==> SliceFrom(h, -WindowSlice(|h|, window)) == h[|h| - window..]
    ensures 0 < window < |h| ==> SliceFrom(Labels(|h|), -WindowSlice(|h|, window)) == Labels(|h|)[|h| - window..]
    ensures window == 0 ==> SliceFrom(h, -WindowSlice(|h|, window)) == h
    ensures |h| <= window ==> SliceFrom(h, -WindowSlice(|h|, window)) == h
    ensures |h| <= window ==> SliceFrom(Labels(|h|), -WindowSlice(|h|, window)) == Labels(|h|)
  {
  }

  // ---------------------------------------------------------------------------
  // `_build_url_args`

  /** `f"{key}={value}"` for every argument. */
  function Assignments(kwargs: seq<(string, string)>): (r: seq<string>)
    ensures |r| == |kwargs|
    ensures forall i :: 0 <= i < |kwargs| ==> r[i] == kwargs[i].0 + "=" + kwargs[i].1
  {
    seq(|kwargs|, i requires 0 <= i < |kwargs| => kwargs[i].0 + "=" + kwargs[i].1)
  }

  /** `_build_url_args(**kwargs)`: the assignments in argument order, joined by `&`. */
  method BuildUrlArgs(kwargs: seq<(string, string)>) returns (urlArgs: string)
    ensures urlArgs == Text.Join("&", Assignments(kwargs))
  {
    urlArgs := "";
    var c := 0;
    var i := 0;
    while i < |kwargs|
      invariant 0 <= i <= |kwargs|
      invariant c == (if i == 0 then 0 else 1)
      invariant urlArgs == Text.Join("&", Assignments(kwargs[..i]))
    {
      var (key, value) := kwargs[i];
      JoinSnoc(Assignments(kwargs[..i]), key + "=" + value);
      assert Assignments(kwargs[..i + 1]) == Assignments(kwargs[..i]) + [key + "=" + value];
      if c == 0 {
        urlArgs := urlArgs + key + "=" + value;
        c := c + 1;
      } else {
        urlArgs := urlArgs + "&" + key + "=" + value;
      }
      i := i + 1;
    }
    assert kwargs[..i] == kwargs;
  }

  lemma {:induction false} JoinSnoc(parts: seq<string>, last: string)
    ensures parts == [] ==> Text.Join("&", parts + [last]) == last
    ensures parts != [] ==> Text.Join("&", parts + [last]) == Text.Join("&", parts) + "&" + last
    decreases |parts|
  {
    if |parts| >= 2 {
      JoinSnoc(parts[1..], last);
      assert (parts + [last])[1..] == parts[1..] + [last];
    } else if |parts| == 1 {
      assert (parts + [last])[1..] == [last];
    }
  }

  /** Without `&` in names and values, the arguments can be read back by splitting on `&`. */
  lemma UrlArgsSplit(kwargs: seq<(string, string)>)
    requires kwargs != []
    requires forall i :: 0 <= i < |kwargs| ==> '&' !in kwargs[i].0 && '&' !in kwargs[i].1
    ensures Text.Split(Text.Join("&", Assignments(kwargs)), '&') == Assignments(kwargs)
  {
    var parts := Assignments(kwargs);
    forall i | 0 <= i < |parts|
      ensures '&' !in parts[i]
    {
      assert parts[i] == kwargs[i].0 + "=" + kwargs[i].1;
    }
    Text.SplitJoin(parts, '&');
  }

  // ---------------------------------------------------------------------------
  // `_get_quiz_info`

  /** One student's quiz statistics: the levels with a quiz in progress and those finished. */
  datatype QuizStats = QuizStats(student: string, inProgress: seq<int>, finished: seq<int>)

  /** Per level: `students_in_progress` and `students_finished`. */
  datatype LevelQuiz = LevelQuiz(studentsInProgress: seq<string>, studentsFinished: seq<string>)

  /** The students with the level's quiz in progress, in order. */
  function InProgressAt(stats: seq<QuizStats>, level: int): (r: seq<string>)
    ensures forall s :: s in r <==> exists i :: 0 <= i < |stats| && stats[i].student == s && level in stats[i].inProgress
  {
    if stats == [] then []
    else
      var prefix := stats[..|stats| - 1];
      var last := stats[|stats| - 1];
      assert forall i :: 0 <= i < |prefix| ==> prefix[i] == stats[i];
      InProgressAt(prefix, level) + (if level in last.inProgress then [last.student] else [])
  }

  /** The students who finished the level's quiz and do not have it in progress, in order. */
  function FinishedAt(stats: seq<QuizStats>, level: int): (r: seq<string>)
    ensures forall s :: s in r <==> exists i :: (0 <= i < |stats| && stats[i].student == s &&
      level !in stats[i].inProgress && level in stats[i].finished)
  {
    if stats == [] then []
    else
      var prefix := stats[..|stats| - 1];
      var last := stats[|stats| - 1];
      assert forall i :: 0 <= i < |prefix| ==> prefix[i] == stats[i];
      FinishedAt(prefix, level) + (if level !in last.inProgress && level in last.finished then [last.student] else [])
  }

  /** With one statistics entry per student, no student is both in progress and finished at a level. */
  lemma QuizInfoDisjoint(stats: seq<QuizStats>, level: int, s: string)
    requires forall i, j :: 0 <= i < j < |stats| ==> stats[i].student != stats[j].student
    ensures !(s in InProgressAt(stats, level) && s in FinishedAt(stats, level))
  {
  }

  /** `_get_quiz_info(quiz_stats)`: an entry for every level from 1 to `HEDY_MAX_LEVEL`. */
  method GetQuizInfo(stats: seq<QuizStats>) returns (info: map<int, LevelQuiz>)
    ensures forall level :: level in info <==> 1 <= level <= HEDY_MAX_LEVEL
    ensures forall level :: level in info ==> info[level] == LevelQuiz(InProgressAt(stats, level), FinishedAt(stats, level))
  {
    info := map[];
    var level := 1;
    while level <= HEDY_MAX_LEVEL
      invariant 1 <= level <= HEDY_MAX_LEVEL + 1
      invariant forall l :: l in info <==> 1 <= l < level
      invariant forall l :: l in info ==> info[l] == LevelQuiz(InProgressAt(stats, l), FinishedAt(stats, l))
    {
      var inProgress: seq<string> := [];
      var finished: seq<string> := [];
      var i := 0;
      while i < |stats|
        invariant 0 <= i <= |stats|
        invariant inProgress == InProgressAt(stats[..i], level)
        invariant finished == FinishedAt(stats[..i], level)
      {
        assert stats[..i + 1][..i] == stats[..i];
        if level in stats[i].inProgress {
          inProgress := inProgress + [stats[i].student];
        } else if level in stats[i].finished {
          finished := finished + [stats[i].student];
        }
        i := i + 1;
      }
      assert stats[..i] == stats;
      info := info[level := LevelQuiz(inProgress, finished)];
      level := level + 1;
    }
  }

  // ---------------------------------------------------------------------------
  // `LiveStatisticsModule.new_id_calc`

  /** An entry of a class's common errors. */
  datatype CommonError = CommonError(id: int, active: int, message: string)

  /** `max(ids) + 1`, or 0 without errors. */
  function NextId(errors: seq<CommonError>): (n: int)
    ensures errors == [] ==> n == 0
    ensures forall i :: 0 <= i < |errors| ==> errors[i].id < n
    ensures errors != [] ==> exists i :: 0 <= i < |errors| && n == errors[i].id + 1
  {
    if errors == [] then 0
    else if |errors| == 1 then errors[0].id + 1
    else
      var rest := NextId(errors[..|errors| - 1]);
      assert forall i :: 0 <= i < |errors| - 1 ==> errors[..|errors| - 1][i] == errors[i];
      if errors[|errors| - 1].id + 1 > rest then errors[|errors| - 1].id + 1 else rest
  }

  /** The position of the first inactive error, or -1. */
  function FirstInactive(errors: seq<CommonError>): (k: int)
    ensures -1 <= k < |errors|
    ensures k >= 0 ==> errors[k].active == 0
    ensures forall i :: 0 <= i < |errors| && (k == -1 || i < k) ==> errors[i].active != 0
  {
    if errors == [] then -1
    else if errors[0].active == 0 then 0
    else
      var k := FirstInactive(errors[1..]);
      assert forall i :: 0 < i < |errors| ==> errors[i] == errors[1..][i - 1];
      if k == -1 then -1 else k + 1
  }

  /** Whether the next id has reached a multiple of `MAX_COMMON_ERRORS`. */
  predicate Full(errors: seq<CommonError>) {
    NextId(errors) > 0 && NextId(errors) % MAX_COMMON_ERRORS == 0
  }

  /** The id `new_id_calc` returns: IndexError when there are too few errors to deactivate. */
  function NewId(errors: seq<CommonError>): (r: Result<int, Error>)
    ensures r.Failure? <==> Full(errors) && FirstInactive(errors) == -1 && |errors| < MAX_COMMON_ERRORS / 2
    ensures r.Failure? ==> r.error == IndexError
    ensures r.Success? && !Full(errors) ==> forall i :: 0 <= i < |errors| ==> errors[i].id < r.value
    ensures r.Success? && Full(errors) && FirstInactive(errors) >= 0 ==>
      exists i :: 0 <= i < |errors| && errors[i].active == 0 && errors[i].id == r.value
  {
    if !Full(errors) then Success(NextId(errors))
    else if FirstInactive(errors) >= 0 then Success(errors[FirstInactive(errors)].id)
    else if |errors| < MAX_COMMON_ERRORS / 2 then Failure(IndexError)
    else Success(0)
  }

  /** The errors after `new_id_calc`: the oldest half deactivated when nothing was free. */
  function AfterNewId(errors: seq<CommonError>): (r: seq<CommonError>)
    ensures |r| == |errors|
  {
    if Full(errors) && FirstInactive(errors) == -1 then
      seq(|errors|, i requires 0 <= i < |errors| =>
        if i < MAX_COMMON_ERRORS / 2 then errors[i].(active := 0) else errors[i])
    else errors
  }

  /** With the ids kept below `MAX_COMMON_ERRORS`, the new id is below it too. */
  lemma NewIdBelowLimit(errors: seq<CommonError>)
    requires forall i :: 0 <= i < |errors| ==> 0 <= errors[i].id < MAX_COMMON_ERRORS
    requires NewId(errors).Success?
    ensures 0 <= NewId(errors).value < MAX_COMMON_ERRORS
  {
    if errors != [] {
      var i :| 0 <= i < |errors| && NextId(errors) == errors[i].id + 1;
    }
  }

  /** Unless the ids are full, the new id is one no existing error has; a reused id belongs to an inactive error. */
  lemma NewIdFresh(errors: seq<CommonError>)
    ensures !Full(errors) ==> NewId(errors) == Success(NextId(errors))
    ensures !Full(errors) ==> forall i :: 0 <= i < |errors| ==> errors[i].id != NewId(errors).value
    ensures Full(errors) && NewId(errors).Success? && NewId(errors).value != 0 ==>
      exists i :: 0 <= i < |errors| && errors[i].id == NewId(errors).value && errors[i].active == 0
    ensures Full(errors) && FirstInactive(errors) == -1 && |errors| >= MAX_COMMON_ERRORS / 2 ==>
      NewId(errors) == Success(0)
    ensures Full(errors) && FirstInactive(errors) == -1 ==>
      forall i :: 0 <= i < |errors| ==> AfterNewId(errors)[i].active == (if i < MAX_COMMON_ERRORS / 2 then 0 else errors[i].active)
  {
  }

  /**
   * `new_id_calc(common_errors, class_id)` on the class's error list, without the
   * database write.
   */
  method NewIdCalc(errors: array<CommonError>) returns (r: Result<int, Error>)
    modifies errors
    ensures r == NewId(old(errors[..]))
    ensures r.Success? ==> errors[..] == AfterNewId(old(errors[..]))
    ensures r.Failure? ==> forall i :: 0 <= i < errors.Length ==> errors[i] == old(errors[i]).(active := 0)
  {
    var newId := MaxIdPlusOne(errors);
    if newId > 0 && newId % MAX_COMMON_ERRORS == 0 {
      var k := FirstDisabled(errors);
      if k >= 0 {
        return Success(errors[k].id);
      }
      r := DeactivateOldest(errors);
    } else {
      r := Success(newId);
    }
  }

  /** `max(common_error_ids) + 1 if common_error_ids else 0` */
  method MaxIdPlusOne(errors: array<CommonError>) returns (newId: int)
    ensures newId == NextId(errors[..])
  {
    newId := 0;
    if errors.Length == 0 {
      return;
    }
    newId := errors[0].id + 1;
    var i := 1;
    while i < errors.Length
      invariant 1 <= i <= errors.Length
      invariant newId == NextId(errors[..i])
    {
      assert errors[..i + 1][..i] == errors[..i];
      if errors[i].id + 1 > newId {
        newId := errors[i].id + 1;
      }
      i := i + 1;
    }
    assert errors[..i] == errors[..];
  }

  /** The position of the first entry of `disables`, or -1. */
  method FirstDisabled(errors: array<CommonError>) returns (k: int)
    ensures k == FirstInactive(errors[..])
  {
    k := 0;
    while k < errors.Length && errors[k].active != 0
      invariant 0 <= k <= errors.Length
      invariant forall j :: 0 <= j < k ==> errors[j].active != 0
    {
      k := k + 1;
    }
    if k < errors.Length {
      FirstInactiveIs(errors[..], k);
    } else {
      FirstInactiveNone(errors[..]);
      k := -1;
    }
  }

  /** New id 0, after `common_errors['errors'][i]['active'] = 0` for the oldest half. */
  method DeactivateOldest(errors: array<CommonError>) returns (r: Result<int, Error>)
    requires Full(errors[..]) && FirstInactive(errors[..]) == -1
    modifies errors
    ensures r == NewId(old(errors[..]))
    ensures r.Success? ==> errors[..] == AfterNewId(old(errors[..]))
    ensures r.Failure? ==> forall i :: 0 <= i < errors.Length ==> errors[i] == old(errors[i]).(active := 0)
  {
    ghost var before := errors[..];
    var j := 0;
    while j < MAX_COMMON_ERRORS / 2
      invariant 0 <= j <= MAX_COMMON_ERRORS / 2 && j <= errors.Length
      invariant forall m :: 0 <= m < j ==> errors[m] == before[m].(active := 0)
      invariant forall m :: j <= m < errors.Length ==> errors[m] == before[m]
    {
      if j >= errors.Length {
        NoneInactive(before);
        return Failure(IndexError);
      }
      assert errors[j] == before[j];
      errors[j] := errors[j].(active := 0);
      j := j + 1;
    }
    NoneInactive(before);
    assert errors[..] == AfterNewId(before);
    return Success(0);
  }

  /** When every error is active, `new_id_calc` deactivates the oldest half, or raises IndexError without one. */
  lemma NoneInactive(errors: seq<CommonError>)
    requires Full(errors) && FirstInactive(errors) == -1
    ensures NewId(errors) == if |errors| < MAX_COMMON_ERRORS / 2 then Failure(IndexError) else Success(0)
    ensures forall i :: 0 <= i < |errors| ==>
      AfterNewId(errors)[i] == if i < MAX_COMMON_ERRORS / 2 then errors[i].(active := 0) else errors[i]
  {
  }

  lemma FirstInactiveIs(errors: seq<CommonError>, k: int)
    requires 0 <= k < |errors| && errors[k].active == 0
    requires forall j :: 0 <= j < k ==> errors[j].active != 0
    ensures FirstInactive(errors) == k
  {
    var f := FirstInactive(errors);
    assert f != -1 && !(f < k) && !(k < f);
  }

  lemma FirstInactiveNone(errors: seq<CommonError>)
    requires forall j :: 0 <= j < |errors| ==> errors[j].active != 0
    ensures FirstInactive(errors) == -1
  {
  }
}
