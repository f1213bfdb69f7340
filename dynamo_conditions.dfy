/**
 * Key conditions of the table layer (website/dynamo.py): a key or filter maps field
 * names either to a value the field must equal or to a `Between` range. A condition
 * mapping is a Python dict, so it is kept here as a list of entries in insertion order.
 */
module DynamoConditions {
  import opened Wrappers
  import opened Builtins
  import opened DynamoValues
  import Text

  /** `Between(minval, maxval)`: inclusive at both ends. */
  datatype Between = Between(minval: Value, maxval: Value) {
    /**
     * `minval <= value <= maxval` as a Python chained comparison: the upper bound is
     * compared only once the lower one holds. A missing field (`None`) raises TypeError.
     */
    function Matches(value: Option<Value>): (r: Result<bool, Error>)
      ensures r.Failure? ==> r.error == TypeError
      ensures value.Some? ==>
        (r == Success(true) <==> LessEq(minval, value.value) == Success(true) && LessEq(value.value, maxval) == Success(true))
      ensures r.Failure? <==>
        (value.None? || LessEq(minval, value.value).Failure? ||
         (LessEq(minval, value.value) == Success(true) && LessEq(value.value, maxval).Failure?))
      ensures value.Some? && LessEq(minval, value.value) == Success(false) ==> r == Success(false)
    {
      match value
      case None => Failure(TypeError)
      case Some(v) =>
        var low :- LessEq(minval, v);
        if !low then Success(false) else LessEq(v, maxval)
    }
  }

  /** For numbers, `Between` is the closed interval from `minval` to `maxval`. */
  lemma BetweenNumbers(lo: int, hi: int, v: int)
    ensures Between(Num(lo), Num(hi)).Matches(Some(Num(v))) == Success(lo <= v <= hi)
  {
  }

  /** For strings, `Between` is the closed interval in lexicographic order. */
  lemma BetweenStrings(lo: string, hi: string, v: string)
    ensures Between(Str(lo), Str(hi)).Matches(Some(Str(v))) == Success(Text.Le(lo, v) && Text.Le(v, hi))
  {
  }

  /**
   * A number compared with a string bound raises TypeError when the comparison is
   * reached, even if the other bound could have decided it.
   */
  lemma BetweenMixedKinds(lo: int, hi: string, v: int)
    ensures Between(Num(lo), Str(hi)).Matches(Some(Num(v))) == (if lo <= v then Failure(TypeError) else Success(false))
  {
  }

  /** A missing field never matches a range; it raises. */
  lemma BetweenMissingField(b: Between)
    ensures b.Matches(None) == Failure(TypeError)
  {
  }

  datatype KeyValue = Eq(value: Value) | Cond(cond: Between)

  /** A key, filter or pagination key: field names with their conditions, in insertion order. */
  type Conditions = seq<(string, KeyValue)>

  /** `bool(v)` of a key value; a `Between` object is always true. */
  predicate KeyValueTruthy(v: KeyValue) {
    match v
    case Eq(x) => Truthy(x)
    case Cond(_) => true
  }

  function Names<T>(entries: seq<(string, T)>): (r: seq<string>)
    ensures |r| == |entries|
    ensures forall i :: 0 <= i < |entries| ==> r[i] == entries[i].0
  {
    if entries == [] then [] else [entries[0].0] + Names(entries[1..])
  }

  lemma NamesCons<T>(x: (string, T), rest: seq<(string, T)>)
    ensures Names([x] + rest) == [x.0] + Names(rest)
  {
  }

  /**
   * `DynamoCondition.partition`: splits a condition mapping into the equality
   * conditions and the range conditions, each in its original order.
   */
  function Partition(key: Conditions): (r: (seq<(string, Value)>, seq<(string, Between)>))
    ensures |r.0| + |r.1| == |key|
  {
    if key == [] then ([], [])
    else
      var rest := Partition(key[1..]);
      match key[0].1
      case Eq(v) => ([(key[0].0, v)] + rest.0, rest.1)
      case Cond(c) => (rest.0, [(key[0].0, c)] + rest.1)
  }

  /** Every equality entry lands among the equality conditions, and nothing else does. */
  lemma {:induction false} PartitionEq(key: Conditions)
    ensures forall i :: 0 <= i < |key| && key[i].1.Eq? ==> (key[i].0, key[i].1.value) in Partition(key).0
    ensures forall p :: p in Partition(key).0 ==> (p.0, Eq(p.1)) in key
  {
    if key != [] {
      var tail := key[1..];
      PartitionEq(tail);
      var rest := Partition(tail);
      forall i | 0 <= i < |key| && key[i].1.Eq? ensures (key[i].0, key[i].1.value) in Partition(key).0 {
        if i > 0 { assert key[i] == tail[i - 1]; }
      }
      forall p | p in Partition(key).0 ensures (p.0, Eq(p.1)) in key {
        if p in rest.0 {
          var j :| 0 <= j < |tail| && tail[j] == (p.0, Eq(p.1));
          assert key[j + 1] == tail[j];
        }
      }
    }
  }

  /** Every range entry lands among the range conditions, and nothing else does. */
  lemma {:induction false} PartitionCond(key: Conditions)
    ensures forall i :: 0 <= i < |key| && key[i].1.Cond? ==> (key[i].0, key[i].1.cond) in Partition(key).1
    ensures forall p :: p in Partition(key).1 ==> (p.0, Cond(p.1)) in key
  {
    if key != [] {
      var tail := key[1..];
      PartitionCond(tail);
      var rest := Partition(tail);
      forall i | 0 <= i < |key| && key[i].1.Cond? ensures (key[i].0, key[i].1.cond) in Partition(key).1 {
        if i > 0 { assert key[i] == tail[i - 1]; }
      }
      forall p | p in Partition(key).1 ensures (p.0, Cond(p.1)) in key {
        if p in rest.1 {
          var j :| 0 <= j < |tail| && tail[j] == (p.0, Cond(p.1));
          assert key[j + 1] == tail[j];
        }
      }
    }
  }

  /**
   * `validate_only_sort_key`: when a sort key is given, range conditions are allowed
   * on that field only; anything else raises RuntimeError.
   */
  function ValidateOnlySortKey(conds: seq<(string, Between)>, sortKey: Option<string>): (r: Result<(), Error>)
    ensures r.Failure? <==> Given(sortKey) && exists i :: 0 <= i < |conds| && conds[i].0 != sortKey.value
    ensures r.Failure? ==> r.error == RuntimeError
  {
    if Given(sortKey) && exists i :: 0 <= i < |conds| && conds[i].0 != sortKey.value then
      Failure(RuntimeError)
    else Success(())
  }

  /** The equality part of `_query_matches`, also `_eq_matches`: `record.get(k) == v` for all. */
  predicate EqMatches(r: Record, eq: seq<(string, Value)>) {
    forall i :: 0 <= i < |eq| ==> Get(r, eq[i].0) == Some(eq[i].1)
  }

  /**
   * `all(cond.matches(record.get(k)) for k, cond in conds)`: conditions are evaluated
   * in order, stopping at the first one that is false; an error before that propagates.
   */
  function CondsMatch(r: Record, conds: seq<(string, Between)>): (m: Result<bool, Error>)
    ensures m == Success(true) <==> forall i :: 0 <= i < |conds| ==> conds[i].1.Matches(Get(r, conds[i].0)) == Success(true)
    ensures m.Success? && !m.value ==> exists i :: 0 <= i < |conds| && conds[i].1.Matches(Get(r, conds[i].0)) == Success(false)
  {
    if conds == [] then Success(true)
    else
      var first :- conds[0].1.Matches(Get(r, conds[0].0));
      assert forall i :: 1 <= i < |conds| ==> conds[i] == conds[1..][i - 1];
      if !first then Success(false) else CondsMatch(r, conds[1..])
  }

  /** `_query_matches`: the equality conditions first, then the ranges. */
  function QueryMatches(r: Record, eq: seq<(string, Value)>, conds: seq<(string, Between)>): (m: Result<bool, Error>)
    ensures m == Success(true) <==> EqMatches(r, eq) && CondsMatch(r, conds) == Success(true)
    ensures !EqMatches(r, eq) ==> m == Success(false)
  {
    if !EqMatches(r, eq) then Success(false) else CondsMatch(r, conds)
  }
}
