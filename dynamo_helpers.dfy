/**
 * The small helpers at the end of website/dynamo.py: the retry delay of
 * `ExponentialBackoff`, table name prefixing, dropping `None` keyword arguments, and
 * merging two optional dicts.
 */
module DynamoHelpers {
  import opened Wrappers
  import opened Builtins
  import Text

  // ---------------------------------------------------------------------------
  // `ExponentialBackoff`

  /** The delay bound after `n` sleeps: 0.05 seconds, doubled by every sleep. */
  function Delay(n: nat): (d: real)
    ensures d >= 0.05
  {
    if n == 0 then 0.05 else 2.0 * Delay(n - 1)
  }

  /** The bound grows with every sleep. */
  lemma {:induction false} DelayGrows(m: nat, n: nat)
    requires m <= n
    ensures Delay(m) <= Delay(n)
    decreases n - m
  {
    if m < n {
      DelayGrows(m, n - 1);
    }
  }

  /** After `n` sleeps the bound is 0.05 times 2 to the `n`. */
  lemma {:induction false} DelayIsPower(n: nat)
    ensures Delay(n) == 0.05 * (Pow2(n) as real)
  {
    if n > 0 {
      DelayIsPower(n - 1);
    }
  }

  function Pow2(n: nat): (p: nat)
    ensures p >= 1
  {
    if n == 0 then 1 else 2 * Pow2(n - 1)
  }

  /**
   * `ExponentialBackoff`: `time` is the upper bound of the next random sleep. The sleep
   * itself is not modelled; `sleeps` counts the sleeps taken so far.
   */
  class ExponentialBackoff {
    var time: real
    ghost var sleeps: nat

    ghost predicate Valid()
      reads this
    {
      time == Delay(sleeps)
    }

    constructor()
      ensures Valid() && sleeps == 0 && time == 0.05
    {
      time := 0.05;
      sleeps := 0;
    }

    /** `sleep()`: after sleeping up to `time` seconds, the bound doubles. */
    method Sleep()
      requires Valid()
      modifies this
      ensures Valid() && sleeps == old(sleeps) + 1
      ensures time == 2.0 * old(time)
    {
      time := time * 2.0;
      sleeps := sleeps + 1;
    }

    /** `sleep_when(condition)`: sleeps only when the condition is truthy. */
    method SleepWhen(condition: bool)
      requires Valid()
      modifies this
      ensures Valid()
      ensures condition ==> sleeps == old(sleeps) + 1 && time == 2.0 * old(time)
      ensures !condition ==> sleeps == old(sleeps) && time == old(time)
    {
      if condition {
        Sleep();
      }
    }
  }

  // ---------------------------------------------------------------------------
  // `make_table_name`, `notnone`, `merge_dicts`

  /** `make_table_name(prefix, name)`: `{prefix}-{name}`, or just the name when there is no prefix. */
  function MakeTableName(prefix: string, name: string): (r: string)
    ensures prefix == "" ==> r == name
    ensures prefix != "" ==> Text.StartsWith(r, prefix + "-") && |r| == |prefix| + 1 + |name|
    ensures Text.EndsWith(r, name)
  {
    if prefix != "" then prefix + "-" + name else name
  }

  /** Two prefixed names are equal only for the same name. */
  lemma MakeTableNameInjective(prefix: string, a: string, b: string)
    requires MakeTableName(prefix, a) == MakeTableName(prefix, b)
    ensures a == b
  {
    var ra := MakeTableName(prefix, a);
    assert a == ra[|ra| - |a|..];
    assert b == ra[|ra| - |b|..];
  }

  /** `notnone(**kwargs)`: the keyword arguments whose value is not `None`, in order. */
  function NotNone<V(!new)>(kwargs: seq<(string, Option<V>)>): (r: seq<(string, V)>)
    ensures |r| <= |kwargs|
    ensures forall e :: e in r <==> (e.0, Some(e.1)) in kwargs
  {
    if kwargs == [] then []
    else
      var rest := NotNone(kwargs[1..]);
      assert forall e :: e in kwargs <==> e == kwargs[0] || e in kwargs[1..];
      match kwargs[0].1
      case None => rest
      case Some(v) => [(kwargs[0].0, v)] + rest
  }

  /** Arguments that are all given are kept as they are. */
  lemma {:induction false} NotNoneAllGiven<V(!new)>(kwargs: seq<(string, Option<V>)>)
    requires forall i :: 0 <= i < |kwargs| ==> kwargs[i].1.Some?
    ensures |NotNone(kwargs)| == |kwargs|
    ensures forall i :: 0 <= i < |kwargs| ==> NotNone(kwargs)[i] == (kwargs[i].0, kwargs[i].1.value)
  {
    if kwargs != [] {
      NotNoneAllGiven(kwargs[1..]);
    }
  }

  /** `bool(d)` of an optional dict. */
  predicate Truthy<V>(d: Option<map<string, V>>) {
    d.Some? && d.value != map[]
  }

  /**
   * `merge_dicts(a, b)`: a falsy side gives the other unchanged; otherwise
   * `dict(**a, **b)`, which raises TypeError when a key appears on both sides.
   */
  function MergeDicts<V>(a: Option<map<string, V>>, b: Option<map<string, V>>): (r: Result<Option<map<string, V>>, Error>)
    ensures !Truthy(a) ==> r == Success(b)
    ensures Truthy(a) && !Truthy(b) ==> r == Success(a)
    ensures Truthy(a) && Truthy(b) ==> (r.Failure? <==> exists k :: k in a.value && k in b.value)
    ensures r.Failure? ==> r.error == TypeError
    ensures Truthy(a) && Truthy(b) && r.Success? ==> (r.value.Some? &&
      r.value.value.Keys == a.value.Keys + b.value.Keys &&
      (forall k :: k in a.value ==> r.value.value[k] == a.value[k]) &&
      (forall k :: k in b.value ==> r.value.value[k] == b.value[k]))
  {
    if !Truthy(a) then Success(b)
    else if !Truthy(b) then Success(a)
    else if exists k :: k in a.value && k in b.value then Failure(TypeError)
    else Success(Some(a.value + b.value))
  }

  /** With no key in common, the order of the two dicts does not matter. */
  lemma MergeDictsSymmetric<V>(a: Option<map<string, V>>, b: Option<map<string, V>>)
    requires MergeDicts(a, b).Success?
    requires Truthy(a) && Truthy(b)
    ensures MergeDicts(b, a) == MergeDicts(a, b)
  {
    assert a.value + b.value == b.value + a.value;
  }
}
