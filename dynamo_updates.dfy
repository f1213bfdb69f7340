/**
 * Field updates of the table layer (website/dynamo.py, the `DynamoUpdate` classes) and
 * how the in-memory storage applies them to a stored record.
 */
module DynamoUpdates {
  import opened Wrappers
  import opened Builtins
  import opened DynamoValues

  datatype UpdateOp =
    | Increment(delta: int)
    | AddToStringSet(elements: seq<Value>)
    | AddToNumberSet(elements: seq<Value>)
    | AddToList(elements: seq<Value>)
    | RemoveFromStringSet(elements: seq<Value>)
      /** A `None` update value: delete the field. */
    | Remove
      /** Any other value: store it as is. */
    | Plain(value: Value)

  /** `DynamoIncrement()` with its default delta. */
  function DefaultIncrement(): (u: UpdateOp)
    ensures u == Increment(1)
  {
    Increment(1)
  }

  /** `DynamoAddToNumberSet(*elements)`: every element must be a number, else ValueError. */
  function NewAddToNumberSet(elements: seq<Value>): (r: Result<UpdateOp, Error>)
    ensures r.Success? <==> forall i :: 0 <= i < |elements| ==> elements[i].Num?
    ensures r.Success? ==> r.value == AddToNumberSet(elements)
    ensures r.Failure? ==> r.error == ValueError
  {
    if forall i :: 0 <= i < |elements| ==> elements[i].Num? then Success(AddToNumberSet(elements))
    else Failure(ValueError)
  }

  /** Whether Python can hash the value: text and numbers can, lists and sets cannot. */
  predicate Hashable(v: Value) {
    !v.List? && !v.Set?
  }

  predicate AllHashable(elements: seq<Value>) {
    forall i :: 0 <= i < |elements| ==> Hashable(elements[i])
  }

  /** `set(update.elements)`: TypeError when an element is a list or a set. */
  function ElementSet(elements: seq<Value>): (r: Result<set<Value>, Error>)
    ensures r.Success? <==> AllHashable(elements)
    ensures r.Failure? ==> r.error == TypeError
    ensures r.Success? ==> forall v :: v in r.value <==> v in elements
  {
    if AllHashable(elements) then Success(set v | v in elements) else Failure(TypeError)
  }

  /** A set update whose elements `set(...)` cannot hash. */
  predicate Unhashable(op: UpdateOp) {
    (op.AddToStringSet? || op.AddToNumberSet? || op.RemoveFromStringSet?) && !AllHashable(op.elements)
  }

  /** `record.get(name, default)` */
  function GetOr(r: Record, name: string, default: Value): (v: Value)
    ensures name in r ==> v == r[name]
    ensures name !in r ==> v == default
  {
    if name in r then r[name] else default
  }

  /**
   * Whether a stored field value has the kind the update works on: a number for an
   * increment, a set for the set updates, a list for a list append. Deleting and
   * overwriting work on any value.
   */
  predicate Fits(op: UpdateOp, v: Value) {
    match op
    case Increment(_) => v.Num?
    case AddToStringSet(_) => v.Set?
    case AddToNumberSet(_) => v.Set?
    case RemoveFromStringSet(_) => v.Set?
    case AddToList(_) => v.List?
    case Remove => true
    case Plain(_) => true
  }

  /**
   * One update of the in-memory `update`: the new record, or the error it raises. A
   * missing field counts as 0, the empty set or the empty list. A set update raises
   * TypeError both for a stored value that is not a set and for an element that
   * `set(...)` cannot hash.
   */
  function ApplyOne(r: Record, name: string, op: UpdateOp): (res: Result<Record, Error>)
    ensures res.Failure? <==> (name in r && !Fits(op, r[name])) || Unhashable(op)
    ensures res.Failure? ==> res.error == TypeError
    ensures res.Success? ==> forall k :: k != name ==> (k in res.value <==> k in r)
    ensures res.Success? ==> forall k :: k != name && k in r ==> res.value[k] == r[k]
    ensures res.Success? && op.Increment? ==>
      name in res.value && res.value[name] == Num((if name in r then r[name].n else 0) + op.delta)
    ensures res.Success? && (op.AddToStringSet? || op.AddToNumberSet?) ==>
      name in res.value && res.value[name].Set? &&
      forall v :: v in res.value[name].elems <==> (name in r && v in r[name].elems) || v in op.elements
    ensures res.Success? && op.RemoveFromStringSet? ==>
      name in res.value && res.value[name].Set? &&
      forall v :: v in res.value[name].elems <==> name in r && v in r[name].elems && v !in op.elements
    ensures res.Success? && op.AddToList? ==>
      name in res.value && res.value[name] == List((if name in r then r[name].items else []) + op.elements)
    ensures op.Remove? ==> res.Success? && name !in res.value
    ensures op.Plain? ==> res.Success? && name in res.value && res.value[name] == op.value
  {
    match op
    case Increment(delta) =>
      var existing := GetOr(r, name, Num(0));
      if existing.Num? then Success(r[name := Num(existing.n + delta)]) else Failure(TypeError)
    case AddToStringSet(elements) =>
      var existing := GetOr(r, name, Set({}));
      if !existing.Set? then Failure(TypeError)
      else
        (match ElementSet(elements)
         case Success(added) => Success(r[name := Set(existing.elems + added)])
         case Failure(e) => Failure(e))
    case AddToNumberSet(elements) =>
      var existing := GetOr(r, name, Set({}));
      if !existing.Set? then Failure(TypeError)
      else
        (match ElementSet(elements)
         case Success(added) => Success(r[name := Set(existing.elems + added)])
         case Failure(e) => Failure(e))
    case RemoveFromStringSet(elements) =>
      var existing := GetOr(r, name, Set({}));
      if !existing.Set? then Failure(TypeError)
      else
        (match ElementSet(elements)
         case Success(added) => Success(r[name := Set(existing.elems - added)])
         case Failure(e) => Failure(e))
    case AddToList(elements) =>
      var existing := GetOr(r, name, List([]));
      if existing.List? then Success(r[name := List(existing.items + elements)]) else Failure(TypeError)
    case Remove =>
      Success(if name in r then r - {name} else r)
    case Plain(v) =>
      Success(r[name := v])
  }

  /**
   * Applying the updates in order. The record is changed in place in the storage, so
   * when one update raises, the record keeps the updates before it: the result is the
   * record at that moment together with the error.
   */
  function ApplyAll(r: Record, updates: seq<(string, UpdateOp)>): (res: (Record, Option<Error>))
    ensures res.1.Some? ==> res.1.value == TypeError
    ensures forall k :: k in res.0 && k !in r ==> exists i :: 0 <= i < |updates| && updates[i].0 == k
    decreases |updates|
  {
    if updates == [] then (r, None)
    else
      var (before, err) := ApplyAll(r, updates[..|updates| - 1]);
      assert forall i :: 0 <= i < |updates| - 1 ==> updates[..|updates| - 1][i] == updates[i];
      if err.Some? then (before, err)
      else
        var last := updates[|updates| - 1];
        match ApplyOne(before, last.0, last.1)
        case Success(after) => (after, None)
        case Failure(e) => (before, Some(e))
  }

  /** Fields that no update names keep their presence and their value. */
  lemma {:induction false} ApplyAllFrame(r: Record, updates: seq<(string, UpdateOp)>, k: string)
    requires forall i :: 0 <= i < |updates| ==> updates[i].0 != k
    ensures (k in ApplyAll(r, updates).0 <==> k in r)
    ensures k in r ==> ApplyAll(r, updates).0[k] == r[k]
    decreases |updates|
  {
    if updates != [] {
      ApplyAllFrame(r, updates[..|updates| - 1], k);
    }
  }

  /** An update list with one more update at the end, on a record that the prefix left error-free. */
  lemma ApplyAllSnoc(r: Record, updates: seq<(string, UpdateOp)>, u: (string, UpdateOp))
    requires ApplyAll(r, updates).1.None?
    ensures ApplyAll(r, updates + [u]) ==
      match ApplyOne(ApplyAll(r, updates).0, u.0, u.1)
      case Success(after) => (after, None)
      case Failure(e) => (ApplyAll(r, updates).0, Some(e))
  {
    assert (updates + [u])[..|updates|] == updates;
  }

  /**
   * One more update after the first `k`: it is applied to the record so far, and when it
   * raises, the record so far and its error are the outcome of the whole sequence.
   */
  lemma ApplyAllStep(r: Record, updates: seq<(string, UpdateOp)>, k: nat, current: Record)
    requires k < |updates|
    requires ApplyAll(r, updates[..k]) == (current, None)
    ensures ApplyAll(r, updates[..k + 1]) ==
      match ApplyOne(current, updates[k].0, updates[k].1)
      case Success(after) => (after, None)
      case Failure(e) => (current, Some(e))
    ensures ApplyOne(current, updates[k].0, updates[k].1).Failure? ==>
      ApplyAll(r, updates) == (current, Some(ApplyOne(current, updates[k].0, updates[k].1).error))
  {
    ApplyAllSnoc(r, updates[..k], updates[k]);
    assert updates[..k] + [updates[k]] == updates[..k + 1];
    if ApplyOne(current, updates[k].0, updates[k].1).Failure? {
      ApplyAllStops(r, updates, k + 1);
    }
  }

  /** Once an update has raised, the later updates are not applied. */
  lemma {:induction false} ApplyAllStops(r: Record, updates: seq<(string, UpdateOp)>, k: nat)
    requires k <= |updates|
    requires ApplyAll(r, updates[..k]).1.Some?
    ensures ApplyAll(r, updates) == ApplyAll(r, updates[..k])
    decreases |updates| - k
  {
    if k < |updates| {
      var init := updates[..|updates| - 1];
      assert init[..k] == updates[..k];
      ApplyAllStops(r, init, k);
    } else {
      assert updates[..k] == updates;
    }
  }

  /** Incrementing a missing field stores the delta. */
  lemma IncrementMissing(r: Record, name: string, delta: int)
    requires name !in r
    ensures ApplyOne(r, name, Increment(delta)) == Success(r[name := Num(delta)])
  {
  }

  /** Two increments of a numeric (or missing) field add both deltas. */
  lemma IncrementTwice(r: Record, name: string, a: int, b: int)
    requires name !in r || r[name].Num?
    ensures ApplyAll(r, [(name, Increment(a)), (name, Increment(b))]).1 == None
    ensures ApplyAll(r, [(name, Increment(a)), (name, Increment(b))]).0[name]
      == Num(GetOr(r, name, Num(0)).n + a + b)
  {
    var us := [(name, Increment(a)), (name, Increment(b))];
    assert us[..1] == [(name, Increment(a))];
    assert us[..1][..0] == [];
    var first := ApplyOne(r, name, Increment(a));
    assert ApplyAll(r, us[..1]) == (first.value, None);
    assert first.value[name] == Num(GetOr(r, name, Num(0)).n + a);
  }

  /** Adding to a field that is not a set raises TypeError. */
  lemma AddToNonSet(r: Record, name: string, elements: seq<Value>)
    requires name in r && !r[name].Set?
    ensures ApplyOne(r, name, AddToStringSet(elements)) == Failure(TypeError)
  {
  }

  /**
   * Adding elements to a string set and then removing them restores the set exactly
   * when none of them was in it before.
   */
  lemma AddThenRemove(r: Record, name: string, elements: seq<Value>)
    requires name in r && r[name].Set?
    requires AllHashable(elements)
    ensures var once := ApplyOne(r, name, AddToStringSet(elements)).value;
      var twice := ApplyOne(once, name, RemoveFromStringSet(elements)).value;
      twice[name] == Set(r[name].elems - ElementSet(elements).value)
  {
  }

  lemma AddThenRemoveRestoresDisjoint(r: Record, name: string, elements: seq<Value>)
    requires name in r && r[name].Set?
    requires AllHashable(elements)
    requires forall v :: v in elements ==> v !in r[name].elems
    ensures var once := ApplyOne(r, name, AddToStringSet(elements)).value;
      ApplyOne(once, name, RemoveFromStringSet(elements)).value == r
  {
    var once := ApplyOne(r, name, AddToStringSet(elements)).value;
    var twice := ApplyOne(once, name, RemoveFromStringSet(elements)).value;
    assert r[name].elems - ElementSet(elements).value == r[name].elems;
    assert twice == r;
  }

  /** An element that was already in the set is gone after an add followed by a remove. */
  lemma AddThenRemoveLosesShared()
    ensures var r: Record := map["tags" := Set({Str("a")})];
      var once := ApplyOne(r, "tags", AddToStringSet([Str("a")])).value;
      ApplyOne(once, "tags", RemoveFromStringSet([Str("a")])).value != r
  {
    var r: Record := map["tags" := Set({Str("a")})];
    var once := ApplyOne(r, "tags", AddToStringSet([Str("a")])).value;
    var twice := ApplyOne(once, "tags", RemoveFromStringSet([Str("a")])).value;
    assert Str("a") in ElementSet([Str("a")]).value;
    assert twice["tags"] == Set({});
  }

  /**
   * A list element cannot be hashed, so adding it to a set raises TypeError even on a
   * record without the field.
   */
  lemma AddUnhashableFails(r: Record, name: string, elements: seq<Value>, i: nat)
    requires i < |elements| && (elements[i].List? || elements[i].Set?)
    ensures ApplyOne(r, name, AddToStringSet(elements)) == Failure(TypeError)
    ensures ApplyOne(r, name, RemoveFromStringSet(elements)) == Failure(TypeError)
  {
    assert !Hashable(elements[i]);
  }

  /** The set updates succeed on a missing field when every element can be hashed. */
  lemma AddHashableToMissing(r: Record, name: string, elements: seq<Value>)
    requires name !in r && AllHashable(elements)
    ensures ApplyOne(r, name, AddToStringSet(elements)).Success?
    ensures ApplyOne(r, name, RemoveFromStringSet(elements)) == Success(r[name := Set({})])
  {
    var added := ElementSet(elements).value;
    assert {} - added == {};
  }

  /** A `None` update deletes the field. */
  lemma RemoveDeletes(r: Record, name: string)
    ensures ApplyOne(r, name, Remove).Success?
    ensures name !in ApplyOne(r, name, Remove).value
  {
  }
}
