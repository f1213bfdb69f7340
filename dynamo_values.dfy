/**
 * Stored values and records of the key-value table layer (website/dynamo.py).
 *
 * A record is an open mapping from field name to value. Values are strings,
 * numbers, sets and lists. Python truthiness, Python's `<=` on values, and the stable
 * sort by one field that the in-memory query applies are defined here.
 */
module DynamoValues {
  import opened Wrappers
  import opened Builtins
  import Text

  datatype Value =
    | Str(s: string)
    | Num(n: int)
    | Set(elems: set<Value>)
    | List(items: seq<Value>)

  type Record = map<string, Value>

  /** Python's `bool(v)`: empty strings, zero, empty sets and empty lists are false. */
  predicate Truthy(v: Value) {
    match v
    case Str(s) => s != ""
    case Num(n) => n != 0
    case Set(e) => e != {}
    case List(items) => items != []
  }

  /** An optional field name that is given and non-empty (`if sort_key:`). */
  predicate Given(name: Option<string>) {
    name.Some? && name.value != ""
  }

  /** `record.get(k)` */
  function Get(r: Record, k: string): (v: Option<Value>)
    ensures v.Some? <==> k in r
    ensures k in r ==> v.value == r[k]
  {
    if k in r then Some(r[k]) else None
  }

  // ---------------------------------------------------------------------------
  // Python comparison of values.

  /**
   * Python's `a <= b`: numbers compare numerically, strings lexicographically, sets by
   * inclusion and lists element by element; any pair of different kinds raises
   * TypeError.
   */
  function LessEq(a: Value, b: Value): (r: Result<bool, Error>)
    ensures r.Failure? ==> r.error == TypeError
    ensures !SameKind(a, b) ==> r == Failure(TypeError)
    ensures a.Num? && b.Num? ==> r == Success(a.n <= b.n)
    ensures a.Str? && b.Str? ==> r == Success(Text.Le(a.s, b.s))
    ensures a.Set? && b.Set? ==> r == Success(a.elems <= b.elems)
    decreases a, if a.List? then |a.items| + 1 else 0
  {
    match (a, b)
    case (Num(x), Num(y)) => Success(x <= y)
    case (Str(x), Str(y)) => Success(Text.Le(x, y))
    case (Set(x), Set(y)) => Success(x <= y)
    case (List(_), List(_)) => ListLessEq(a, b, 0)
    case _ => Failure(TypeError)
  }

  predicate SameKind(a: Value, b: Value) {
    (a.Num? && b.Num?) || (a.Str? && b.Str?) || (a.Set? && b.Set?) || (a.List? && b.List?)
  }

  /**
   * List `<=` from position `i` on: the first position where the elements differ
   * decides, by `<=` on those elements; when one list runs out first, the shorter one
   * is the smaller.
   */
  function ListLessEq(a: Value, b: Value, i: nat): (r: Result<bool, Error>)
    requires a.List? && b.List?
    requires i <= |a.items| && i <= |b.items|
    ensures r.Failure? ==> r.error == TypeError
    decreases a, |a.items| - i
  {
    if i == |a.items| || i == |b.items| then Success(|a.items| <= |b.items|)
    else if a.items[i] == b.items[i] then ListLessEq(a, b, i + 1)
    else LessEq(a.items[i], b.items[i])
  }

  /** `a <= a` holds for every value. */
  lemma {:induction false} LessEqReflexive(a: Value)
    ensures LessEq(a, a) == Success(true)
    decreases a, 1
  {
    match a
    case Str(s) => Text.LeTotal(s, s);
    case Num(_) =>
    case Set(_) =>
    case List(items) => ListSameFrom(a, 0);
  }

  lemma {:induction false} ListSameFrom(a: Value, i: nat)
    requires a.List? && i <= |a.items|
    ensures ListLessEq(a, a, i) == Success(true)
    decreases |a.items| - i
  {
    if i < |a.items| {
      ListSameFrom(a, i + 1);
    }
  }

  /**
   * Two lists that agree on their first `i` elements and differ at position `i`
   * compare as those two elements do.
   */
  lemma {:induction false} ListFirstDifference(a: Value, b: Value, i: nat)
    requires a.List? && b.List?
    requires i < |a.items| && i < |b.items|
    requires a.items[..i] == b.items[..i] && a.items[i] != b.items[i]
    ensures LessEq(a, b) == LessEq(a.items[i], b.items[i])
  {
    ListAgreeUpTo(a, b, 0, i);
  }

  /** A list is `<=` every list it is a prefix of. */
  lemma {:induction false} ListPrefix(a: Value, b: Value)
    requires a.List? && b.List?
    requires |a.items| <= |b.items| && a.items == b.items[..|a.items|]
    ensures LessEq(a, b) == Success(true)
  {
    ListAgreeUpTo(a, b, 0, |a.items|);
  }

  /** On a common stretch the list comparison moves on to its end. */
  lemma {:induction false} ListAgreeUpTo(a: Value, b: Value, k: nat, i: nat)
    requires a.List? && b.List?
    requires k <= i <= |a.items| && i <= |b.items|
    requires a.items[..i] == b.items[..i]
    ensures ListLessEq(a, b, k) == ListLessEq(a, b, i)
    decreases i - k
  {
    if k < i {
      assert a.items[k] == a.items[..i][k] == b.items[..i][k] == b.items[k];
      ListAgreeUpTo(a, b, k + 1, i);
    }
  }

  // ---------------------------------------------------------------------------
  // The order used to sort records by a field.

  function Rank(v: Value): nat {
    match v
    case Num(_) => 0
    case Str(_) => 1
    case _ => 2
  }

  /**
   * A total preorder on values. On two numbers or two strings it is Python's `<=`;
   * the query only sorts when all sort values are numbers or all are strings.
   */
  predicate SortLe(a: Value, b: Value) {
    if Rank(a) != Rank(b) then Rank(a) < Rank(b)
    else if a.Num? then a.n <= b.n
    else if a.Str? then Text.Le(a.s, b.s)
    else true
  }

  lemma SortLeAgreesWithLessEq(a: Value, b: Value)
    requires (a.Num? && b.Num?) || (a.Str? && b.Str?)
    ensures LessEq(a, b) == Success(SortLe(a, b))
  {
  }

  lemma SortLeTotal(a: Value, b: Value)
    ensures SortLe(a, b) || SortLe(b, a)
  {
    if a.Str? && b.Str? { Text.LeTotal(a.s, b.s); }
  }

  lemma SortLeTransitive(a: Value, b: Value, c: Value)
    requires SortLe(a, b) && SortLe(b, c)
    ensures SortLe(a, c)
  {
    if a.Str? && b.Str? && c.Str? { Text.LeTransitive(a.s, b.s, c.s); }
  }

  /** The value a record holds in field `k`, used as sort key once presence is checked. */
  function FieldValue(r: Record, k: string): Value {
    if k in r then r[k] else Str("")
  }

  predicate Ascending(rs: seq<Record>, k: string) {
    forall i, j :: 0 <= i < j < |rs| ==> SortLe(FieldValue(rs[i], k), FieldValue(rs[j], k))
  }

  predicate Descending(rs: seq<Record>, k: string) {
    forall i, j :: 0 <= i < j < |rs| ==> SortLe(FieldValue(rs[j], k), FieldValue(rs[i], k))
  }

  /** Inserting before the first record that does not sort below `x` keeps equal keys in input order. */
  function Insert(x: Record, ys: seq<Record>, k: string): (r: seq<Record>)
    ensures multiset(r) == multiset{x} + multiset(ys)
    ensures |r| == |ys| + 1
  {
    if ys == [] then [x]
    else if SortLe(FieldValue(x, k), FieldValue(ys[0], k)) then [x] + ys
    else
      assert ys == [ys[0]] + ys[1..];
      [ys[0]] + Insert(x, ys[1..], k)
  }

  /** `rs.sort(key=lambda r: r[k])`: a stable sort by field `k`. */
  function SortByField(rs: seq<Record>, k: string): (r: seq<Record>)
    ensures multiset(r) == multiset(rs)
    ensures |r| == |rs|
  {
    if rs == [] then []
    else
      assert rs == [rs[0]] + rs[1..];
      Insert(rs[0], SortByField(rs[1..], k), k)
  }

  lemma {:induction false} InsertAscending(x: Record, ys: seq<Record>, k: string)
    requires Ascending(ys, k)
    ensures Ascending(Insert(x, ys, k), k)
  {
    if ys != [] {
      var kx := FieldValue(x, k);
      if SortLe(kx, FieldValue(ys[0], k)) {
        var r := [x] + ys;
        forall i, j | 0 <= i < j < |r|
          ensures SortLe(FieldValue(r[i], k), FieldValue(r[j], k))
        {
          if i == 0 && j > 1 {
            SortLeTransitive(kx, FieldValue(ys[0], k), FieldValue(ys[j - 1], k));
          }
        }
      } else {
        SortLeTotal(kx, FieldValue(ys[0], k));
        var tail := Insert(x, ys[1..], k);
        InsertAscending(x, ys[1..], k);
        var r := [ys[0]] + tail;
        HeadBelowInsert(x, ys, k);
        forall i, j | 0 <= i < j < |r|
          ensures SortLe(FieldValue(r[i], k), FieldValue(r[j], k))
        {
          if i == 0 {
            assert r[j] in tail;
          } else {
            assert r[i] == tail[i - 1] && r[j] == tail[j - 1];
          }
        }
      }
    }
  }

  /** A first record that sorts at or below `x` sorts at or below everything `x` is inserted among after it. */
  lemma HeadBelowInsert(x: Record, ys: seq<Record>, k: string)
    requires ys != [] && Ascending(ys, k) && SortLe(FieldValue(ys[0], k), FieldValue(x, k))
    ensures forall z :: z in Insert(x, ys[1..], k) ==> SortLe(FieldValue(ys[0], k), FieldValue(z, k))
  {
    var tail := Insert(x, ys[1..], k);
    forall z | z in tail ensures SortLe(FieldValue(ys[0], k), FieldValue(z, k)) {
      assert z in multiset(tail);
      assert z == x || z in multiset(ys[1..]);
      if z != x {
        var m :| 0 <= m < |ys[1..]| && ys[1..][m] == z;
        assert ys[m + 1] == z;
      }
    }
  }

  lemma {:induction false} SortAscending(rs: seq<Record>, k: string)
    ensures Ascending(SortByField(rs, k), k)
  {
    if rs != [] {
      SortAscending(rs[1..], k);
      InsertAscending(rs[0], SortByField(rs[1..], k), k);
    }
  }

  /** `rs.reverse()` */
  function Reverse<T>(rs: seq<T>): (r: seq<T>)
    ensures |r| == |rs|
    ensures forall i :: 0 <= i < |rs| ==> r[i] == rs[|rs| - 1 - i]
  {
    seq(|rs|, i requires 0 <= i < |rs| => rs[|rs| - 1 - i])
  }

  lemma ReverseMultiset<T>(rs: seq<T>)
    ensures multiset(Reverse(rs)) == multiset(rs)
  {
    if rs != [] {
      var r := Reverse(rs);
      var last := |rs| - 1;
      assert Reverse(rs[..last]) == r[1..];
      ReverseMultiset(rs[..last]);
      assert r == [rs[last]] + r[1..];
      assert rs == rs[..last] + [rs[last]];
    }
  }

  lemma ReverseDescending(rs: seq<Record>, k: string)
    requires Ascending(rs, k)
    ensures Descending(Reverse(rs), k)
  {
    var r := Reverse(rs);
    forall i, j | 0 <= i < j < |r|
      ensures SortLe(FieldValue(r[j], k), FieldValue(r[i], k))
    {
      assert r[j] == rs[|rs| - 1 - j] && r[i] == rs[|rs| - 1 - i];
    }
  }
}
