/**
 * The adventure-list upkeep of website/for_teachers.py: dropping adventures that no
 * longer exist from a class's customizations, finding the adventures not yet placed at
 * each level, recognising a teacher's own adventures, and checking the quiz threshold
 * and opening dates a teacher submits.
 */
module ForTeachers {
  import opened Wrappers
  import opened Builtins
  import Text
  import opened Hedy

  // ---------------------------------------------------------------------------
  // `purge_customizations`

  /** An entry of a level's `sorted_adventures`: `{'name': ..., 'from_teacher': ...}`. */
  datatype AdventureRef = AdventureRef(name: string, fromTeacher: bool)

  /** A teacher adventure as stored: its id, name and level (a text, as in the database). */
  datatype TeacherAdventure = TeacherAdventure(id: string, name: string, level: string)

  /** `{adventure['id'] for adventure in teacher_adventures}` */
  function TeacherIds(teacherAdventures: seq<TeacherAdventure>): (ids: set<string>)
    ensures forall id :: id in ids <==> exists i :: 0 <= i < |teacherAdventures| && teacherAdventures[i].id == id
  {
    set i | 0 <= i < |teacherAdventures| :: teacherAdventures[i].id
  }

  /** An entry survives when it names a default adventure or a teacher adventure. */
  predicate Kept(a: AdventureRef, defaults: set<string>, teacherIds: set<string>) {
    a.name in defaults || a.name in teacherIds
  }

  /** The entries that survive, in their order. */
  function Purged(xs: seq<AdventureRef>, defaults: set<string>, teacherIds: set<string>): (r: seq<AdventureRef>)
    ensures |r| <= |xs|
  {
    if xs == [] then []
    else
      var rest := Purged(xs[..|xs| - 1], defaults, teacherIds);
      var last := xs[|xs| - 1];
      if Kept(last, defaults, teacherIds) then rest + [last] else rest
  }

  /** An entry survives exactly when it was there and is kept. */
  lemma {:induction false} PurgedKeeps(xs: seq<AdventureRef>, defaults: set<string>, teacherIds: set<string>, a: AdventureRef)
    ensures a in Purged(xs, defaults, teacherIds) <==> a in xs && Kept(a, defaults, teacherIds)
  {
    if xs != [] {
      var prefix := xs[..|xs| - 1];
      PurgedKeeps(prefix, defaults, teacherIds, a);
      assert xs == prefix + [xs[|xs| - 1]];
    }
  }

  /** Purging one more entry: it is appended when it is kept. */
  lemma PurgedSnoc(xs: seq<AdventureRef>, x: AdventureRef, defaults: set<string>, teacherIds: set<string>)
    ensures Purged(xs + [x], defaults, teacherIds) ==
      Purged(xs, defaults, teacherIds) + (if Kept(x, defaults, teacherIds) then [x] else [])
  {
    assert (xs + [x])[..|xs|] == xs;
  }

  /** The survivors keep their order: they are the kept entries of `xs`, in sequence. */
  lemma {:induction false} PurgedIsSubsequence(xs: seq<AdventureRef>, defaults: set<string>, teacherIds: set<string>, ys: seq<AdventureRef>)
    ensures Purged(xs + ys, defaults, teacherIds) == Purged(xs, defaults, teacherIds) + Purged(ys, defaults, teacherIds)
    decreases |ys|
  {
    if ys == [] {
      assert xs + ys == xs;
    } else {
      var front, last := ys[..|ys| - 1], ys[|ys| - 1];
      var tail := if Kept(last, defaults, teacherIds) then [last] else [];
      assert ys == front + [last];
      assert xs + ys == (xs + front) + [last];
      calc {
        Purged(xs + ys, defaults, teacherIds);
        { PurgedSnoc(xs + front, last, defaults, teacherIds); }
        Purged(xs + front, defaults, teacherIds) + tail;
        { PurgedIsSubsequence(xs, defaults, teacherIds, front); }
        Purged(xs, defaults, teacherIds) + Purged(front, defaults, teacherIds) + tail;
        { PurgedSnoc(front, last, defaults, teacherIds); }
        Purged(xs, defaults, teacherIds) + Purged(ys, defaults, teacherIds);
      }
    }
  }

  /** Purging twice removes nothing more. */
  lemma {:induction false} PurgedIdempotent(xs: seq<AdventureRef>, defaults: set<string>, teacherIds: set<string>)
    ensures Purged(Purged(xs, defaults, teacherIds), defaults, teacherIds) == Purged(xs, defaults, teacherIds)
  {
    if xs != [] {
      var prefix := xs[..|xs| - 1];
      PurgedIdempotent(prefix, defaults, teacherIds);
      var last := xs[|xs| - 1];
      if Kept(last, defaults, teacherIds) {
        var p := Purged(prefix, defaults, teacherIds);
        assert (p + [last])[..|p + [last]| - 1] == p;
      }
    }
  }

  /** `list.remove(x)`: the first entry equal to `x` goes; nothing happens when there is none. */
  function Remove(xs: seq<AdventureRef>, x: AdventureRef): (r: seq<AdventureRef>)
    ensures x in xs ==> |r| == |xs| - 1
    ensures x !in xs ==> r == xs
  {
    if xs == [] then []
    else if xs[0] == x then xs[1..]
    else [xs[0]] + Remove(xs[1..], x)
  }

  lemma {:induction false} RemoveAfterPrefix(p: seq<AdventureRef>, x: AdventureRef, rest: seq<AdventureRef>)
    requires x !in p
    ensures Remove(p + [x] + rest, x) == p + rest
    decreases |p|
  {
    var whole := p + [x] + rest;
    if p == [] {
      assert whole[0] == x;
      assert whole[1..] == rest;
    } else {
      var tail := p[1..];
      assert whole[0] == p[0] && whole[0] != x;
      assert whole[1..] == tail + [x] + rest;
      calc {
        Remove(whole, x);
        [p[0]] + Remove(tail + [x] + rest, x);
        { RemoveAfterPrefix(tail, x, rest); }
        [p[0]] + (tail + rest);
        { assert [p[0]] + tail == p; }
        p + rest;
      }
    }
  }

  /** A class's `sorted_adventures`: for every level, the adventures placed there. */
  class Customizations {
    var sortedAdventures: map<string, seq<AdventureRef>>

    constructor(sortedAdventures: map<string, seq<AdventureRef>>)
      ensures this.sortedAdventures == sortedAdventures
    {
      this.sortedAdventures := sortedAdventures;
    }

    /**
     * `purge_customizations(sorted_adventures, adventures, teacher_adventures)`: every
     * level's list, in place, loses exactly the entries that name neither a default
     * adventure nor a teacher adventure.
     */
    method Purge(defaults: set<string>, teacherAdventures: seq<TeacherAdventure>)
      modifies this
      ensures sortedAdventures.Keys == old(sortedAdventures).Keys
      ensures forall level :: level in sortedAdventures ==>
        sortedAdventures[level] == Purged(old(sortedAdventures)[level], defaults, TeacherIds(teacherAdventures))
    {
      var teacherIds := TeacherIds(teacherAdventures);
      var todo := sortedAdventures.Keys;
      while todo != {}
        invariant todo <= sortedAdventures.Keys
        invariant sortedAdventures.Keys == old(sortedAdventures).Keys
        invariant forall level :: level in sortedAdventures && level !in todo ==>
          sortedAdventures[level] == Purged(old(sortedAdventures)[level], defaults, teacherIds)
        invariant forall level :: level in todo ==> sortedAdventures[level] == old(sortedAdventures)[level]
        decreases todo
      {
        var level :| level in todo;
        var purged := PurgeList(sortedAdventures[level], defaults, teacherIds);
        sortedAdventures := sortedAdventures[level := purged];
        todo := todo - {level};
      }
    }
  }

  /** The inner loop: `for adventure in list(adventure_list)`, removing from the list itself. */
  method PurgeList(list: seq<AdventureRef>, defaults: set<string>, teacherIds: set<string>) returns (r: seq<AdventureRef>)
    ensures r == Purged(list, defaults, teacherIds)
  {
    var copy := list;
    r := list;
    var i := 0;
    while i < |copy|
      invariant 0 <= i <= |copy|
      invariant r == Purged(copy[..i], defaults, teacherIds) + copy[i..]
    {
      var adventure := copy[i];
      PurgeStep(copy, i, defaults, teacherIds);
      if !Kept(adventure, defaults, teacherIds) {
        r := Remove(r, adventure);
      }
      i := i + 1;
    }
    assert copy[..i] == copy;
  }

  /** One step of the loop: a dropped entry is the first of its kind behind the survivors. */
  lemma PurgeStep(copy: seq<AdventureRef>, i: nat, defaults: set<string>, teacherIds: set<string>)
    requires i < |copy|
    ensures var cur := Purged(copy[..i], defaults, teacherIds) + copy[i..];
      Purged(copy[..i + 1], defaults, teacherIds) + copy[i + 1..] ==
        if Kept(copy[i], defaults, teacherIds) then cur else Remove(cur, copy[i])
  {
    var p := Purged(copy[..i], defaults, teacherIds);
    assert copy[..i + 1] == copy[..i] + [copy[i]];
    PurgedSnoc(copy[..i], copy[i], defaults, teacherIds);
    assert copy[i..] == [copy[i]] + copy[i + 1..];
    if !Kept(copy[i], defaults, teacherIds) {
      PurgedKeeps(copy[..i], defaults, teacherIds, copy[i]);
      RemoveAfterPrefix(p, copy[i], copy[i + 1..]);
      assert p + copy[i..] == p + [copy[i]] + copy[i + 1..];
    } else {
      assert p + copy[i..] == (p + [copy[i]]) + copy[i + 1..];
    }
  }

  // ---------------------------------------------------------------------------
  // `is_adventure_from_teacher`

  /** `is_adventure_from_teacher(adventure_id, teacher_adventures)` */
  method IsAdventureFromTeacher(adventureId: string, teacherAdventures: seq<TeacherAdventure>) returns (r: bool)
    ensures r <==> exists i :: 0 <= i < |teacherAdventures| && teacherAdventures[i].id == adventureId
    ensures r <==> adventureId in TeacherIds(teacherAdventures)
  {
    r := false;
    var i := 0;
    while i < |teacherAdventures|
      invariant 0 <= i <= |teacherAdventures|
      invariant r <==> exists j :: 0 <= j < i && teacherAdventures[j].id == adventureId
    {
      if adventureId == teacherAdventures[i].id {
        r := true;
      }
      i := i + 1;
    }
  }

  // ---------------------------------------------------------------------------
  // `get_unused_adventures`

  /** `SortedAdventure(short_name, long_name, is_teacher_adventure, is_command_adventure)` */
  datatype SortedAdventure = SortedAdventure(shortName: string, longName: string, isTeacherAdventure: bool,
                                             isCommandAdventure: bool)

  type LevelSets = map<int, set<SortedAdventure>>

  /** `{i: set() for i in range(1, HEDY_MAX_LEVEL + 1)}` */
  function EmptyLevels(): (m: LevelSets)
    ensures forall level :: level in m <==> 1 <= level <= HEDY_MAX_LEVEL
    ensures forall level :: level in m ==> m[level] == {}
  {
    EmptyUpTo(HEDY_MAX_LEVEL)
  }

  function EmptyUpTo(n: nat): (m: LevelSets)
    ensures forall level :: level in m <==> 1 <= level <= n
    ensures forall level :: level in m ==> m[level] == {}
  {
    if n == 0 then map[] else EmptyUpTo(n - 1)[n := {}]
  }

  /** `sets[level].add(a)`: KeyError for a level out of range. */
  function AddAt(sets: LevelSets, level: int, a: SortedAdventure): (r: Result<LevelSets, Error>)
    ensures r.Failure? <==> level !in sets
    ensures r.Failure? ==> r.error == KeyError
    ensures r.Success? ==> r.value == sets[level := sets[level] + {a}]
  {
    if level in sets then Success(sets[level := sets[level] + {a}]) else Failure(KeyError)
  }

  /** The default adventures of one level, as `SortedAdventure`s; an unnamed one raises KeyError. */
  function AddLevelDefaults(sets: LevelSets, level: int, shortNames: seq<string>, names: map<string, string>,
                            keywordAdventures: set<string>): (r: Result<LevelSets, Error>)
    ensures r.Failure? ==> r.error == KeyError
    ensures r.Success? ==> r.value.Keys == sets.Keys
  {
    if shortNames == [] then Success(sets)
    else
      var before :- AddLevelDefaults(sets, level, shortNames[..|shortNames| - 1], names, keywordAdventures);
      var shortName := shortNames[|shortNames| - 1];
      if shortName !in names then Failure(KeyError)
      else AddAt(before, level, SortedAdventure(shortName, names[shortName], false, shortName in keywordAdventures))
  }

  /** The loop over `ADVENTURE_ORDER_PER_LEVEL`, filling `default_adventures`. */
  function DefaultSets(order: seq<(int, seq<string>)>, names: map<string, string>, keywordAdventures: set<string>): (r: Result<LevelSets, Error>)
    ensures r.Failure? ==> r.error == KeyError
    ensures r.Success? ==> forall level :: level in r.value <==> 1 <= level <= HEDY_MAX_LEVEL
  {
    if order == [] then Success(EmptyLevels())
    else
      var before :- DefaultSets(order[..|order| - 1], names, keywordAdventures);
      var (level, shortNames) := order[|order| - 1];
      AddLevelDefaults(before, level, shortNames, names, keywordAdventures)
  }

  /** The loop over the teacher's adventures, filling `teacher_adventures` by `int(level)`. */
  function TeacherSets(db: seq<TeacherAdventure>): (r: Result<LevelSets, Error>)
    ensures r.Failure? ==> r.error == KeyError || r.error == ValueError
    ensures r.Success? ==> forall level :: level in r.value <==> 1 <= level <= HEDY_MAX_LEVEL
  {
    if db == [] then Success(EmptyLevels())
    else
      var before :- TeacherSets(db[..|db| - 1]);
      var t := db[|db| - 1];
      match Text.ParseInt(t.level)
      case None => Failure(ValueError)
      case Some(level) => AddAt(before, level, SortedAdventure(t.id, t.name, true, false))
  }

  /** Each teacher adventure of a valid level is in the set of that level. */
  lemma {:induction false} TeacherSetsHold(db: seq<TeacherAdventure>, i: int)
    requires TeacherSets(db).Success? && 0 <= i < |db|
    ensures Text.ParseInt(db[i].level).Some?
    ensures 1 <= Text.ParseInt(db[i].level).value <= HEDY_MAX_LEVEL
    ensures SortedAdventure(db[i].id, db[i].name, true, false) in TeacherSets(db).value[Text.ParseInt(db[i].level).value]
  {
    if i < |db| - 1 {
      TeacherSetsHold(db[..|db| - 1], i);
    }
  }

  /** The sort key: `item.long_name.upper()`. */
  function SortKey(a: SortedAdventure): string {
    Text.Upper(a.longName)
  }

  predicate SortedByName(xs: seq<SortedAdventure>) {
    forall i, j :: 0 <= i < j < |xs| ==> Text.Le(SortKey(xs[i]), SortKey(xs[j]))
  }

  /**
   * The unused adventures of one level:
   * `(teacher[level] - placed) | (default[level] - placed)`.
   */
  function Unused(teacher: set<SortedAdventure>, defaults: set<SortedAdventure>, placed: seq<SortedAdventure>): (s: set<SortedAdventure>)
    ensures forall a :: a in s <==> (a in teacher || a in defaults) && a !in placed
  {
    (teacher - set a | a in placed) + (defaults - set a | a in placed)
  }

  /** `xs` inserted into a sorted list, before the first entry with a greater key. */
  function Insert(xs: seq<SortedAdventure>, x: SortedAdventure): (r: seq<SortedAdventure>)
    requires SortedByName(xs)
    ensures SortedByName(r)
    ensures multiset(r) == multiset(xs) + multiset{x}
  {
    if xs == [] then [x]
    else if Text.Le(SortKey(x), SortKey(xs[0])) then
      assert forall j :: 0 < j < |xs| ==> Text.Le(SortKey(xs[0]), SortKey(xs[j]));
      InsertFront(xs, x);
      [x] + xs
    else
      var tail := xs[1..];
      assert forall i :: 0 <= i < |tail| ==> tail[i] == xs[i + 1];
      var rest := Insert(tail, x);
      InsertAfterHead(xs, x, rest);
      [xs[0]] + rest
  }

  /** `x` goes behind the first entry when it sorts after it. */
  lemma InsertAfterHead(xs: seq<SortedAdventure>, x: SortedAdventure, rest: seq<SortedAdventure>)
    requires SortedByName(xs) && xs != [] && !Text.Le(SortKey(x), SortKey(xs[0]))
    requires SortedByName(rest) && multiset(rest) == multiset(xs[1..]) + multiset{x}
    ensures SortedByName([xs[0]] + rest)
    ensures multiset([xs[0]] + rest) == multiset(xs) + multiset{x}
  {
    Text.LeTotal(SortKey(x), SortKey(xs[0]));
    assert xs == [xs[0]] + xs[1..];
    InsertBehind(xs[0], rest, xs[1..], x);
  }

  lemma InsertFront(xs: seq<SortedAdventure>, x: SortedAdventure)
    requires SortedByName(xs) && xs != [] && Text.Le(SortKey(x), SortKey(xs[0]))
    ensures SortedByName([x] + xs)
  {
    forall j | 0 < j < |xs|
      ensures Text.Le(SortKey(x), SortKey(xs[j]))
    {
      Text.LeTransitive(SortKey(x), SortKey(xs[0]), SortKey(xs[j]));
    }
  }

  lemma InsertBehind(head: SortedAdventure, rest: seq<SortedAdventure>, tail: seq<SortedAdventure>, x: SortedAdventure)
    requires SortedByName(rest) && SortedByName([head] + tail)
    requires Text.Le(SortKey(head), SortKey(x))
    requires multiset(rest) == multiset(tail) + multiset{x}
    ensures SortedByName([head] + rest)
  {
    forall j | 0 <= j < |rest|
      ensures Text.Le(SortKey(head), SortKey(rest[j]))
    {
      assert rest[j] in multiset(rest);
      if rest[j] != x {
        assert rest[j] in multiset(tail);
        var k :| 0 <= k < |tail| && tail[k] == rest[j];
        var ht := [head] + tail;
        assert ht[0] == head && ht[k + 1] == tail[k];
        assert Text.Le(SortKey(ht[0]), SortKey(ht[k + 1]));
      }
    }
  }

  /** `list(s)` sorted by `SortKey`: each element once, in key order. */
  method SortedList(s: set<SortedAdventure>) returns (xs: seq<SortedAdventure>)
    ensures SortedByName(xs)
    ensures forall a :: a in xs <==> a in s
    ensures |xs| == |s|
  {
    xs := [];
    var rest := s;
    while rest != {}
      invariant rest <= s
      invariant SortedByName(xs)
      invariant forall a :: a in multiset(xs) <==> a in s && a !in rest
      invariant |xs| + |rest| == |s|
      decreases rest
    {
      var a :| a in rest;
      xs := Insert(xs, a);
      rest := rest - {a};
    }
  }

  /** The list of one level holds each unused adventure of that level once, in key order. */
  ghost predicate ListsUnused(available: seq<SortedAdventure>, teacher: set<SortedAdventure>, defaults: set<SortedAdventure>,
                        placed: seq<SortedAdventure>)
  {
    SortedByName(available) &&
    |available| == |Unused(teacher, defaults, placed)| &&
    forall a :: a in available <==> a in Unused(teacher, defaults, placed)
  }

  /** `sorted(list(...), key=...)` for one level. */
  method UnusedList(teacher: set<SortedAdventure>, defaults: set<SortedAdventure>, placed: seq<SortedAdventure>)
    returns (list: seq<SortedAdventure>)
    ensures ListsUnused(list, teacher, defaults, placed)
  {
    list := SortedList(Unused(teacher, defaults, placed));
  }

  /** The levels `get_unused_adventures` indexes all exist. */
  predicate AllLevels<V>(m: map<int, V>) {
    forall level :: 1 <= level <= HEDY_MAX_LEVEL ==> level in m
  }

  /**
   * `get_unused_adventures(adventures, teacher_adventures_db, adventure_names)` with
   * `ADVENTURE_ORDER_PER_LEVEL` and `KEYWORDS_ADVENTURES` as parameters: for every level,
   * the teacher and default adventures not yet placed there, sorted by upper-cased name.
   */
  method GetUnusedAdventures(placed: map<int, seq<SortedAdventure>>, teacherDb: seq<TeacherAdventure>,
                             names: map<string, string>, order: seq<(int, seq<string>)>, keywordAdventures: set<string>)
    returns (r: Result<map<int, seq<SortedAdventure>>, Error>)
    ensures r.Success? <==>
      (DefaultSets(order, names, keywordAdventures).Success? && TeacherSets(teacherDb).Success? && AllLevels(placed))
    ensures r.Failure? ==> r.error == KeyError || r.error == ValueError
    ensures r.Success? ==> forall level :: level in r.value <==> 1 <= level <= HEDY_MAX_LEVEL
    ensures r.Success? ==> forall level :: level in r.value ==>
      ListsUnused(r.value[level], TeacherSets(teacherDb).value[level],
                  DefaultSets(order, names, keywordAdventures).value[level], placed[level])
  {
    var defaults := DefaultSetsLoop(order, names, keywordAdventures);
    if defaults.Failure? {
      return Failure(defaults.error);
    }
    var teacher := TeacherSets(teacherDb);
    if teacher.Failure? {
      return Failure(teacher.error);
    }
    r := UnusedLevels(teacher.value, defaults.value, placed);
  }

  /** The loop over the levels of `get_unused_adventures`; a level missing from `placed` raises KeyError. */
  method UnusedLevels(teacher: LevelSets, defaults: LevelSets, placed: map<int, seq<SortedAdventure>>)
    returns (r: Result<map<int, seq<SortedAdventure>>, Error>)
    requires AllLevels(teacher) && AllLevels(defaults)
    ensures r.Success? <==> AllLevels(placed)
    ensures r.Failure? ==> r.error == KeyError
    ensures r.Success? ==> forall level :: level in r.value <==> 1 <= level <= HEDY_MAX_LEVEL
    ensures r.Success? ==> forall level :: level in r.value ==>
      ListsUnused(r.value[level], teacher[level], defaults[level], placed[level])
  {
    var available: map<int, seq<SortedAdventure>> := map[];
    var level := 1;
    while level <= HEDY_MAX_LEVEL
      invariant 1 <= level <= HEDY_MAX_LEVEL + 1
      invariant forall l :: l in available <==> 1 <= l < level
      invariant forall l :: 1 <= l < level ==> l in placed
      invariant forall l :: l in available ==>
        ListsUnused(available[l], teacher[l], defaults[l], placed[l])
    {
      if level !in placed {
        return Failure(KeyError);
      }
      var list := UnusedList(teacher[level], defaults[level], placed[level]);
      available := available[level := list];
      level := level + 1;
    }
    return Success(available);
  }

  /** The nested loop over `ADVENTURE_ORDER_PER_LEVEL`. */
  method DefaultSetsLoop(order: seq<(int, seq<string>)>, names: map<string, string>, keywordAdventures: set<string>)
    returns (r: Result<LevelSets, Error>)
    ensures r == DefaultSets(order, names, keywordAdventures)
  {
    var sets := EmptyLevels();
    var i := 0;
    while i < |order|
      invariant 0 <= i <= |order|
      invariant DefaultSets(order[..i], names, keywordAdventures) == Success(sets)
    {
      assert order[..i + 1][..i] == order[..i];
      var (level, shortNames) := order[i];
      var next := LevelDefaultsLoop(sets, level, shortNames, names, keywordAdventures);
      if next.Failure? {
        DefaultSetsFail(order, names, keywordAdventures, i + 1);
        return Failure(KeyError);
      }
      sets := next.value;
      i := i + 1;
    }
    assert order[..i] == order;
    return Success(sets);
  }

  /** The inner loop, over the short names of one level. */
  method LevelDefaultsLoop(sets: LevelSets, level: int, shortNames: seq<string>, names: map<string, string>,
                           keywordAdventures: set<string>) returns (r: Result<LevelSets, Error>)
    ensures r == AddLevelDefaults(sets, level, shortNames, names, keywordAdventures)
  {
    var j := 0;
    var levelSets := sets;
    while j < |shortNames|
      invariant 0 <= j <= |shortNames|
      invariant AddLevelDefaults(sets, level, shortNames[..j], names, keywordAdventures) == Success(levelSets)
    {
      assert shortNames[..j + 1][..j] == shortNames[..j];
      var shortName := shortNames[j];
      if shortName !in names {
        DefaultsFail(sets, level, shortNames, j + 1, names, keywordAdventures);
        return Failure(KeyError);
      }
      var next := AddAt(levelSets, level, SortedAdventure(shortName, names[shortName], false, shortName in keywordAdventures));
      if next.Failure? {
        DefaultsFail(sets, level, shortNames, j + 1, names, keywordAdventures);
        return Failure(KeyError);
      }
      levelSets := next.value;
      j := j + 1;
    }
    assert shortNames[..j] == shortNames;
    return Success(levelSets);
  }

  lemma {:induction false} DefaultsFail(sets: LevelSets, level: int, shortNames: seq<string>, n: nat,
                                        names: map<string, string>, keywordAdventures: set<string>)
    requires n <= |shortNames|
    requires AddLevelDefaults(sets, level, shortNames[..n], names, keywordAdventures).Failure?
    ensures AddLevelDefaults(sets, level, shortNames, names, keywordAdventures).Failure?
    decreases |shortNames| - n
  {
    if n < |shortNames| {
      assert shortNames[..n + 1][..n] == shortNames[..n];
      DefaultsFail(sets, level, shortNames, n + 1, names, keywordAdventures);
    } else {
      assert shortNames[..n] == shortNames;
    }
  }

  lemma {:induction false} DefaultSetsFail(order: seq<(int, seq<string>)>, names: map<string, string>,
                                           keywordAdventures: set<string>, n: nat)
    requires 0 < n <= |order|
    requires DefaultSets(order[..n - 1], names, keywordAdventures).Success?
    requires AddLevelDefaults(DefaultSets(order[..n - 1], names, keywordAdventures).value, order[n - 1].0, order[n - 1].1,
                              names, keywordAdventures).Failure?
    ensures DefaultSets(order, names, keywordAdventures) == Failure(KeyError)
    decreases |order| - n
  {
    assert order[..n][..n - 1] == order[..n - 1];
    DefaultSetsPrefixFail(order, names, keywordAdventures, n);
  }

  lemma {:induction false} DefaultSetsPrefixFail(order: seq<(int, seq<string>)>, names: map<string, string>,
                                                 keywordAdventures: set<string>, n: nat)
    requires n <= |order|
    requires DefaultSets(order[..n], names, keywordAdventures).Failure?
    ensures DefaultSets(order, names, keywordAdventures) == Failure(KeyError)
    decreases |order| - n
  {
    if n < |order| {
      assert order[..n + 1][..n] == order[..n];
      DefaultSetsPrefixFail(order, names, keywordAdventures, n + 1);
    } else {
      assert order[..n] == order;
    }
  }

  // ---------------------------------------------------------------------------
  // Validation in `update_customizations`

  /** A level threshold as stored: the quiz threshold as a number, any other as sent. */
  datatype Threshold = Number(n: int) | Sent(text: string)

  /** The message of a rejected submission. */
  const INVALID_QUIZ_THRESHOLD: string := "Quiz threshold value is invalid"
  const INVALID_OPENING_DATE: string := "One or more of your opening dates is invalid"

  /** One threshold: `quiz` must be an integer from 0 to 100. */
  function CheckThreshold(name: string, value: string): (r: Result<Threshold, string>)
    ensures name != "quiz" ==> r == Success(Sent(value))
    ensures name == "quiz" ==> (r.Success? <==> Text.ParseInt(value).Some? && 0 <= Text.ParseInt(value).value <= 100)
    ensures name == "quiz" && r.Success? ==> r.value == Number(Text.ParseInt(value).value)
    ensures r.Failure? ==> r.error == INVALID_QUIZ_THRESHOLD
  {
    if name != "quiz" then Success(Sent(value))
    else
      match Text.ParseInt(value)
      case None => Failure(INVALID_QUIZ_THRESHOLD)
      case Some(n) => if n < 0 || n > 100 then Failure(INVALID_QUIZ_THRESHOLD) else Success(Number(n))
  }

  /** The loop over `level_thresholds`: the first invalid entry rejects the submission. */
  function CheckThresholds(thresholds: seq<(string, string)>): (r: Result<map<string, Threshold>, string>)
    ensures r.Success? <==> forall i :: 0 <= i < |thresholds| ==> CheckThreshold(thresholds[i].0, thresholds[i].1).Success?
    ensures r.Success? ==> r.value.Keys == set i | 0 <= i < |thresholds| :: thresholds[i].0
    ensures r.Success? && "quiz" in r.value ==> r.value["quiz"].Number? && 0 <= r.value["quiz"].n <= 100
    ensures r.Failure? ==> r.error == INVALID_QUIZ_THRESHOLD
  {
    if thresholds == [] then Success(map[])
    else
      var prefix := thresholds[..|thresholds| - 1];
      assert forall i :: 0 <= i < |prefix| ==> prefix[i] == thresholds[i];
      var before :- CheckThresholds(prefix);
      var (name, value) := thresholds[|thresholds| - 1];
      var t :- CheckThreshold(name, value);
      Success(before[name := t])
  }

  /** Each name is stored with the checked value of its last entry, as a dict keeps it. */
  lemma {:induction false} CheckThresholdsValues(thresholds: seq<(string, string)>, i: int)
    requires CheckThresholds(thresholds).Success?
    requires 0 <= i < |thresholds| && LastWithName(thresholds, i)
    ensures CheckThresholds(thresholds).value[thresholds[i].0] == CheckThreshold(thresholds[i].0, thresholds[i].1).value
  {
    var n := |thresholds| - 1;
    if i < n {
      var prefix := thresholds[..n];
      assert prefix[i] == thresholds[i];
      CheckThresholdsValues(prefix, i);
    }
  }

  /** No later entry has the name of entry `i`: its value is the one a dict keeps. */
  predicate LastWithName<V>(entries: seq<(string, V)>, i: int)
    requires 0 <= i < |entries|
  {
    forall j :: i < j < |entries| ==> entries[j].0 != entries[i].0
  }

  /** The entries of a dict: no name twice. */
  predicate DistinctNames<V>(entries: seq<(string, V)>) {
    forall i, j :: 0 <= i < j < |entries| ==> entries[i].0 != entries[j].0
  }

  /**
   * The loop over `opening_dates` with `utils.datetotimeordate` as a parameter: an empty
   * timestamp drops its level; any other must convert.
   */
  function CheckOpeningDates<D(==)>(dates: seq<(string, string)>, toDate: string -> Option<D>): (r: Result<map<string, D>, string>)
    requires DistinctNames(dates)
    ensures DatesChecked(dates, toDate, r)
  {
    if dates == [] then Success(map[])
    else
      var prefix := dates[..|dates| - 1];
      assert forall i :: 0 <= i < |prefix| ==> prefix[i] == dates[i];
      var before := CheckOpeningDates(prefix, toDate);
      DateStepChecked(dates, toDate, before);
      DateStep(before, dates[|dates| - 1], toDate)
  }

  /**
   * What `CheckOpeningDates` promises: every kept level has a non-empty timestamp, every
   * non-empty timestamp keeps its level with the converted date as its value, and the
   * check fails, with the opening-date message, exactly when some non-empty timestamp
   * does not convert.
   */
  predicate DatesChecked<D(==)>(dates: seq<(string, string)>, toDate: string -> Option<D>, r: Result<map<string, D>, string>) {
    (r.Success? ==> forall level :: level in r.value ==>
      exists i :: 0 <= i < |dates| && dates[i].0 == level && dates[i].1 != "") &&
    (r.Success? ==> forall i :: 0 <= i < |dates| && dates[i].1 != "" && toDate(dates[i].1).Some? ==>
      dates[i].0 in r.value && r.value[dates[i].0] == toDate(dates[i].1).value) &&
    (r.Failure? <==> exists i :: 0 <= i < |dates| && dates[i].1 != "" && toDate(dates[i].1).None?) &&
    (r.Failure? ==> r.error == INVALID_OPENING_DATE)
  }

  /** One entry of the loop over `opening_dates`. */
  function DateStep<D>(before: Result<map<string, D>, string>, entry: (string, string), toDate: string -> Option<D>): (r: Result<map<string, D>, string>)
    ensures before.Failure? ==> r == before
    ensures before.Success? && entry.1 == "" ==> r.Success? && entry.0 !in r.value
    ensures before.Success? && entry.1 != "" ==> (r.Failure? <==> toDate(entry.1).None?)
    ensures r.Failure? ==> r.error == (if before.Failure? then before.error else INVALID_OPENING_DATE)
    ensures r.Success? && entry.1 != "" ==> entry.0 in r.value && r.value[entry.0] == toDate(entry.1).value
    ensures r.Success? ==> before.Success? && forall l :: l != entry.0 ==>
      (l in r.value <==> l in before.value) && (l in r.value ==> r.value[l] == before.value[l])
  {
    var (level, timestamp) := entry;
    if before.Failure? then before
    else if |timestamp| < 1 then Success(before.value - {level})
    else
      match toDate(timestamp)
      case None => Failure(INVALID_OPENING_DATE)
      case Some(d) => Success(before.value[level := d])
  }

  /** One more entry keeps what the check promises. */
  lemma DateStepChecked<D>(dates: seq<(string, string)>, toDate: string -> Option<D>, before: Result<map<string, D>, string>)
    requires dates != [] && DistinctNames(dates)
    requires DatesChecked(dates[..|dates| - 1], toDate, before)
    ensures DatesChecked(dates, toDate, DateStep(before, dates[|dates| - 1], toDate))
  {
    var prefix := dates[..|dates| - 1];
    var n := |dates| - 1;
    var (level, timestamp) := dates[n];
    var r := DateStep(before, dates[n], toDate);
    assert forall i :: 0 <= i < |prefix| ==> prefix[i] == dates[i];
    if before.Failure? {
      var i :| 0 <= i < |prefix| && prefix[i].1 != "" && toDate(prefix[i].1).None?;
      assert dates[i] == prefix[i];
    } else if timestamp == "" || toDate(timestamp).Some? {
      assert r.Success?;
      forall l | l in r.value
        ensures exists i :: 0 <= i < |dates| && dates[i].0 == l && dates[i].1 != ""
      {
        if l != level || timestamp == "" {
          var i :| 0 <= i < |prefix| && prefix[i].0 == l && prefix[i].1 != "";
          assert dates[i] == prefix[i];
        } else {
          assert dates[n].0 == l && dates[n].1 != "";
        }
      }
      forall i | 0 <= i < |dates| && dates[i].1 != "" && toDate(dates[i].1).Some?
        ensures dates[i].0 in r.value && r.value[dates[i].0] == toDate(dates[i].1).value
      {
        if i < n {
          assert prefix[i] == dates[i];
          assert dates[i].0 != level;
        }
      }
      forall i | 0 <= i < |dates| && dates[i].1 != ""
        ensures toDate(dates[i].1).Some?
      {
        if i < n {
          assert prefix[i] == dates[i];
        }
      }
    } else {
      assert dates[n].1 != "" && toDate(dates[n].1).None?;
    }
  }

  /**
   * The checks of `update_customizations` on a submission's opening dates and level
   * thresholds, in that order.
   */
  method ValidateCustomizations<D(==)>(dates: seq<(string, string)>, thresholds: seq<(string, string)>, toDate: string -> Option<D>)
    returns (r: Result<(map<string, D>, map<string, Threshold>), string>)
    requires DistinctNames(dates)
    ensures CheckOpeningDates(dates, toDate).Failure? ==> r == Failure(INVALID_OPENING_DATE)
    ensures CheckOpeningDates(dates, toDate).Success? && CheckThresholds(thresholds).Failure? ==> r == Failure(INVALID_QUIZ_THRESHOLD)
    ensures r.Success? ==> r.value == (CheckOpeningDates(dates, toDate).value, CheckThresholds(thresholds).value)
  {
    var checkedDates := CheckOpeningDates(dates, toDate);
    if checkedDates.Failure? {
      return Failure(checkedDates.error);
    }
    var checkedThresholds := CheckThresholds(thresholds);
    if checkedThresholds.Failure? {
      return Failure(checkedThresholds.error);
    }
    return Success((checkedDates.value, checkedThresholds.value));
  }
}
