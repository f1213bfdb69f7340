/**
 * The Hedy-to-Python source map of hedy_sourcemap.py: source ranges, the source code
 * snippets keyed by their range, and the map that records, for every Hedy snippet, the
 * Python it became and where that Python sits in the generated program.
 */
module HedySourcemap {
  import opened Wrappers
  import opened Builtins
  import Text

  // ---------------------------------------------------------------------------
  // `SourceRange`

  /** `SourceRange(from_line, from_column, to_line, to_column)`; a field may be `None`. */
  datatype SourceRange = SourceRange(fromLine: Option<int>, fromColumn: Option<int>, toLine: Option<int>, toColumn: Option<int>)

  /** The tuple `__eq__` and `__hash__` are computed from. */
  function RangeTuple(r: SourceRange): (Option<int>, Option<int>, Option<int>, Option<int>) {
    (r.fromLine, r.fromColumn, r.toLine, r.toColumn)
  }

  /** `SourceRange.__eq__`: field-wise equality, which is equality of the ranges. */
  function RangeEq(a: SourceRange, b: SourceRange): (r: bool)
    ensures r <==> a == b
  {
    RangeTuple(a) == RangeTuple(b)
  }

  /** `str(x)` of an optional integer. */
  function ShowField(x: Option<int>): (s: string)
    ensures x.Some? && x.value >= 0 ==> '-' !in s && '/' !in s
  {
    match x
    case None => "None"
    case Some(n) =>
      if n >= 0 then Text.NatToStringHasNo(n, '-'); Text.NatToStringHasNo(n, '/'); Text.IntToString(n)
      else Text.IntToString(n)
  }

  /** `SourceRange.__str__`: `from_line/from_column-to_line/to_column`. */
  function ShowRange(r: SourceRange): (s: string)
    ensures NonNegative(r) ==> |Text.Split(s, '-')| == 2
    ensures NonNegative(r) ==> |Text.Split(Text.Split(s, '-')[0], '/')| == 2 && |Text.Split(Text.Split(s, '-')[1], '/')| == 2
  {
    var (fl, fc, tl, tc) := (ShowField(r.fromLine), ShowField(r.fromColumn), ShowField(r.toLine), ShowField(r.toColumn));
    assert NonNegative(r) ==>
      Text.Split(fl + "/" + fc + "-" + tl + "/" + tc, '-') == [fl + "/" + fc, tl + "/" + tc] &&
      Text.Split(fl + "/" + fc, '/') == [fl, fc] && Text.Split(tl + "/" + tc, '/') == [tl, tc] by {
      if NonNegative(r) {
        SplitFour(fl, fc, tl, tc);
      }
    }
    ShowField(r.fromLine) + "/" + ShowField(r.fromColumn) + "-" + ShowField(r.toLine) + "/" + ShowField(r.toColumn)
  }

  /** No field is negative: such a range prints without a minus sign. */
  predicate NonNegative(r: SourceRange) {
    (r.fromLine.Some? ==> r.fromLine.value >= 0) && (r.fromColumn.Some? ==> r.fromColumn.value >= 0) &&
    (r.toLine.Some? ==> r.toLine.value >= 0) && (r.toColumn.Some? ==> r.toColumn.value >= 0)
  }

  function ParseField(s: string): Option<Option<int>> {
    if s == "None" then Some(None)
    else match Text.ParseInt(s)
      case None => None
      case Some(n) => Some(Some(n))
  }

  /** Reads back the text `ShowRange` writes. */
  function ParseRange(s: string): (r: Option<SourceRange>)
    ensures r.Some? ==> '-' in s
  {
    var halves := Text.Split(s, '-');
    assert '-' !in s ==> halves == [s] by {
      if '-' !in s {
        Text.SplitNoSeparator(s, '-');
      }
    }
    if |halves| != 2 then None
    else
      var from := Text.Split(halves[0], '/');
      var to := Text.Split(halves[1], '/');
      if |from| != 2 || |to| != 2 then None
      else
        var fl :- ParseField(from[0]);
        var fc :- ParseField(from[1]);
        var tl :- ParseField(to[0]);
        var tc :- ParseField(to[1]);
        Some(SourceRange(fl, fc, tl, tc))
  }

  lemma ParseShowField(x: Option<int>)
    ensures ParseField(ShowField(x)) == Some(x)
  {
    if x.Some? {
      Text.ParseIntOfString(x.value);
      var s := Text.IntToString(x.value);
      assert s[0] != 'N';
    }
  }

  lemma JoinTwo(sep: char, a: string, b: string)
    ensures Text.Join([sep], [a, b]) == a + [sep] + b
  {
    assert [a, b][1..] == [b];
  }

  lemma SplitTwo(sep: char, a: string, b: string)
    requires sep !in a && sep !in b
    ensures Text.Split(a + [sep] + b, sep) == [a, b]
  {
    JoinTwo(sep, a, b);
    Text.SplitJoin([a, b], sep);
  }

  /** The two splits of `parse_range` take a printed range apart into its four fields. */
  lemma SplitFour(fl: string, fc: string, tl: string, tc: string)
    requires '-' !in fl && '-' !in fc && '-' !in tl && '-' !in tc
    requires '/' !in fl && '/' !in fc && '/' !in tl && '/' !in tc
    ensures Text.Split(fl + "/" + fc + "-" + tl + "/" + tc, '-') == [fl + "/" + fc, tl + "/" + tc]
    ensures Text.Split(fl + "/" + fc, '/') == [fl, fc]
    ensures Text.Split(tl + "/" + tc, '/') == [tl, tc]
  {
    var from := fl + "/" + fc;
    var to := tl + "/" + tc;
    assert fl + "/" + fc + "-" + tl + "/" + tc == from + "-" + to;
    assert '-' !in from && '-' !in to;
    SplitTwo('-', from, to);
    SplitTwo('/', fl, fc);
    SplitTwo('/', tl, tc);
  }

  /** Printing a range that has no negative field loses nothing. */
  lemma ParseShowRange(r: SourceRange)
    requires NonNegative(r)
    ensures ParseRange(ShowRange(r)) == Some(r)
  {
    ParseShowField(r.fromLine);
    ParseShowField(r.fromColumn);
    ParseShowField(r.toLine);
    ParseShowField(r.toColumn);
    ParseFour(ShowField(r.fromLine), ShowField(r.fromColumn), ShowField(r.toLine), ShowField(r.toColumn), r);
  }

  /** Four fields without separators, each read back as the range's field, give the range. */
  lemma ParseFour(fl: string, fc: string, tl: string, tc: string, r: SourceRange)
    requires '-' !in fl && '-' !in fc && '-' !in tl && '-' !in tc
    requires '/' !in fl && '/' !in fc && '/' !in tl && '/' !in tc
    requires ParseField(fl) == Some(r.fromLine) && ParseField(fc) == Some(r.fromColumn)
    requires ParseField(tl) == Some(r.toLine) && ParseField(tc) == Some(r.toColumn)
    ensures ParseRange(fl + "/" + fc + "-" + tl + "/" + tc) == Some(r)
  {
    SplitFour(fl, fc, tl, tc);
  }

  /** Two ranges without negative fields print alike only when they are equal. */
  lemma ShowRangeInjective(a: SourceRange, b: SourceRange)
    requires NonNegative(a) && NonNegative(b)
    requires ShowRange(a) == ShowRange(b)
    ensures a == b
  {
    ParseShowRange(a);
    ParseShowRange(b);
  }

  // ---------------------------------------------------------------------------
  // `SourceCode`

  /** `SourceCode(source_range, code, error)`; the error is the exception's text. */
  datatype SourceCode = SourceCode(range: SourceRange, code: string, error: Option<string>)

  /** `SourceCode.__eq__`: only the ranges are compared. */
  function CodeEq(a: SourceCode, b: SourceCode): (r: bool)
    ensures r <==> a.range == b.range
  {
    RangeTuple(a.range) == RangeTuple(b.range)
  }

  /** The tuple `SourceCode.__hash__` hashes. */
  function HashKey(c: SourceCode): (h: (Option<int>, Option<int>, Option<int>, Option<int>))
    ensures SourceRange(h.0, h.1, h.2, h.3) == c.range
  {
    RangeTuple(c.range)
  }

  /** Equal snippets hash alike, and neither code nor error takes part in either. */
  lemma CodeEqIgnoresContent(a: SourceCode, code: string, error: Option<string>)
    ensures CodeEq(a, a.(code := code, error := error))
    ensures HashKey(a) == HashKey(a.(code := code, error := error))
  {
  }

  /** Snippets that compare equal hash alike. */
  lemma {:induction false} HashAgreesWithEq(a: SourceCode, b: SourceCode)
    requires CodeEq(a, b)
    ensures HashKey(a) == HashKey(b)
  {
  }

  // ---------------------------------------------------------------------------
  // Placing Python snippets: `line_col` and the search in `set_python_output`

  /**
   * `line_col(context, idx)`: the line is one more than the newlines in `context[0:idx]`,
   * the column the distance from the last of them.
   */
  function LineCol(s: string, idx: int): (lc: (int, int))
    ensures idx >= 0 ==> lc.0 >= 1 && lc.1 >= 1
  {
    var before := SliceTo(s, idx);
    (Text.Count(before, '\n') + 1, idx - Text.RFind(before, '\n'))
  }

  /**
   * Inside the text, the column counts from the start of the line: the `column - 1`
   * characters before `idx` hold no newline and follow the start of the text or a newline.
   */
  lemma LineColPosition(s: string, idx: int)
    requires 0 <= idx <= |s|
    ensures var (line, column) := LineCol(s, idx);
      var lineStart := idx - column + 1;
      0 <= lineStart <= idx &&
      '\n' !in s[lineStart..idx] &&
      (lineStart == 0 || s[lineStart - 1] == '\n') &&
      line == Text.Count(s[..idx], '\n') + 1
  {
    var before := s[..idx];
    var last := Text.RFind(before, '\n');

  }

  /** The searches of the inner loop: each one starts after the copy found before. */
  function StartAfter(s: string, code: string, start: int, n: nat): int
    decreases n
  {
    if n == 0 then start
    else
      var next := Text.Find(s, code, start + |code|);
      StartAfter(s, code, if next < 0 then 0 else next, n - 1)
  }

  /** One search of the chain, clamped to 0 when it finds nothing. */
  lemma StartAfterStep(s: string, code: string, start: int, n: nat)
    requires n > 0
    ensures var next := Text.Find(s, code, start + |code|);
      StartAfter(s, code, start, n) == StartAfter(s, code, if next < 0 then 0 else next, n - 1)
  {
  }

  /** `code` occurs at offset `k` of `s`. */
  predicate OccursAt(s: string, code: string, k: int) {
    0 <= k && Text.OccursAt(s, code, k)
  }

  /** Every search in the chain finds a copy. */
  predicate AllFound(s: string, code: string, start: int, n: nat)
    decreases n
  {
    n == 0 || (Text.Find(s, code, start + |code|) != -1 && AllFound(s, code, Text.Find(s, code, start + |code|), n - 1))
  }

  /**
   * When every search succeeds, the copy reached after `n` searches is a copy of `code`
   * lying past the `n` copies before it.
   */
  lemma {:induction false} StartAfterFound(s: string, code: string, start: int, n: nat)
    requires OccursAt(s, code, start)
    requires AllFound(s, code, start, n)
    ensures OccursAt(s, code, StartAfter(s, code, start, n))
    ensures StartAfter(s, code, start, n) >= start + n * |code|
    decreases n
  {
    if n > 0 {
      var next := Text.Find(s, code, start + |code|);
      StartAfterFound(s, code, next, n - 1);
    }
  }

  /**
   * Where `set_python_output` places the copy of `code` that `copies` identical snippets
   * precede, as written: the first search is not clamped, so a snippet missing from the
   * program starts at offset -1.
   */
  function StartAsWritten(s: string, code: string, copies: nat): (start: int)
    ensures copies == 0 ==> start == Text.Find(s, code, 0)
  {
    StartAfter(s, code, Text.Find(s, code, 0), copies)
  }

  /** The first search of `set_python_output`, clamped to 0 as the later ones are. */
  function FirstStart(s: string, code: string): (start: int)
    ensures 0 <= start <= |s|
    ensures Text.Find(s, code, 0) != -1 ==> start == Text.Find(s, code, 0)
  {
    var first := Text.Find(s, code, 0);
    if first < 0 then 0 else first
  }

  /** As `StartAsWritten` with the first search clamped: the offset always lies in the text. */
  function Start(s: string, code: string, copies: nat): (start: int)
    ensures 0 <= start <= |s|
  {
    StartInText(s, code, FirstStart(s, code), copies);
    StartAfter(s, code, FirstStart(s, code), copies)
  }

  lemma {:induction false} StartInText(s: string, code: string, start: int, n: nat)
    requires 0 <= start <= |s|
    ensures 0 <= StartAfter(s, code, start, n) <= |s|
    decreases n
  {
    if n > 0 {
      var next := Text.Find(s, code, start + |code|);
      StartInText(s, code, if next < 0 then 0 else next, n - 1);
    }
  }

  /** The two agree whenever the snippet occurs in the program. */
  lemma StartAgrees(s: string, code: string, copies: nat)
    requires Text.Find(s, code, 0) != -1
    ensures Start(s, code, copies) == StartAsWritten(s, code, copies)
  {
  }

  /**
   * As written, a snippet that is missing from the program gets a range that starts at
   * a negative column, on a line after the one it ends on.
   */
  lemma MissingSnippetAsWritten()
    ensures StartAsWritten("a\nb", "zz", 0) == -1
    ensures RangeAt("a\nb", StartAsWritten("a\nb", "zz", 0), 2) == SourceRange(Some(2), Some(-2), Some(1), Some(2))
  {
    var s := "a\nb";
    assert Text.Find(s, "zz", 0) == -1 by {
      forall j | 0 <= j <= |s|
        ensures !Text.OccursAt(s, "zz", j)
      {
        if j + 2 <= |s| {
          assert s[j..j + 2][0] == s[j] != 'z';
        }
      }
    }
    var before := SliceTo(s, -1);
    assert before == "a\n" by {
      assert SliceBound(-1, |s|) == 2;
      assert s[..2] == "a\n";
    }
    assert LineCol(s, -1) == (2, -2) by {
      assert before[..1] == "a" && "a"[..0] == "";
      assert Text.Count("a", '\n') == 0 && Text.Count(before, '\n') == 1;
      assert Text.RFind(before, '\n') == 1;
    }
    assert LineCol(s, 1) == (1, 2) by {
      assert SliceTo(s, 1) == "a" && "a"[..0] == "";
      assert Text.Count("a", '\n') == 0;
      assert Text.RFind("a", '\n') == -1;
    }
  }

  /** The range of a snippet of length `len` placed at `start`. */
  function RangeAt(s: string, start: int, len: nat): SourceRange {
    var (fromLine, fromColumn) := LineCol(s, start);
    var (toLine, toColumn) := LineCol(s, start + len);
    SourceRange(Some(fromLine), Some(fromColumn), Some(toLine), Some(toColumn))
  }

  /** Every field of a placed range is a line or column from 1 on. */
  predicate Positive(r: SourceRange) {
    r.fromLine.Some? && r.fromLine.value >= 1 && r.fromColumn.Some? && r.fromColumn.value >= 1 &&
    r.toLine.Some? && r.toLine.value >= 1 && r.toColumn.Some? && r.toColumn.value >= 1
  }

  /** With the clamped search, every placed range is positive. */
  lemma RangeAtPositive(s: string, code: string, copies: nat)
    ensures Positive(RangeAt(s, Start(s, code, copies), |code|))
  {
  }

  // ---------------------------------------------------------------------------
  // `set_python_output` over the entries of the map

  type Entry = (SourceCode, SourceCode)

  /** An entry whose Hedy snippet failed, or whose Python is empty, is not placed. */
  predicate Skipped(e: Entry) {
    e.0.error.Some? || e.1.code == ""
  }

  /** `python_code_mapped` after the entries: the Python of each placed entry, in order. */
  function Mapped(es: seq<Entry>): (m: seq<string>)
    ensures |m| <= |es|
  {
    if es == [] then []
    else
      var last := es[|es| - 1];
      Mapped(es[..|es| - 1]) + (if Skipped(last) then [] else [last.1.code])
  }

  /** `list.count(x)` */
  function CountOf(xs: seq<string>, x: string): (n: nat)
    ensures n <= |xs|
  {
    if xs == [] then 0 else CountOf(xs[..|xs| - 1], x) + (if xs[|xs| - 1] == x then 1 else 0)
  }

  /** One entry after `set_python_output`, given the Python placed before it. */
  function Place(e: Entry, s: string, mapped: seq<string>): (r: Entry)
    ensures r.0 == e.0 && r.1.code == e.1.code && r.1.error == e.1.error
    ensures Skipped(e) ==> r == e
    ensures !Skipped(e) ==> r.1.range == RangeAt(s, StartAsWritten(s, e.1.code, CountOf(mapped, e.1.code)), |e.1.code|)
  {
    if Skipped(e) then e
    else (e.0, e.1.(range := RangeAt(s, StartAsWritten(s, e.1.code, CountOf(mapped, e.1.code)), |e.1.code|)))
  }

  /** All entries after `set_python_output(s)`. */
  function Placed(es: seq<Entry>, s: string): (r: seq<Entry>)
    ensures |r| == |es|
  {
    if es == [] then []
    else Placed(es[..|es| - 1], s) + [Place(es[|es| - 1], s, Mapped(es[..|es| - 1]))]
  }

  /**
   * The `i`-th entry is placed after all the identical Python placed before it: only
   * its Python range changes, and only when it is not skipped.
   */
  lemma {:induction false} PlacedEntry(es: seq<Entry>, s: string, i: int)
    requires 0 <= i < |es|
    ensures Placed(es, s)[i] == Place(es[i], s, Mapped(es[..i]))
  {
    if i < |es| - 1 {
      PlacedEntry(es[..|es| - 1], s, i);
      assert es[..|es| - 1][..i] == es[..i];
    } else {
      assert es[..i] == es[..|es| - 1];
    }
  }

  /** Every placed range of a snippet that occurs in the program starts and ends at a line and column from 1 on. */
  lemma PlacedPositive(es: seq<Entry>, s: string, i: int)
    requires 0 <= i < |es| && !Skipped(es[i]) && Text.Find(s, es[i].1.code, 0) != -1
    ensures Positive(Placed(es, s)[i].1.range)
  {
    PlacedEntry(es, s, i);
    var copies := CountOf(Mapped(es[..i]), es[i].1.code);
    StartAgrees(s, es[i].1.code, copies);
    RangeAtPositive(s, es[i].1.code, copies);
  }

  /** One entry placed with the first search clamped as the later ones are. */
  function PlaceClamped(e: Entry, s: string, mapped: seq<string>): (r: Entry)
    ensures r.0 == e.0 && r.1.code == e.1.code && r.1.error == e.1.error
    ensures Skipped(e) ==> r == e
    ensures !Skipped(e) ==> Positive(r.1.range)
  {
    if Skipped(e) then e
    else
      RangeAtPositive(s, e.1.code, CountOf(mapped, e.1.code));
      (e.0, e.1.(range := RangeAt(s, Start(s, e.1.code, CountOf(mapped, e.1.code)), |e.1.code|)))
  }

  /** All entries placed with the clamped first search. */
  function PlacedClamped(es: seq<Entry>, s: string): (r: seq<Entry>)
    ensures |r| == |es|
  {
    if es == [] then []
    else PlacedClamped(es[..|es| - 1], s) + [PlaceClamped(es[|es| - 1], s, Mapped(es[..|es| - 1]))]
  }

  lemma {:induction false} PlacedClampedEntry(es: seq<Entry>, s: string, i: int)
    requires 0 <= i < |es|
    ensures PlacedClamped(es, s)[i] == PlaceClamped(es[i], s, Mapped(es[..i]))
  {
    if i < |es| - 1 {
      PlacedClampedEntry(es[..|es| - 1], s, i);
      assert es[..|es| - 1][..i] == es[..i];
    } else {
      assert es[..i] == es[..|es| - 1];
    }
  }

  /** With the clamped search every placed range is positive, found or not. */
  lemma PlacedClampedPositive(es: seq<Entry>, s: string, i: int)
    requires 0 <= i < |es| && !Skipped(es[i])
    ensures Positive(PlacedClamped(es, s)[i].1.range)
  {
    PlacedClampedEntry(es, s, i);
  }

  /** The two placements agree on every entry whose snippet occurs in the program. */
  lemma PlacedAgree(es: seq<Entry>, s: string, i: int)
    requires 0 <= i < |es| && (Skipped(es[i]) || Text.Find(s, es[i].1.code, 0) != -1)
    ensures Placed(es, s)[i] == PlacedClamped(es, s)[i]
  {
    PlacedEntry(es, s, i);
    PlacedClampedEntry(es, s, i);
    if !Skipped(es[i]) {
      StartAgrees(s, es[i].1.code, CountOf(Mapped(es[..i]), es[i].1.code));
    }
  }

  // ---------------------------------------------------------------------------
  // `SourceMap`

  /** No two Hedy snippets share a range: they are the keys of a dict. */
  predicate DistinctRanges(es: seq<Entry>) {
    forall i, j :: 0 <= i < j < |es| ==> es[i].0.range != es[j].0.range
  }

  /** `map[hedy] = python`: an equal key keeps its place and its object, and gets the new value. */
  function Added(es: seq<Entry>, hedy: SourceCode, python: SourceCode): (r: seq<Entry>)
    ensures |r| == |es| || r == es + [(hedy, python)]
    ensures forall i :: 0 <= i < |r| ==> r[i].0.range == hedy.range || r[i] in es
  {
    if es == [] then [(hedy, python)]
    else if es[0].0.range == hedy.range then [(es[0].0, python)] + es[1..]
    else
      var rest := Added(es[1..], hedy, python);
      assert forall e :: e in es[1..] ==> e in es;
      [es[0]] + rest
  }

  /** `map.get(hedy)`: the value under the key whose range is `range`. */
  function Lookup(es: seq<Entry>, range: SourceRange): Option<SourceCode> {
    if es == [] then None
    else if es[0].0.range == range then Some(es[0].1)
    else Lookup(es[1..], range)
  }

  /** After adding, the new value is found under its range and every other value is kept. */
  lemma {:induction false} AddedLookup(es: seq<Entry>, hedy: SourceCode, python: SourceCode, range: SourceRange)
    ensures Lookup(Added(es, hedy, python), range) == if range == hedy.range then Some(python) else Lookup(es, range)
  {
    if es != [] && es[0].0.range != hedy.range {
      AddedLookup(es[1..], hedy, python, range);
    }
  }

  /** Adding keeps the keys distinct. */
  lemma {:induction false} AddedDistinct(es: seq<Entry>, hedy: SourceCode, python: SourceCode)
    requires DistinctRanges(es)
    ensures DistinctRanges(Added(es, hedy, python))
  {
    if es != [] && es[0].0.range != hedy.range {
      var tail := es[1..];
      DistinctTail(es);
      AddedDistinct(tail, hedy, python);
      var rest := Added(tail, hedy, python);
      forall i | 0 <= i < |rest|
        ensures es[0].0.range != rest[i].0.range
      {
        if rest[i].0.range != hedy.range {
          var j :| 0 <= j < |tail| && tail[j] == rest[i];
          assert tail[j] == es[j + 1];
        }
      }
      DistinctCons(es[0], rest);
    } else if es != [] {
      DistinctReplaceHead(es, python);
    }
  }

  lemma DistinctTail(es: seq<Entry>)
    requires es != [] && DistinctRanges(es)
    ensures DistinctRanges(es[1..])
  {
    var tail := es[1..];
    assert forall i :: 0 <= i < |tail| ==> tail[i] == es[i + 1];
  }

  lemma DistinctCons(e: Entry, rest: seq<Entry>)
    requires DistinctRanges(rest)
    requires forall i :: 0 <= i < |rest| ==> e.0.range != rest[i].0.range
    ensures DistinctRanges([e] + rest)
  {
    var r := [e] + rest;
    assert forall i :: 0 < i < |r| ==> r[i] == rest[i - 1];
  }

  lemma DistinctReplaceHead(es: seq<Entry>, python: SourceCode)
    requires es != [] && DistinctRanges(es)
    ensures DistinctRanges([(es[0].0, python)] + es[1..])
  {
    var r := [(es[0].0, python)] + es[1..];
    assert forall i :: 0 <= i < |r| ==> r[i].0 == es[i].0;
  }

  /** The key of an entry in `get_compressed_mapping`: its printed Hedy range. */
  function HedyKey(e: Entry): string {
    ShowRange(e.0.range)
  }

  /** What `get_compressed_mapping` stores for an entry: its printed ranges. */
  function Pair(e: Entry): (string, string) {
    (HedyKey(e), ShowRange(e.1.range))
  }

  function Pairs(es: seq<Entry>): (ps: seq<(string, string)>)
    ensures |ps| == |es|
    ensures forall i :: 0 <= i < |es| ==> ps[i] == Pair(es[i])
  {
    seq(|es|, i requires 0 <= i < |es| => Pair(es[i]))
  }

  /** A dict filled by storing the pairs in order, so a later pair with the same key wins. */
  function MapOf(ps: seq<(string, string)>): map<string, string> {
    if ps == [] then map[]
    else MapOf(ps[..|ps| - 1])[ps[|ps| - 1].0 := ps[|ps| - 1].1]
  }

  /** The keys of the dict are exactly the keys of the pairs. */
  lemma {:induction false} MapOfKeys(ps: seq<(string, string)>, key: string)
    ensures key in MapOf(ps) <==> exists i :: 0 <= i < |ps| && ps[i].0 == key
  {
    if ps != [] {
      var prefix := ps[..|ps| - 1];
      MapOfKeys(prefix, key);
      assert forall j :: 0 <= j < |prefix| ==> ps[j] == prefix[j];
      if key in MapOf(ps) && key != ps[|ps| - 1].0 {
        var j :| 0 <= j < |prefix| && prefix[j].0 == key;
        assert ps[j].0 == key;
      }
    }
  }

  /** With distinct keys, each pair's key leads to its value. */
  lemma {:induction false} MapOfLookup(ps: seq<(string, string)>, i: int)
    requires forall j, k :: 0 <= j < k < |ps| ==> ps[j].0 != ps[k].0
    requires 0 <= i < |ps|
    ensures ps[i].0 in MapOf(ps) && MapOf(ps)[ps[i].0] == ps[i].1
  {
    if i < |ps| - 1 {
      var prefix := ps[..|ps| - 1];
      assert forall j :: 0 <= j < |prefix| ==> prefix[j] == ps[j];
      MapOfLookup(prefix, i);
    }
  }

  /** The dict of `get_compressed_mapping`: printed Hedy range to printed Python range. */
  function Compressed(es: seq<Entry>): map<string, string> {
    MapOf(Pairs(es))
  }

  /** Every printed Hedy range is a key of the compressed mapping, and nothing else is. */
  lemma CompressedKeys(es: seq<Entry>, key: string)
    ensures key in Compressed(es) <==> exists i :: 0 <= i < |es| && HedyKey(es[i]) == key
  {
    var ps := Pairs(es);
    MapOfKeys(ps, key);
    if key in Compressed(es) {
      var i :| 0 <= i < |ps| && ps[i].0 == key;
      assert HedyKey(es[i]) == key;
    }
  }

  /**
   * With distinct Hedy ranges that print without a minus sign, every entry's printed
   * Hedy range leads to its printed Python range.
   */
  lemma CompressedLookup(es: seq<Entry>, i: int)
    requires DistinctRanges(es)
    requires forall j :: 0 <= j < |es| ==> NonNegative(es[j].0.range)
    requires 0 <= i < |es|
    ensures HedyKey(es[i]) in Compressed(es)
    ensures Compressed(es)[HedyKey(es[i])] == ShowRange(es[i].1.range)
  {
    var ps := Pairs(es);
    forall j, k | 0 <= j < k < |ps|
      ensures ps[j].0 != ps[k].0
    {
      if ps[j].0 == ps[k].0 {
        ShowRangeInjective(es[j].0.range, es[k].0.range);
      }
    }
    MapOfLookup(ps, i);
  }

  /** One entry of `get_result`: the two ranges and the Hedy snippet's error. */
  datatype ResultEntry = ResultEntry(hedyRange: SourceRange, pythonRange: SourceRange, error: Option<string>)

  function Describe(e: Entry): ResultEntry {
    ResultEntry(e.0.range, e.1.range, e.0.error)
  }

  /**
   * `SourceMap`: the Hedy snippets mapped to their Python, in insertion order, with
   * the level, language and program texts it was given.
   */
  class SourceMap {
    var entries: seq<Entry>
    var level: int
    var language: string
    var skipFaulty: bool
    var hedyCode: string
    var pythonCode: string

    predicate Valid()
      reads this
    {
      DistinctRanges(entries)
    }

    /** A fresh map, with the class defaults. */
    constructor()
      ensures Valid()
      ensures entries == [] && level == 0 && language == "en" && !skipFaulty && hedyCode == "" && pythonCode == ""
    {
      entries := [];
      level := 0;
      language := "en";
      skipFaulty := false;
      hedyCode := "";
      pythonCode := "";
    }

    /** `add_source(hedy_code, python_code)` */
    method AddSource(hedy: SourceCode, python: SourceCode)
      requires Valid()
      modifies this
      ensures Valid()
      ensures entries == Added(old(entries), hedy, python)
      ensures unchanged(this`level, this`language, this`skipFaulty, this`hedyCode, this`pythonCode)
    {
      AddedDistinct(entries, hedy, python);
      entries := Added(entries, hedy, python);
    }

    /** `clear()`: `skip_faulty` is the one setting it keeps. */
    method Clear()
      modifies this
      ensures Valid()
      ensures entries == [] && level == 0 && language == "en" && hedyCode == "" && pythonCode == ""
      ensures skipFaulty == old(skipFaulty)
    {
      entries := [];
      level := 0;
      language := "en";
      hedyCode := "";
      pythonCode := "";
    }

    /**
     * `set_python_output(python_code)`: records the program and gives every placed
     * Python snippet the range of its copy in it.
     */
    method SetPythonOutput(s: string)
      requires Valid()
      modifies this
      ensures Valid()
      ensures pythonCode == s
      ensures entries == Placed(old(entries), s)
      ensures unchanged(this`level, this`language, this`skipFaulty, this`hedyCode)
    {
      var placed := PlaceAll(entries, s);
      PlacedDistinct(entries, s);
      entries := placed;
      pythonCode := s;
    }

    /** `get_result()`: entry `i` of the answer describes the `i`-th entry of the map. */
    method GetResult() returns (r: map<int, ResultEntry>)
      ensures forall index :: index in r <==> 0 <= index < |entries|
      ensures forall index :: 0 <= index < |entries| ==> r[index] == Describe(entries[index])
    {
      r := map[];
      var index := 0;
      while index < |entries|
        invariant 0 <= index <= |entries|
        invariant forall k :: k in r <==> 0 <= k < index
        invariant forall k :: 0 <= k < index ==> r[k] == Describe(entries[k])
      {
        r := r[index := Describe(entries[index])];
        index := index + 1;
      }
    }

    /** `get_compressed_mapping()` */
    method GetCompressedMapping() returns (r: map<string, string>)
      ensures r == Compressed(entries)
    {
      r := map[];
      var i := 0;
      while i < |entries|
        invariant 0 <= i <= |entries|
        invariant r == Compressed(entries[..i])
      {
        var ps := Pairs(entries[..i + 1]);
        assert ps[..i] == Pairs(entries[..i]);
        assert ps[i] == Pair(entries[i]);
        r := r[HedyKey(entries[i]) := ShowRange(entries[i].1.range)];
        i := i + 1;
      }
      assert entries[..i] == entries;
    }

    /**
     * `get_error_from_hedy_source_range(hedy_range)`: the error of the first Hedy snippet
     * with that range, and `None` when there is none.
     */
    method GetErrorFromHedySourceRange(range: SourceRange) returns (r: Option<string>)
      ensures (forall i :: 0 <= i < |entries| ==> entries[i].0.range != range) ==> r == None
      ensures forall i :: FirstWith(entries, range, i) ==> r == entries[i].0.error
      ensures Valid() ==> forall i :: 0 <= i < |entries| && entries[i].0.range == range ==> r == entries[i].0.error
    {
      var es := entries;
      var i := 0;
      while i < |es|
        invariant 0 <= i <= |es|
        invariant forall j :: 0 <= j < i ==> es[j].0.range != range
      {
        if RangeEq(es[i].0.range, range) {
          FirstMatch(es, range, i);
          return es[i].0.error;
        }
        i := i + 1;
      }
      return None;
    }
  }

  /** Entry `i` is the first whose Hedy range is `range`. */
  predicate FirstWith(es: seq<Entry>, range: SourceRange, i: int) {
    0 <= i < |es| && es[i].0.range == range && forall j :: 0 <= j < i ==> es[j].0.range != range
  }

  /** The first entry with a range is the only first one, and with distinct ranges the only one. */
  lemma FirstMatch(es: seq<Entry>, range: SourceRange, i: int)
    requires FirstWith(es, range, i)
    ensures forall k :: FirstWith(es, range, k) ==> k == i
    ensures DistinctRanges(es) ==> forall k :: 0 <= k < |es| && es[k].0.range == range ==> k == i
  {
  }

  /** The loop of `set_python_output` over the entries of the map. */
  method PlaceAll(original: seq<Entry>, s: string) returns (done: seq<Entry>)
    ensures done == Placed(original, s)
  {
    var mapped: seq<string> := [];
    done := original;
    var i := 0;
    while i < |done|
      invariant 0 <= i <= |done| == |original|
      invariant done == Placed(original[..i], s) + original[i..]
      invariant mapped == Mapped(original[..i])
    {
      var (hedy, python) := done[i];
      assert done[i] == original[i];
      if hedy.error.Some? || python.code == "" {
        PlaceAt(original, i, s, done, done[i]);
      } else {
        var placed := PlacePython(s, python, mapped);
        PlaceAt(original, i, s, done, (hedy, placed));
        done := done[i := (hedy, placed)];
        mapped := mapped + [python.code];
      }
      i := i + 1;
    }
    assert original[..i] == original;
  }

  /** The body of the loop of `set_python_output` for one placed snippet. */
  method PlacePython(s: string, python: SourceCode, mapped: seq<string>) returns (placed: SourceCode)
    ensures placed == python.(range := RangeAt(s, StartAsWritten(s, python.code, CountOf(mapped, python.code)), |python.code|))
  {
    var code := python.code;
    var start := Text.Find(s, code, 0);
    var copies := CountOf(mapped, code);
    var k := 0;
    while k < copies
      invariant 0 <= k <= copies
      invariant StartAfter(s, code, start, copies - k) == StartAsWritten(s, code, copies)
    {
      var next := Text.Find(s, code, start + |code|);
      StartAfterStep(s, code, start, copies - k);
      start := if next < 0 then 0 else next;
      k := k + 1;
    }
    placed := python.(range := RangeAt(s, start, |code|));
  }

  lemma PlaceAt(original: seq<Entry>, i: int, s: string, entries: seq<Entry>, e: Entry)
    requires 0 <= i < |original| == |entries|
    requires entries == Placed(original[..i], s) + original[i..]
    requires e == Place(original[i], s, Mapped(original[..i]))
    ensures entries[i := e] == Placed(original[..i + 1], s) + original[i + 1..]
    ensures Mapped(original[..i + 1]) == Mapped(original[..i]) + (if Skipped(original[i]) then [] else [original[i].1.code])
  {
    var p := original[..i + 1];
    assert p[..i] == original[..i];
    assert p[i] == original[i];
    var done := Placed(original[..i], s);
    assert Placed(p, s) == done + [e];
    var lhs := entries[i := e];
    var rhs := done + [e] + original[i + 1..];
    forall k | 0 <= k < |lhs|
      ensures lhs[k] == rhs[k]
    {
      if k > i {
        assert original[i..][k - i] == original[k];
      }
    }
  }

  /** Placing keeps every Hedy snippet, so the keys stay distinct. */
  lemma PlacedDistinct(es: seq<Entry>, s: string)
    requires DistinctRanges(es)
    ensures DistinctRanges(Placed(es, s))
  {
    forall i | 0 <= i < |es|
      ensures Placed(es, s)[i].0 == es[i].0
    {
      PlacedEntry(es, s, i);
    }
  }
}
