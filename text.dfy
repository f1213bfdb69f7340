/**
 * Python string behaviour the model relies on: ordering of `str` values, ASCII case
 * mapping, `split`/`join` on a single-character separator, `find`, `count`, `rfind`,
 * `lstrip`, `endswith`, and conversion between `int` and its decimal text.
 */
module Text {
  import opened Wrappers

  // ---------------------------------------------------------------------------
  // Ordering: Python compares strings lexicographically by code point, and a
  // proper prefix sorts first.

  predicate Le(a: string, b: string)
    decreases |a|
  {
    if a == [] then true
    else if b == [] then false
    else if a[0] != b[0] then a[0] < b[0]
    else Le(a[1..], b[1..])
  }

  lemma {:induction false} LeReflexive(a: string)
    ensures Le(a, a)
    decreases |a|
  {
    if a != [] { LeReflexive(a[1..]); }
  }

  lemma {:induction false} LeTotal(a: string, b: string)
    ensures Le(a, b) || Le(b, a)
    decreases |a|
  {
    if a != [] && b != [] && a[0] == b[0] { LeTotal(a[1..], b[1..]); }
  }

  lemma {:induction false} LeAntisymmetric(a: string, b: string)
    requires Le(a, b) && Le(b, a)
    ensures a == b
    decreases |a|
  {
    if a != [] && b != [] {
      LeAntisymmetric(a[1..], b[1..]);
      assert a == [a[0]] + a[1..] && b == [b[0]] + b[1..];
    }
  }

  lemma {:induction false} LeTransitive(a: string, b: string, c: string)
    requires Le(a, b) && Le(b, c)
    ensures Le(a, c)
    decreases |a|
  {
    if a != [] && b != [] && c != [] && a[0] == b[0] && b[0] == c[0] {
      LeTransitive(a[1..], b[1..], c[1..]);
    }
  }

  // ---------------------------------------------------------------------------
  // Case mapping (ASCII letters only).

  function UpperChar(c: char): (u: char)
    ensures 'a' <= c <= 'z' ==> u as int == c as int - 32
    ensures !('a' <= c <= 'z') ==> u == c
  {
    if 'a' <= c <= 'z' then (c as int - 32) as char else c
  }

  function LowerChar(c: char): (l: char)
    ensures 'A' <= c <= 'Z' ==> l as int == c as int + 32
    ensures !('A' <= c <= 'Z') ==> l == c
  {
    if 'A' <= c <= 'Z' then (c as int + 32) as char else c
  }

  function Upper(s: string): (r: string)
    ensures |r| == |s|
    ensures forall i :: 0 <= i < |s| ==> r[i] == UpperChar(s[i])
  {
    seq(|s|, i requires 0 <= i < |s| => UpperChar(s[i]))
  }

  function Lower(s: string): (r: string)
    ensures |r| == |s|
    ensures forall i :: 0 <= i < |s| ==> r[i] == LowerChar(s[i])
  {
    seq(|s|, i requires 0 <= i < |s| => LowerChar(s[i]))
  }

  // ---------------------------------------------------------------------------
  // Prefixes, suffixes and stripping.

  predicate StartsWith(s: string, prefix: string) {
    |prefix| <= |s| && s[..|prefix|] == prefix
  }

  predicate EndsWith(s: string, suffix: string) {
    |suffix| <= |s| && s[|s| - |suffix|..] == suffix
  }

  /** `s.lstrip(c)` for a single character `c`. */
  function LStrip(s: string, c: char): (r: string)
    ensures |r| <= |s| && r == s[|s| - |r|..]
    ensures r == [] || r[0] != c
    ensures forall i :: 0 <= i < |s| - |r| ==> s[i] == c
  {
    if s != [] && s[0] == c then LStrip(s[1..], c) else s
  }

  // ---------------------------------------------------------------------------
  // Splitting on, and joining with, one separator character.

  /** `s.split(sep)` for a one-character separator: always at least one part. */
  function Split(s: string, sep: char): (parts: seq<string>)
    ensures |parts| >= 1
    ensures forall i :: 0 <= i < |parts| ==> sep !in parts[i]
    decreases |s|
  {
    if s == [] then [""]
    else
      var rest := Split(s[1..], sep);
      if s[0] == sep then [""] + rest
      else [[s[0]] + rest[0]] + rest[1..]
  }

  /** `sep.join(parts)` */
  function Join(sep: string, parts: seq<string>): (s: string)
    ensures parts == [] ==> s == ""
    decreases |parts|
  {
    if parts == [] then ""
    else if |parts| == 1 then parts[0]
    else parts[0] + sep + Join(sep, parts[1..])
  }

  lemma {:induction false} SplitNoSeparator(p: string, sep: char)
    requires sep !in p
    ensures Split(p, sep) == [p]
    decreases |p|
  {
    if p != [] {
      SplitNoSeparator(p[1..], sep);
      assert [p[0]] + p[1..] == p;
    }
  }

  lemma {:induction false} SplitAtSeparator(p: string, sep: char, rest: string)
    requires sep !in p
    ensures Split(p + [sep] + rest, sep) == [p] + Split(rest, sep)
    decreases |p|
  {
    var s := p + [sep] + rest;
    if p == [] {
      assert s[1..] == rest;
    } else {
      assert s[1..] == p[1..] + [sep] + rest;
      SplitAtSeparator(p[1..], sep, rest);
      assert [p[0]] + p[1..] == p;
    }
  }

  /** Splitting text obtained by joining parts free of the separator gives the parts back. */
  lemma {:induction false} SplitJoin(parts: seq<string>, sep: char)
    requires |parts| >= 1
    requires forall i :: 0 <= i < |parts| ==> sep !in parts[i]
    ensures Split(Join([sep], parts), sep) == parts
    decreases |parts|
  {
    if |parts| == 1 {
      SplitNoSeparator(parts[0], sep);
    } else {
      SplitJoin(parts[1..], sep);
      SplitAtSeparator(parts[0], sep, Join([sep], parts[1..]));
      assert [parts[0]] + parts[1..] == parts;
    }
  }

  /** The joined text starts with the first part, then the separator, and ends with the last part. */
  lemma {:induction false} JoinEnds(sep: string, parts: seq<string>)
    requires parts != []
    ensures StartsWith(Join(sep, parts), parts[0])
    ensures |parts| >= 2 ==> StartsWith(Join(sep, parts), parts[0] + sep)
    ensures EndsWith(Join(sep, parts), parts[|parts| - 1])
    decreases |parts|
  {
    if |parts| >= 2 {
      JoinEnds(sep, parts[1..]);
      var s := Join(sep, parts);
      var rest := Join(sep, parts[1..]);
      assert s == parts[0] + sep + rest;
      assert s[..|parts[0] + sep|] == parts[0] + sep;
      assert s[..|parts[0]|] == parts[0];
      assert s[|s| - |rest|..] == rest;
    }
  }

  lemma {:induction false} JoinCons(sep: string, a: string, t: seq<string>)
    requires t != []
    ensures Join(sep, [a] + t) == a + sep + Join(sep, t)
  {
    assert ([a] + t)[1..] == t;
  }

  /** Joining the parts of a split gives the original text back. */
  lemma {:induction false} JoinSplit(s: string, sep: char)
    ensures Join([sep], Split(s, sep)) == s
    decreases |s|
  {
    if s != [] {
      var rest := Split(s[1..], sep);
      JoinSplit(s[1..], sep);
      if s[0] == sep {
        JoinCons([sep], "", rest);
        assert [s[0]] + s[1..] == s;
      } else {
        assert Split(s, sep) == [[s[0]] + rest[0]] + rest[1..];
        JoinHead(sep, s[0], rest);
        assert [s[0]] + s[1..] == s;
      }
    }
  }

  /** A character added to the front of the first part comes first in the joined text. */
  lemma {:induction false} JoinHead(sep: char, c: char, rest: seq<string>)
    requires rest != []
    ensures Join([sep], [[c] + rest[0]] + rest[1..]) == [c] + Join([sep], rest)
  {
    var head := [c] + rest[0];
    if |rest| == 1 {
      assert Join([sep], [head]) == head;
    } else {
      JoinCons([sep], head, rest[1..]);
      JoinCons([sep], rest[0], rest[1..]);
      assert [rest[0]] + rest[1..] == rest;
    }
  }

  // ---------------------------------------------------------------------------
  // Searching.

  /** Occurrences of `c` in `s`. */
  function Count(s: string, c: char): nat {
    if s == [] then 0 else Count(s[..|s| - 1], c) + (if s[|s| - 1] == c then 1 else 0)
  }

  /** Position of the last `c` in `s`, or -1. */
  function RFind(s: string, c: char): (r: int)
    ensures -1 <= r < |s|
    ensures r >= 0 ==> s[r] == c
    ensures forall i :: r < i < |s| ==> s[i] != c
  {
    if s == [] then -1
    else if s[|s| - 1] == c then |s| - 1
    else RFind(s[..|s| - 1], c)
  }

  predicate OccursAt(s: string, sub: string, k: nat) {
    k + |sub| <= |s| && s[k..k + |sub|] == sub
  }

  function FindFrom(s: string, sub: string, k: nat): (r: int)
    requires k <= |s|
    ensures r == -1 || (k <= r <= |s| && OccursAt(s, sub, r))
    ensures r == -1 ==> forall j :: k <= j <= |s| ==> !OccursAt(s, sub, j)
    ensures r != -1 ==> forall j :: k <= j < r ==> !OccursAt(s, sub, j)
    decreases |s| - k
  {
    if OccursAt(s, sub, k) then k
    else if k == |s| then -1
    else FindFrom(s, sub, k + 1)
  }

  /** `s.find(sub, start)`: -1 when there is no occurrence at or after `start`. */
  function Find(s: string, sub: string, start: int): (r: int)
    ensures r == -1 || (0 <= r <= |s| && OccursAt(s, sub, r))
    ensures start >= 0 && r != -1 ==> start <= r
    ensures 0 <= start <= |s| && r == -1 ==> forall j :: start <= j <= |s| ==> !OccursAt(s, sub, j)
  {
    if start > |s| then -1
    else
      var k := if start >= 0 then start else if |s| + start < 0 then 0 else |s| + start;
      FindFrom(s, sub, k)
  }

  // ---------------------------------------------------------------------------
  // Decimal text of integers (`str(n)`) and its parsing (`int(s)`).

  function DigitChar(d: nat): char
    requires d < 10
  {
    ('0' as int + d) as char
  }

  predicate IsDigit(c: char) { '0' <= c <= '9' }

  function DigitValue(c: char): nat
    requires IsDigit(c)
  {
    c as int - '0' as int
  }

  function NatToString(n: nat): (s: string)
    ensures |s| >= 1
    ensures forall i :: 0 <= i < |s| ==> IsDigit(s[i])
  {
    if n < 10 then [DigitChar(n)] else NatToString(n / 10) + [DigitChar(n % 10)]
  }

  function IntToString(i: int): (s: string)
    ensures |s| >= 1
  {
    if i < 0 then "-" + NatToString(-i) else NatToString(i)
  }

  predicate AllDigits(s: string) {
    forall i :: 0 <= i < |s| ==> IsDigit(s[i])
  }

  function DigitsValue(s: string): nat
    requires AllDigits(s)
  {
    if s == [] then 0 else DigitsValue(s[..|s| - 1]) * 10 + DigitValue(s[|s| - 1])
  }

  /** The characters `str.isspace()` accepts, which `int()` ignores around the number. */
  predicate IsSpace(c: char) {
    c == ' ' || '\t' <= c <= '\r' || '\U{1c}' <= c <= '\U{1f}' || c == '\U{85}' || c == '\U{a0}' ||
    c == '\U{1680}' || '\U{2000}' <= c <= '\U{200a}' || c == '\U{2028}' || c == '\U{2029}' || c == '\U{202f}' ||
    c == '\U{205f}' || c == '\U{3000}'
  }

  function TrimStart(s: string): string {
    if s != [] && IsSpace(s[0]) then TrimStart(s[1..]) else s
  }

  function TrimEnd(s: string): string {
    if s != [] && IsSpace(s[|s| - 1]) then TrimEnd(s[..|s| - 1]) else s
  }

  /** `s.strip()` */
  function Strip(s: string): string {
    TrimEnd(TrimStart(s))
  }

  /**
   * The digits of a Python integer: decimal digits, where single underscores may
   * separate two digits (`1_000`).
   */
  predicate DigitGroups(s: string) {
    |s| >= 1 && IsDigit(s[0]) && IsDigit(s[|s| - 1]) &&
    (forall i :: 0 <= i < |s| ==> IsDigit(s[i]) || s[i] == '_') &&
    (forall i :: 0 <= i < |s| - 1 ==> s[i] == '_' ==> IsDigit(s[i + 1]))
  }

  /** The digits with the underscores between them left out. */
  function DropUnderscores(s: string): (r: string)
    ensures (forall i :: 0 <= i < |s| ==> IsDigit(s[i]) || s[i] == '_') ==> AllDigits(r)
    ensures AllDigits(s) ==> r == s
  {
    if s == [] then []
    else (if s[0] == '_' then [] else [s[0]]) + DropUnderscores(s[1..])
  }

  /**
   * `int(s)`: surrounding whitespace is ignored, then an optional sign and the digits
   * must make up the rest of the text; anything else raises ValueError, which is `None`
   * here.
   */
  function ParseInt(s: string): (r: Option<int>)
    ensures Strip(s) == [] ==> r.None?
    ensures r.Some? && r.value < 0 ==> Strip(s)[0] == '-'
    ensures r.Some? && Strip(s)[0] == '-' ==> r.value <= 0
  {
    var t := Strip(s);
    var digits := Unsigned(t);
    if !DigitGroups(digits) then None
    else
      var v: int := DigitsValue(DropUnderscores(digits));
      Some(if t[0] == '-' then -v else v)
  }

  /** The text after a leading sign, if there is one. */
  function Unsigned(t: string): (u: string)
    ensures |u| <= |t|
    ensures t != [] && u != [] ==> (u == t <==> t[0] != '-' && t[0] != '+')
  {
    if t != [] && (t[0] == '-' || t[0] == '+') then t[1..] else t
  }

  /**
   * `int(s)` succeeds exactly when, once stripped of whitespace and of a sign, the text is
   * digits grouped by single underscores; a leading minus makes the number non-positive.
   */
  lemma ParseIntAccepts(s: string)
    ensures ParseInt(s).Some? <==> DigitGroups(Unsigned(Strip(s)))
    ensures ParseInt(s).Some? && Strip(s)[0] == '-' ==> ParseInt(s).value <= 0
    ensures ParseInt(s).Some? && Strip(s)[0] != '-' ==> ParseInt(s).value >= 0
  {
  }

  /** Whitespace around a number is ignored. */
  lemma ParseIntSpaces()
    ensures ParseInt(" 42\n") == Some(42)
  {
    assert Strip(" 42\n") == "42";
    assert DropUnderscores("42") == "42";
    assert DigitsValue("42") == 42 by { assert "42"[..1] == "4"; }
  }

  /** Single underscores between digits are ignored. */
  lemma ParseIntUnderscores()
    ensures ParseInt("-1_0") == Some(-10)
  {
    var t := "-1_0";
    var u := "1_0";
    assert TrimStart(t) == t by {
      assert !IsSpace(t[0]);
    }
    assert Strip(t) == t by {
      assert !IsSpace(t[|t| - 1]);
    }
    assert Unsigned(t) == u by {
      assert t[1..] == u;
    }
    assert DigitGroups(u);
    assert DropUnderscores(u) == "10" by {
      assert u[1..] == "_0" && u[1..][1..] == "0";
    }
    assert DigitsValue("10") == 10 by {
      assert "10"[..1] == "1";
    }
  }

  /** Two underscores in a row, a space after the sign, or no digits at all raise ValueError. */
  lemma ParseIntRejects()
    ensures ParseInt("1__0") == None
    ensures ParseInt("- 1") == None
    ensures ParseInt("") == None
  {
    var a := "1__0";
    assert Strip(a) == a by {
      assert !IsSpace(a[0]) && !IsSpace(a[|a| - 1]);
      assert TrimStart(a) == a;
    }
    assert a[1] == '_' && !IsDigit(a[2]);
    var b := "- 1";
    assert Strip(b) == b by {
      assert !IsSpace(b[0]) && !IsSpace(b[|b| - 1]);
      assert TrimStart(b) == b;
    }
    assert Unsigned(b)[0] == ' ';
  }

  lemma {:induction false} DigitsValueOfNat(n: nat)
    ensures DigitsValue(NatToString(n)) == n
  {
    if n >= 10 {
      var s := NatToString(n);
      assert s[..|s| - 1] == NatToString(n / 10);
      DigitsValueOfNat(n / 10);
    }
  }

  /** `int(str(i)) == i` */
  lemma ParseIntOfString(i: int)
    ensures ParseInt(IntToString(i)) == Some(i)
  {
    var s := IntToString(i);
    var digits := NatToString(if i < 0 then -i else i);
    assert !IsSpace(s[0]) && !IsSpace(s[|s| - 1]);
    assert TrimStart(s) == s;
    assert Strip(s) == s;
    if i < 0 {
      assert s[0] == '-' && s[1..] == digits;
    }
    assert Unsigned(s) == digits;
    assert AllDigits(digits);
    DigitsValueOfNat(if i < 0 then -i else i);
  }

  lemma NatToStringHasNo(n: nat, c: char)
    requires !IsDigit(c)
    ensures c !in NatToString(n)
  {
  }
}
