/**
 * The test-format helpers of tests/Highlighter.py: reading the `{code|colour}` markup
 * into a code text and its colouring, generating the word-by-word prefixes a typing
 * user passes through, and pairing code lines with their colourings.
 */
module Highlighter {
  import opened Wrappers
  import opened Builtins
  import Text

  /** `ABBREVIATION`: the names a test may give a colour, and the colour's letter. */
  const ABBREVIATION: map<string, char> := map[
    "text" := 'T', "uncolor" := 'T', "txt" := 'T', "white" := 'T', "T" := 'T',
    "keyword" := 'K', "kw" := 'K', "red" := 'K', "K" := 'K',
    "comment" := 'C', "cmt" := 'C', "grey" := 'C', "C" := 'C',
    "variable" := 'N', "number" := 'N', "green" := 'N', "N" := 'N',
    "constant.character" := 'S', "string" := 'S', "str" := 'S', "blue" := 'S', "S" := 'S',
    "event" := 'E', "pressed" := 'E', "orange" := 'E', "E" := 'E',
    "invalid" := 'I', "inv" := 'I', "pink" := 'I', "I" := 'I',
    "support.function" := 'F'
  ]

  /** `c * n` for a one-letter string. */
  function Repeat(c: char, n: nat): (s: string)
    ensures |s| == n
    ensures forall i :: 0 <= i < n ==> s[i] == c
  {
    if n == 0 then "" else Repeat(c, n - 1) + [c]
  }

  // ---------------------------------------------------------------------------
  // `HighlightTester.convert`

  /** `TEXT, CODE, KEYWORD`: outside braces, before the `|` inside one, after it. */
  datatype State = TextState | CodeState | KeywordState

  /**
   * The variables of `convert` between two characters. `tmp_code` and `tmp_coloring`
   * are unbound until the first `{`.
   */
  datatype Scan = Scan(code: string, coloring: string, state: State, tmpCode: Option<string>, tmpColoring: Option<string>)

  const START: Scan := Scan("", "", TextState, None, None)

  /** The colouring of text outside braces: a newline stays, anything else is uncoloured. */
  function Blank(t: string): (b: string)
    ensures |b| == |t|
    ensures forall i :: 0 <= i < |t| ==> b[i] == if t[i] == '\n' then '\n' else ' '
  {
    if t == [] then "" else Blank(t[..|t| - 1]) + (if t[|t| - 1] == '\n' then "\n" else " ")
  }

  /**
   * One character of the loop. A `}` before any `{` reads the unbound `tmp_code`, and a
   * colour name missing from `ABBREVIATION` raises KeyError.
   */
  function Step(sc: Scan, ch: char): (r: Result<Scan, Error>)
    ensures r.Failure? ==> ch == '}' && (r.error == UnboundLocalError || r.error == KeyError)
  {
    if ch == '{' then Success(sc.(state := CodeState, tmpCode := Some(""), tmpColoring := Some("")))
    else if ch == '}' then
      if sc.tmpCode.None? || sc.tmpColoring.None? then Failure(UnboundLocalError)
      else if sc.tmpColoring.value !in ABBREVIATION then Failure(KeyError)
      else
        var piece := sc.tmpCode.value;
        Success(sc.(state := TextState, code := sc.code + piece,
                    coloring := sc.coloring + Repeat(ABBREVIATION[sc.tmpColoring.value], |piece|)))
    else if ch == '|' && sc.state == CodeState then Success(sc.(state := KeywordState))
    else
      match sc.state
      case CodeState => Success(sc.(tmpCode := Some(sc.tmpCode.GetOr("") + [ch])))
      case KeywordState => Success(sc.(tmpColoring := Some(sc.tmpColoring.GetOr("") + [ch])))
      case TextState =>
        if ch == '\n' then Success(sc.(code := sc.code + "\n", coloring := sc.coloring + "\n"))
        else Success(sc.(code := sc.code + [ch], coloring := sc.coloring + " "))
  }

  /** The loop over the characters of `s`, stopping at the first error. */
  function Run(sc: Scan, s: string): (r: Result<Scan, Error>)
    ensures r.Failure? ==> '}' in s && (r.error == UnboundLocalError || r.error == KeyError)
    ensures '}' !in s ==> r.Success?
  {
    if s == [] then Success(sc)
    else
      var before :- Run(sc, s[..|s| - 1]);
      Step(before, s[|s| - 1])
  }

  /** `convert(code_coloration)`: the code text and its colouring, of the same length. */
  function ConvertSpec(markup: string): (r: Result<(string, string), Error>)
    ensures r.Failure? ==> '}' in markup && (r.error == UnboundLocalError || r.error == KeyError)
    ensures '}' !in markup ==> r.Success?
    ensures r.Success? ==> |r.value.0| == |r.value.1|
  {
    RunBalanced(START, markup);
    var sc :- Run(START, markup);
    Success((sc.code, sc.coloring))
  }

  /** Reading `a + b` is reading `a`, then `b` from where `a` ended. */
  lemma {:induction false} RunAppend(sc: Scan, a: string, b: string)
    ensures Run(sc, a + b) == match Run(sc, a) case Failure(e) => Failure(e) case Success(mid) => Run(mid, b)
    decreases |b|
  {
    if b == [] {
      assert a + b == a;
    } else {
      RunAppend(sc, a, b[..|b| - 1]);
      assert (a + b)[..|a + b| - 1] == a + b[..|b| - 1];
    }
  }

  /** Every step keeps the code and its colouring the same length. */
  lemma {:induction false} RunBalanced(sc: Scan, s: string)
    requires |sc.code| == |sc.coloring|
    ensures Run(sc, s).Success? ==> |Run(sc, s).value.code| == |Run(sc, s).value.coloring|
    decreases |s|
  {
    if s != [] {
      RunBalanced(sc, s[..|s| - 1]);
    }
  }

  /**
   * Outside braces every character other than a brace is copied to the code, with an
   * uncoloured position (a newline for a newline); `|` is one of them.
   */
  lemma {:induction false} TextSegment(sc: Scan, t: string)
    requires sc.state == TextState
    requires '{' !in t && '}' !in t
    ensures Run(sc, t) == Success(sc.(code := sc.code + t, coloring := sc.coloring + Blank(t)))
    decreases |t|
  {
    if t != [] {
      var prefix := t[..|t| - 1];
      assert forall c :: c in prefix ==> c in t;
      TextSegment(sc, prefix);
      var last := t[|t| - 1];
      assert prefix + [last] == t;
      assert sc.code + prefix + [last] == sc.code + t;
      assert sc.coloring + Blank(prefix) + (if last == '\n' then "\n" else " ") == sc.coloring + Blank(t);
    } else {
      assert sc.code + t == sc.code && sc.coloring + Blank(t) == sc.coloring;
    }
  }

  /** Before the `|`, the characters gather in `tmp_code`. */
  lemma {:induction false} CodeSegment(sc: Scan, x: string)
    requires sc.state == CodeState && sc.tmpCode.Some?
    requires '{' !in x && '}' !in x && '|' !in x
    ensures Run(sc, x) == Success(sc.(tmpCode := Some(sc.tmpCode.value + x)))
    decreases |x|
  {
    if x != [] {
      var prefix := x[..|x| - 1];
      assert forall c :: c in prefix ==> c in x;
      CodeSegment(sc, prefix);
      assert prefix + [x[|x| - 1]] == x;
      assert sc.tmpCode.value + prefix + [x[|x| - 1]] == sc.tmpCode.value + x;
    } else {
      assert sc.tmpCode.value + x == sc.tmpCode.value;
    }
  }

  /** After the `|`, the characters gather in `tmp_coloring`; a further `|` is one of them. */
  lemma {:induction false} KeywordSegment(sc: Scan, abbr: string)
    requires sc.state == KeywordState && sc.tmpColoring.Some?
    requires '{' !in abbr && '}' !in abbr
    ensures Run(sc, abbr) == Success(sc.(tmpColoring := Some(sc.tmpColoring.value + abbr)))
    decreases |abbr|
  {
    if abbr != [] {
      var prefix := abbr[..|abbr| - 1];
      assert forall c :: c in prefix ==> c in abbr;
      KeywordSegment(sc, prefix);
      assert prefix + [abbr[|abbr| - 1]] == abbr;
      assert sc.tmpColoring.value + prefix + [abbr[|abbr| - 1]] == sc.tmpColoring.value + abbr;
    } else {
      assert sc.tmpColoring.value + abbr == sc.tmpColoring.value;
    }
  }

  /**
   * `{x|abbr}` adds `x` to the code and the letter of `abbr`, `len(x)` times, to the
   * colouring.
   */
  lemma BraceSegment(sc: Scan, x: string, abbr: string)
    requires '{' !in x && '}' !in x && '|' !in x
    requires '{' !in abbr && '}' !in abbr
    requires abbr in ABBREVIATION
    ensures Run(sc, "{" + x + "|" + abbr + "}") ==
      Success(Scan(sc.code + x, sc.coloring + Repeat(ABBREVIATION[abbr], |x|), TextState, Some(x), Some(abbr)))
  {
    var s4 := "{" + x + "|" + abbr;
    var named := sc.(state := KeywordState, tmpCode := Some(x), tmpColoring := Some(abbr));
    BraceOpen(sc, x, abbr);
    RunAppend(sc, s4, "}");
    assert "}"[..0] == "";
    assert Run(sc, s4 + "}") == Step(named, '}');
  }

  /** Up to the closing brace, `{x|abbr` holds `x` and `abbr` back and adds nothing yet. */
  lemma BraceOpen(sc: Scan, x: string, abbr: string)
    requires '{' !in x && '}' !in x && '|' !in x
    requires '{' !in abbr && '}' !in abbr
    ensures Run(sc, "{" + x + "|" + abbr) == Success(sc.(state := KeywordState, tmpCode := Some(x), tmpColoring := Some(abbr)))
  {
    var s1 := "{";
    var s2 := s1 + x;
    var s3 := s2 + "|";
    var open := sc.(state := CodeState, tmpCode := Some(""), tmpColoring := Some(""));
    assert Run(sc, s1) == Success(open) by {
      assert "{"[..0] == "";
    }
    var coded := open.(tmpCode := Some(x));
    assert Run(sc, s2) == Success(coded) by {
      RunAppend(sc, s1, x);
      CodeSegment(open, x);
      assert "" + x == x;
    }
    var bar := coded.(state := KeywordState);
    assert Run(sc, s3) == Success(bar) by {
      RunAppend(sc, s2, "|");
      assert "|"[..0] == "";
    }
    RunAppend(sc, s3, abbr);
    KeywordSegment(bar, abbr);
    assert "" + abbr == abbr;
  }

  /** A `}` before any `{` raises UnboundLocalError. */
  lemma CloseBeforeOpen(t: string)
    requires '{' !in t && '}' !in t
    ensures ConvertSpec(t + "}") == Failure(UnboundLocalError)
  {
    TextSegment(START, t);
    RunAppend(START, t, "}");
    assert "}"[..0] == "";
  }

  /** The loop of `convert`. */
  method Convert(markup: string) returns (r: Result<(string, string), Error>)
    ensures r == ConvertSpec(markup)
  {
    var code := "";
    var coloring := "";
    var state := TextState;
    var tmpCode: Option<string> := None;
    var tmpColoring: Option<string> := None;
    var i := 0;
    while i < |markup|
      invariant 0 <= i <= |markup|
      invariant Run(START, markup[..i]) == Success(Scan(code, coloring, state, tmpCode, tmpColoring))
    {
      var ch := markup[i];
      assert markup[..i + 1][..i] == markup[..i];
      if ch == '{' {
        state := CodeState;
        tmpCode := Some("");
        tmpColoring := Some("");
      } else if ch == '}' {
        if tmpCode.None? || tmpColoring.None? {
          RunFails(markup, i + 1);
          return Failure(UnboundLocalError);
        }
        if tmpColoring.value !in ABBREVIATION {
          RunFails(markup, i + 1);
          return Failure(KeyError);
        }
        state := TextState;
        code := code + tmpCode.value;
        coloring := coloring + Repeat(ABBREVIATION[tmpColoring.value], |tmpCode.value|);
      } else if ch == '|' && state == CodeState {
        state := KeywordState;
      } else if state == CodeState {
        tmpCode := Some(tmpCode.GetOr("") + [ch]);
      } else if state == KeywordState {
        tmpColoring := Some(tmpColoring.GetOr("") + [ch]);
      } else if ch == '\n' {
        code := code + "\n";
        coloring := coloring + "\n";
      } else {
        code := code + [ch];
        coloring := coloring + " ";
      }
      i := i + 1;
    }
    assert markup[..i] == markup;
    return Success((code, coloring));
  }

  /** An error on a prefix is the error of the whole markup. */
  lemma {:induction false} RunFails(markup: string, n: nat)
    requires n <= |markup|
    requires Run(START, markup[..n]).Failure?
    ensures ConvertSpec(markup) == Failure(Run(START, markup[..n]).error)
  {
    RunAppend(START, markup[..n], markup[n..]);
    assert markup[..n] + markup[n..] == markup;
  }

  // ---------------------------------------------------------------------------
  // `genInterTest`

  /** `[" ".join(k) for k in lines]` */
  function JoinWords(lines: seq<seq<string>>): (r: seq<string>)
    ensures |r| == |lines|
    ensures forall i :: 0 <= i < |lines| ==> r[i] == Text.Join(" ", lines[i])
  {
    if lines == [] then [] else [Text.Join(" ", lines[0])] + JoinWords(lines[1..])
  }

  /** `[k.split(' ') for k in code.split("\n")]` */
  function Words(code: string): (r: seq<seq<string>>)
    ensures |r| == |Text.Split(code, '\n')|
    ensures forall i :: 0 <= i < |r| ==> r[i] == Text.Split(Text.Split(code, '\n')[i], ' ')
  {
    var lines := Text.Split(code, '\n');
    seq(|lines|, i requires 0 <= i < |lines| => Text.Split(lines[i], ' '))
  }

  /** The words of the first `l` lines. */
  function WordCount(codes: seq<seq<string>>): nat {
    if codes == [] then 0 else WordCount(codes[..|codes| - 1]) + |codes[|codes| - 1]|
  }

  /** Joining the parts before `k` and a prefix of part `k` gives a prefix of the whole join. */
  lemma {:induction false} JoinPrefix(sep: string, ps: seq<string>, k: nat, q: string)
    requires k < |ps|
    requires Text.StartsWith(ps[k], q)
    ensures Text.StartsWith(Text.Join(sep, ps), Text.Join(sep, ps[..k] + [q]))
    decreases k
  {
    var whole := Text.Join(sep, ps);
    if k == 0 {
      assert ps[..0] + [q] == [q];
      if |ps| > 1 {
        assert whole == ps[0] + sep + Text.Join(sep, ps[1..]);
        assert whole[..|ps[0]|] == ps[0];
      }
    } else {
      var tail := ps[1..];
      JoinPrefix(sep, tail, k - 1, q);
      assert (ps[..k] + [q])[1..] == tail[..k - 1] + [q];
      assert (ps[..k] + [q])[0] == ps[0];
      var rest := Text.Join(sep, tail[..k - 1] + [q]);
      assert Text.Join(sep, ps[..k] + [q]) == ps[0] + sep + rest;
      assert whole == ps[0] + sep + Text.Join(sep, tail);
      var longer := Text.Join(sep, tail);
      assert longer[..|rest|] == rest;
      assert whole[..|ps[0] + sep + rest|] == ps[0] + sep + longer[..|rest|];
    }
  }

  /** The text of the case for word `m` of line `l`. */
  function Current(codes: seq<seq<string>>, l: nat, m: nat): string
    requires l < |codes| && m < |codes[l]|
  {
    Text.Join("\n", JoinWords(codes[..l] + [codes[l][..m + 1]]))
  }

  /**
   * The case for word `m` of line `l` ends with the first `m + 1` words of that line; on
   * the first line it is just those words, on a later one it starts with the whole first
   * line and a newline.
   */
  lemma CurrentEnds(codes: seq<seq<string>>, l: nat, m: nat)
    requires l < |codes| && m < |codes[l]|
    ensures l == 0 ==> Current(codes, l, m) == Text.Join(" ", codes[0][..m + 1])
    ensures l > 0 ==> Text.StartsWith(Current(codes, l, m), Text.Join(" ", codes[0]) + "\n")
    ensures Text.EndsWith(Current(codes, l, m), Text.Join(" ", codes[l][..m + 1]))
  {
    var typed := codes[..l] + [codes[l][..m + 1]];
    assert typed[l] == codes[l][..m + 1];
    assert l > 0 ==> typed[0] == codes[0];
    Text.JoinEnds("\n", JoinWords(typed));
  }

  /** Every case typed so far is the start of the code. */
  lemma CurrentIsPrefix(code: string, l: nat, m: nat)
    requires l < |Words(code)| && m < |Words(code)[l]|
    ensures Text.StartsWith(code, Current(Words(code), l, m))
  {
    var codes := Words(code);
    var lines := Text.Split(code, '\n');
    var words := codes[l];
    Text.JoinSplit(lines[l], ' ');
    assert words[..m + 1] == words[..m] + [words[m]];
    assert Text.StartsWith(words[m], words[m]);
    JoinPrefix(" ", words, m, words[m]);
    var line := Text.Join(" ", words[..m + 1]);
    assert Text.StartsWith(lines[l], line);
    Text.JoinSplit(code, '\n');
    JoinPrefix("\n", lines, l, line);
    var joined := JoinWords(codes[..l] + [words[..m + 1]]);
    assert joined == lines[..l] + [line] by {
      forall i | 0 <= i < l
        ensures joined[i] == lines[i]
      {
        Text.JoinSplit(lines[i], ' ');
      }
    }
  }

  /** The cases for the first `m` words of line `l`, in order. */
  function LineCases(codes: seq<seq<string>>, l: nat, m: nat): (r: seq<string>)
    requires l < |codes| && m <= |codes[l]|
    ensures |r| == m
  {
    if m == 0 then [] else LineCases(codes, l, m - 1) + [Current(codes, l, m - 1)]
  }

  /** The cases for every word of the first `lines` lines, line by line. */
  function CasesUpTo(codes: seq<seq<string>>, lines: nat): seq<string>
    requires lines <= |codes|
  {
    if lines == 0 then [] else CasesUpTo(codes, lines - 1) + LineCases(codes, lines - 1, |codes[lines - 1]|)
  }

  /** The expected colouring paired with each case: the same-length start of `expected`. */
  function ExpectedCases(expected: string, c: seq<string>): (r: seq<string>)
    ensures |r| == |c|
  {
    if c == [] then [] else ExpectedCases(expected, c[..|c| - 1]) + [SliceTo(expected, |c[|c| - 1]|)]
  }

  /** Case `k` of line `l` is the code up to and including word `k` of that line. */
  lemma {:induction false} LineCasesAt(codes: seq<seq<string>>, l: nat, m: nat)
    requires l < |codes| && m <= |codes[l]|
    ensures forall k :: 0 <= k < m ==> LineCases(codes, l, m)[k] == Current(codes, l, k)
  {
    if m > 0 {
      LineCasesAt(codes, l, m - 1);
    }
  }

  /** Each expected colouring is the start of `expected` as long as its code case. */
  lemma {:induction false} ExpectedCasesAt(expected: string, c: seq<string>)
    ensures forall n :: 0 <= n < |c| ==> ExpectedCases(expected, c)[n] == SliceTo(expected, |c[n]|)
  {
    if c != [] {
      ExpectedCasesAt(expected, c[..|c| - 1]);
    }
  }

  /** The number of the case for word `m` of line `l`: the words before that line, plus `m`. */
  function Position(codes: seq<seq<string>>, l: nat, m: nat): nat
    requires l <= |codes|
  {
    WordCount(codes[..l]) + m
  }

  /**
   * For each of the first `lines` lines, the case numbered by the words before it plus
   * `m` is the code up to word `m` of that line.
   */
  predicate CasesInOrder(codes: seq<seq<string>>, c: seq<string>, lines: nat)
    requires lines <= |codes|
  {
    forall l, m :: 0 <= l < lines && 0 <= m < |codes[l]| ==>
      Position(codes, l, m) < |c| && c[Position(codes, l, m)] == Current(codes, l, m)
  }

  /** There is one case per word of the first `lines` lines. */
  lemma {:induction false} CasesUpToCount(codes: seq<seq<string>>, lines: nat)
    requires lines <= |codes|
    ensures |CasesUpTo(codes, lines)| == WordCount(codes[..lines])
  {
    if lines > 0 {
      CasesUpToCount(codes, lines - 1);
      assert codes[..lines][..lines - 1] == codes[..lines - 1];
    }
  }

  /** Case number `Position(codes, l, m)` is the code up to word `m` of line `l`. */
  lemma {:induction false} CasesUpToInOrder(codes: seq<seq<string>>, lines: nat)
    requires lines <= |codes|
    ensures CasesInOrder(codes, CasesUpTo(codes, lines), lines)
  {
    if lines > 0 {
      var before := CasesUpTo(codes, lines - 1);
      var line := LineCases(codes, lines - 1, |codes[lines - 1]|);
      CasesUpToInOrder(codes, lines - 1);
      CasesUpToCount(codes, lines - 1);
      LineCasesAt(codes, lines - 1, |codes[lines - 1]|);
      forall l, m | 0 <= l < lines && 0 <= m < |codes[l]|
        ensures Position(codes, l, m) < |before + line| && (before + line)[Position(codes, l, m)] == Current(codes, l, m)
      {
        if l == lines - 1 {
          assert Position(codes, l, m) == |before| + m;
          assert (before + line)[Position(codes, l, m)] == line[m];
        } else {
          assert before[Position(codes, l, m)] == Current(codes, l, m);
        }
      }
    }
  }

  /** Every case is the start of the code. */
  lemma {:induction false} CasesUpToPrefixes(code: string, lines: nat)
    requires lines <= |Words(code)|
    ensures forall n :: 0 <= n < |CasesUpTo(Words(code), lines)| ==> Text.StartsWith(code, CasesUpTo(Words(code), lines)[n])
  {
    var codes := Words(code);
    if lines > 0 {
      CasesUpToPrefixes(code, lines - 1);
      var before := CasesUpTo(codes, lines - 1);
      var line := LineCases(codes, lines - 1, |codes[lines - 1]|);
      LineCasesAt(codes, lines - 1, |codes[lines - 1]|);
      forall n | 0 <= n < |before + line| ensures Text.StartsWith(code, (before + line)[n]) {
        if n >= |before| {
          CurrentIsPrefix(code, lines - 1, n - |before|);
        }
      }
    }
  }

  /** The case for the last word of the last line is the whole code. */
  lemma LastCaseIsCode(code: string)
    ensures var codes := Words(code);
      var l := |codes| - 1;
      |codes| >= 1 && |codes[l]| >= 1 && Current(codes, l, |codes[l]| - 1) == code
  {
    var codes := Words(code);
    var l := |codes| - 1;
    assert codes[l][..|codes[l]|] == codes[l];
    assert codes[..l] + [codes[l]] == codes;
    JoinWordsOfWords(code);
    Text.JoinSplit(code, '\n');
  }

  /** Joining the words of each line again gives the lines. */
  lemma JoinWordsOfWords(code: string)
    ensures JoinWords(Words(code)) == Text.Split(code, '\n')
  {
    var lines := Text.Split(code, '\n');
    var joined := JoinWords(Words(code));
    forall i | 0 <= i < |lines| ensures joined[i] == lines[i] {
      Text.JoinSplit(lines[i], ' ');
    }
  }

  /** The last case is the whole code. */
  lemma LastCase(code: string)
    ensures var c := CasesUpTo(Words(code), |Words(code)|);
      |c| >= 1 && c[|c| - 1] == code
  {
    var codes := Words(code);
    LastCaseIsCode(code);
    var l := |codes| - 1;
    var line := LineCases(codes, l, |codes[l]|);
    LineCasesAt(codes, l, |codes[l]|);
    assert CasesUpTo(codes, |codes|) == CasesUpTo(codes, l) + line;
    assert line[|codes[l]| - 1] == Current(codes, l, |codes[l]| - 1);
  }

  /**
   * `genInterTest(code, expected)`: the line-by-line, word-by-word cases of the code split
   * into lines and words, paired with their expected colourings.
   */
  method GenInterTest(code: string, expected: string) returns (c: seq<string>, e: seq<string>)
    ensures c == CasesUpTo(Words(code), |Words(code)|)
    ensures e == ExpectedCases(expected, c)
  {
    var codes := Words(code);
    c, e := GenCases(codes, expected);
  }

  /** The first `n + 1` elements are the first `n` and then element `n`. */
  lemma TakeNext<T>(s: seq<T>, n: nat)
    requires n < |s|
    ensures s[..n + 1] == s[..n] + [s[n]]
  {
  }

  /** The case for word `m` of line `l` follows those before it. */
  lemma NextCase(codes: seq<seq<string>>, l: nat, m: nat, c: seq<string>)
    requires l < |codes| && m < |codes[l]| && c == CasesUpTo(codes, l) + LineCases(codes, l, m)
    ensures c + [Current(codes, l, m)] == CasesUpTo(codes, l) + LineCases(codes, l, m + 1)
  {
  }

  /** One more case adds its expected colouring at the end. */
  lemma ExpectedNext(expected: string, c: seq<string>, x: string)
    ensures ExpectedCases(expected, c + [x]) == ExpectedCases(expected, c) + [SliceTo(expected, |x|)]
  {
    assert (c + [x])[..|c|] == c;
  }

  /** The two loops of `genInterTest`, over the words `codes` of each line of the code. */
  method GenCases(codes: seq<seq<string>>, expected: string) returns (c: seq<string>, e: seq<string>)
    ensures c == CasesUpTo(codes, |codes|)
    ensures e == ExpectedCases(expected, c)
  {
    c, e := [], [];
    var currentCode: seq<seq<string>> := [];
    var nbLine := 0;
    while nbLine < |codes|
      invariant 0 <= nbLine <= |codes|
      invariant currentCode == codes[..nbLine]
      invariant c == CasesUpTo(codes, nbLine)
      invariant e == ExpectedCases(expected, c)
    {
      var currentLine: seq<string> := [];
      var nbMot := 0;
      while nbMot < |codes[nbLine]|
        invariant 0 <= nbMot <= |codes[nbLine]|
        invariant currentLine == codes[nbLine][..nbMot]
        invariant c == CasesUpTo(codes, nbLine) + LineCases(codes, nbLine, nbMot)
        invariant e == ExpectedCases(expected, c)
      {
        TakeNext(codes[nbLine], nbMot);
        currentLine := currentLine + [codes[nbLine][nbMot]];
        var current := Text.Join("\n", JoinWords(currentCode + [currentLine]));
        assert current == Current(codes, nbLine, nbMot);
        NextCase(codes, nbLine, nbMot, c);
        ExpectedNext(expected, c, current);
        c := c + [current];
        e := e + [SliceTo(expected, |current|)];
        nbMot := nbMot + 1;
      }
      assert currentLine == codes[nbLine];
      assert c == CasesUpTo(codes, nbLine + 1);
      TakeNext(codes, nbLine);
      currentCode := currentCode + [currentLine];
      nbLine := nbLine + 1;
    }
  }

  // ---------------------------------------------------------------------------
  // The argument pairing of `assert_highlighted_chr_multi_line`

  /** The arguments at even positions: the code lines. */
  function Evens(args: seq<string>): (r: seq<string>)
    ensures |r| == (|args| + 1) / 2
    ensures forall i :: 0 <= i < |r| ==> r[i] == args[2 * i]
  {
    if |args| == 0 then [] else if |args| == 1 then [args[0]] else [args[0]] + Evens(args[2..])
  }

  /** The arguments at odd positions: the colourings. */
  function Odds(args: seq<string>): (r: seq<string>)
    ensures |r| == |args| / 2
    ensures forall i :: 0 <= i < |r| ==> r[i] == args[2 * i + 1]
  {
    if |args| < 2 then [] else [args[1]] + Odds(args[2..])
  }

  /**
   * The pairing: an odd number of arguments raises RuntimeError; otherwise the even-indexed
   * lines joined by newlines are the code, and the odd-indexed ones its colouring.
   */
  function MultiLine(args: seq<string>): (r: Result<(string, string), Error>)
    ensures r.Failure? <==> |args| % 2 != 0
    ensures r.Failure? ==> r.error == RuntimeError
  {
    if |args| % 2 != 0 then Failure(RuntimeError)
    else Success((Text.Join("\n", Evens(args)), Text.Join("\n", Odds(args))))
  }

  /**
   * With newline-free lines, line `k` of the code is argument `2k` and line `k` of the
   * colouring is argument `2k + 1`.
   */
  lemma MultiLinePairs(args: seq<string>)
    requires |args| >= 2 && |args| % 2 == 0
    requires forall i :: 0 <= i < |args| ==> '\n' !in args[i]
    ensures Text.Split(MultiLine(args).value.0, '\n') == Evens(args)
    ensures Text.Split(MultiLine(args).value.1, '\n') == Odds(args)
  {
    Text.SplitJoin(Evens(args), '\n');
    Text.SplitJoin(Odds(args), '\n');
  }

  /** Joins of pieces of equal lengths have equal lengths. */
  lemma {:induction false} JoinSameLength(a: seq<string>, b: seq<string>)
    requires |a| == |b|
    requires forall i :: 0 <= i < |a| ==> |a[i]| == |b[i]|
    ensures |Text.Join("\n", a)| == |Text.Join("\n", b)|
    decreases |a|
  {
    if |a| > 1 {
      JoinSameLength(a[1..], b[1..]);
    }
  }

  /** When every code line and its colouring have the same length, so do the two joins. */
  lemma MultiLineSameLength(args: seq<string>)
    requires |args| % 2 == 0
    requires forall k :: 0 <= k < |args| / 2 ==> |args[2 * k]| == |args[2 * k + 1]|
    ensures |MultiLine(args).value.0| == |MultiLine(args).value.1|
  {
    JoinSameLength(Evens(args), Odds(args));
  }
}
