/**
 * `slash_join` of utils.py: joining path parts with single slashes, skipping parts
 * that are empty or `None`.
 */
module Utils {
  import opened Wrappers
  import Text

  /** `not arg`: `None` and the empty text are skipped. */
  predicate Falsy(arg: Option<string>) {
    arg.None? || arg.value == ""
  }

  /**
   * The list `ret` after the arguments: every argument that is not skipped adds a `/`
   * when the last piece does not end in one, then itself, with its leading slashes
   * stripped unless it is the first piece.
   */
  function Pieces(args: seq<Option<string>>): (ret: seq<string>)
    ensures ret == [] <==> forall i :: 0 <= i < |args| ==> Falsy(args[i])
  {
    if args == [] then []
    else
      var ret := Pieces(args[..|args| - 1]);
      var arg := args[|args| - 1];
      assert forall i :: 0 <= i < |args| - 1 ==> args[..|args| - 1][i] == args[i];
      if Falsy(arg) then ret
      else if ret == [] then [arg.value]
      else if !Text.EndsWith(ret[|ret| - 1], "/") then ret + ["/", Text.LStrip(arg.value, '/')]
      else ret + [Text.LStrip(arg.value, '/')]
  }

  /** One more argument after `args`. */
  lemma PiecesSnoc(args: seq<Option<string>>, arg: Option<string>)
    ensures var ret := Pieces(args);
      Pieces(args + [arg]) ==
        if Falsy(arg) then ret
        else if ret == [] then [arg.value]
        else if !Text.EndsWith(ret[|ret| - 1], "/") then ret + ["/", Text.LStrip(arg.value, '/')]
        else ret + [Text.LStrip(arg.value, '/')]
  {
    var whole := args + [arg];
    assert whole != [] && whole[..|whole| - 1] == args && whole[|whole| - 1] == arg;
  }

  /** `''.join(pieces)` */
  function Concat(pieces: seq<string>): string {
    if pieces == [] then "" else Concat(pieces[..|pieces| - 1]) + pieces[|pieces| - 1]
  }

  /** `slash_join(*args)` */
  method SlashJoin(args: seq<Option<string>>) returns (r: string)
    ensures r == Concat(Pieces(args))
  {
    var ret: seq<string> := [];
    var i := 0;
    while i < |args|
      invariant 0 <= i <= |args|
      invariant ret == Pieces(args[..i])
    {
      var arg := args[i];
      PiecesSnoc(args[..i], arg);
      assert args[..i + 1] == args[..i] + [arg];
      if !Falsy(arg) {
        if ret != [] && !Text.EndsWith(ret[|ret| - 1], "/") {
          ret := ret + ["/"];
        }
        ret := ret + [if ret != [] then Text.LStrip(arg.value, '/') else arg.value];
      }
      i := i + 1;
    }
    assert args[..i] == args;
    r := Concat(ret);
  }

  /** With nothing but skipped arguments the result is empty. */
  lemma SlashJoinNothing(args: seq<Option<string>>)
    requires forall i :: 0 <= i < |args| ==> Falsy(args[i])
    ensures Concat(Pieces(args)) == ""
  {
  }

  /** Skipped arguments around a single part leave it as it is. */
  lemma {:induction false} SlashJoinOne(before: seq<Option<string>>, part: string, after: seq<Option<string>>)
    requires part != ""
    requires forall i :: 0 <= i < |before| ==> Falsy(before[i])
    requires forall i :: 0 <= i < |after| ==> Falsy(after[i])
    ensures Concat(Pieces(before + [Some(part)] + after)) == part
    decreases |after|
  {
    var args := before + [Some(part)] + after;
    if after == [] {
      assert args[..|args| - 1] == before;
      assert Concat([part]) == Concat([]) + part;
    } else {
      var shorter := after[..|after| - 1];
      assert forall i :: 0 <= i < |shorter| ==> shorter[i] == after[i];
      SlashJoinOne(before, part, shorter);
      assert args[..|args| - 1] == before + [Some(part)] + shorter;
    }
  }

  /** Joining one part gives that part. */
  lemma SlashJoinSingle(part: string)
    ensures Concat(Pieces([Some(part)])) == part
  {
    if part != "" {
      SlashJoinOne([], part, []);
      assert [] + [Some(part)] + [] == [Some(part)];
    }
  }

  /** The first piece is the first part that is not skipped, with its slashes kept. */
  lemma {:induction false} SlashJoinStartsWithFirst(args: seq<Option<string>>, k: nat)
    requires k < |args| && !Falsy(args[k])
    requires forall i :: 0 <= i < k ==> Falsy(args[i])
    ensures Pieces(args) != [] && Pieces(args)[0] == args[k].value
  {
    if k < |args| - 1 {
      var prefix := args[..|args| - 1];
      assert forall i :: 0 <= i <= k ==> prefix[i] == args[i];
      SlashJoinStartsWithFirst(prefix, k);
    } else {
      assert forall i :: 0 <= i < |args| - 1 ==> args[..|args| - 1][i] == args[i];
    }
  }

  // ---------------------------------------------------------------------------
  // A part that is nothing but slashes

  /** Two slashes in a row. */
  predicate HasDoubleSlash(s: string) {
    exists i :: 0 <= i < |s| - 1 && s[i] == '/' && s[i + 1] == '/'
  }

  /**
   * As written, a part made only of slashes leaves an empty piece behind, which does not
   * end in `/`, so the next part gets a second slash.
   */
  lemma DoubleSlashAsWritten()
    ensures Concat(Pieces([Some("a/"), Some("/"), Some("b")])) == "a//b"
    ensures !HasDoubleSlash("a/") && !HasDoubleSlash("/") && !HasDoubleSlash("b")
    ensures HasDoubleSlash("a//b")
  {
    var args := [Some("a/"), Some("/"), Some("b")];
    assert args[..1] == [Some("a/")];
    assert args[..2] == [Some("a/"), Some("/")];
    assert [Some("a/")][..0] == [];
    assert Pieces([Some("a/")]) == ["a/"];
    assert Text.EndsWith("a/", "/");
    assert Text.LStrip("/", '/') == "";
    assert Pieces(args[..2]) == ["a/", ""];
    assert !Text.EndsWith("", "/");
    assert Text.LStrip("b", '/') == "b";
    var ret := ["a/", "", "/", "b"];
    assert Pieces(args) == ret;
    assert Concat(["a/"]) == "a/" by {
      assert ["a/"][..0] == [];
    }
    assert Concat(["a/", ""]) == "a/" by {
      assert ["a/", ""][..1] == ["a/"];
    }
    assert Concat(["a/", "", "/"]) == "a//" by {
      assert ["a/", "", "/"][..2] == ["a/", ""];
    }
    assert ret[..3] == ["a/", "", "/"];
    assert Concat(ret) == "a//b";
    assert "a//b"[1] == '/' && "a//b"[2] == '/';
  }

  /**
   * `slash_join` as evidently intended: the slash goes in when the text joined so far
   * does not already end in one.
   */
  function SlashJoined(args: seq<Option<string>>): (r: string)
    ensures r == "" <==> forall i :: 0 <= i < |args| ==> Falsy(args[i])
  {
    if args == [] then ""
    else
      var acc := SlashJoined(args[..|args| - 1]);
      var arg := args[|args| - 1];
      assert forall i :: 0 <= i < |args| - 1 ==> args[..|args| - 1][i] == args[i];
      if Falsy(arg) then acc
      else if acc == "" then arg.value
      else if !Text.EndsWith(acc, "/") then acc + "/" + Text.LStrip(arg.value, '/')
      else acc + Text.LStrip(arg.value, '/')
  }

  /** With the intended rule, parts free of double slashes give a result free of them. */
  lemma {:induction false} SlashJoinedNoDoubleSlash(args: seq<Option<string>>)
    requires forall i :: 0 <= i < |args| ==> !Falsy(args[i]) ==> !HasDoubleSlash(args[i].value)
    ensures !HasDoubleSlash(SlashJoined(args))
  {
    if args != [] {
      var prefix := args[..|args| - 1];
      assert forall i :: 0 <= i < |prefix| ==> prefix[i] == args[i];
      SlashJoinedNoDoubleSlash(prefix);
    }
  }
}
