/**
 * Go's filepath.Clean on Unix, the purely lexical path simplification that
 * cleanPathEntry starts from. It follows the rules Go documents:
 *   1. replace multiple separators by one,
 *   2. drop each "." element,
 *   3. drop each inner ".." element together with the element before it,
 *   4. drop ".." elements at the start of a rooted path;
 * the result keeps a leading "/" for a rooted path and is "." when nothing is left.
 * The path is split at '/', the elements are resolved against a stack, and the
 * stack is joined again.
 */
module FilePath {
  import opened Strings

  /** Processes the elements `segs` from left to right on top of `stack`. */
  function Resolve(stack: seq<string>, segs: seq<string>, rooted: bool): (r: seq<string>)
    decreases |segs|
  {
    if segs == [] then stack
    else
      var s := segs[0];
      var next :=
        if s == "" || s == "." then stack
        else if s == ".." then
          if |stack| > 0 && stack[|stack| - 1] != ".." then stack[..|stack| - 1]
          else if rooted then stack
          else stack + [".."]
        else stack + [s];
      Resolve(next, segs[1..], rooted)
  }

  function Clean(p: string): (r: string)
  {
    if p == "" then "."
    else
      var rooted := p[0] == PathSeparator;
      var body := JoinWith(Resolve([], Split(p, PathSeparator), rooted), PathSeparator);
      if rooted then [PathSeparator] + body
      else if body == "" then "." else body
  }

  /** The element stack of a cleaned path: real elements, with ".." only at the
      front, and none at all in a rooted path. */
  ghost predicate Normal(st: seq<string>, rooted: bool) {
    && (forall i :: 0 <= i < |st| ==> st[i] != "" && st[i] != "." && PathSeparator !in st[i])
    && (forall i, j :: 0 <= i < j < |st| && st[j] == ".." ==> st[i] == "..")
    && (rooted ==> forall i :: 0 <= i < |st| ==> st[i] != "..")
  }

  lemma {:induction false} ResolveNormal(stack: seq<string>, segs: seq<string>, rooted: bool)
    requires Normal(stack, rooted)
    requires SeparatorFree(segs, PathSeparator)
    ensures Normal(Resolve(stack, segs, rooted), rooted)
    decreases |segs|
  {
    if segs != [] {
      var s := segs[0];
      var next :=
        if s == "" || s == "." then stack
        else if s == ".." then
          if |stack| > 0 && stack[|stack| - 1] != ".." then stack[..|stack| - 1]
          else if rooted then stack
          else stack + [".."]
        else stack + [s];
      if s == ".." && !(|stack| > 0 && stack[|stack| - 1] != "..") && !rooted {
        assert forall i :: 0 <= i < |stack| ==> stack[i] == "..";
      }
      assert Normal(next, rooted);
      ResolveNormal(next, segs[1..], rooted);
    }
  }

  /** Resolving the rest of an already normal element list changes nothing. */
  lemma {:induction false} ResolveNormalIdentity(stack: seq<string>, rest: seq<string>, rooted: bool)
    requires Normal(stack + rest, rooted)
    ensures Resolve(stack, rest, rooted) == stack + rest
    decreases |rest|
  {
    if rest != [] {
      var all := stack + rest;
      var s := rest[0];
      assert s == all[|stack|];
      if s == ".." {
        assert !rooted;
        assert forall i :: 0 <= i < |stack| ==> stack[i] == all[i] == "..";
      }
      assert stack + [s] + rest[1..] == all;
      ResolveNormalIdentity(stack + [s], rest[1..], rooted);
    }
  }

  /** The elements of a non-empty join of normal elements do not start with '/'. */
  lemma JoinNormalShape(st: seq<string>, rooted: bool)
    requires Normal(st, rooted) && st != []
    ensures var j := JoinWith(st, PathSeparator);
      j != [] && j[0] == st[0][0] && j[|j| - 1] != PathSeparator
  {
    JoinNotEndingInSeparator(st);
  }

  lemma {:induction false} JoinNotEndingInSeparator(st: seq<string>)
    requires st != []
    requires forall i :: 0 <= i < |st| ==> st[i] != "" && PathSeparator !in st[i]
    ensures var j := JoinWith(st, PathSeparator);
      j != [] && j[0] == st[0][0] && j[|j| - 1] != PathSeparator
    decreases |st|
  {
    if |st| > 1 {
      JoinNotEndingInSeparator(st[1..]);
    } else {
      assert st[0][|st[0]| - 1] in st[0];
    }
  }

  /** What Clean returns is never empty, and it ends in '/' only when it is the root. */
  lemma CleanShape(p: string)
    ensures var c := Clean(p);
      c != [] && (c[|c| - 1] == PathSeparator <==> c == [PathSeparator])
  {
    if p != "" {
      var rooted := p[0] == PathSeparator;
      var st := Resolve([], Split(p, PathSeparator), rooted);
      ResolveNormal([], Split(p, PathSeparator), rooted);
      if st != [] {
        JoinNormalShape(st, rooted);
      }
    }
  }

  /** Go promises that Clean is idempotent: cleaning a cleaned path changes nothing. */
  lemma CleanIdempotent(p: string)
    ensures Clean(Clean(p)) == Clean(p)
  {
    if p == "" {
      CleanDot();
    } else {
      var rooted := p[0] == PathSeparator;
      var st := Resolve([], Split(p, PathSeparator), rooted);
      ResolveNormal([], Split(p, PathSeparator), rooted);
      if rooted {
        CleanRooted(st);
      } else if st == [] {
        CleanDot();
      } else {
        CleanRelative(st);
      }
    }
  }

  lemma CleanRooted(st: seq<string>)
    requires Normal(st, true)
    ensures var c := [PathSeparator] + JoinWith(st, PathSeparator); Clean(c) == c
  {
    var body := JoinWith(st, PathSeparator);
    var c := [PathSeparator] + body;
    assert c == [] + [PathSeparator] + body;
    SplitAfterPiece([], PathSeparator, body);
    if st == [] {
      assert Split(c, PathSeparator) == ["", ""];
      assert Resolve([], ["", ""], true) == [];
    } else {
      SplitJoin(st, PathSeparator);
      assert [] + st == st;
      ResolveNormalIdentity([], st, true);
      assert Split(c, PathSeparator) == [""] + st;
      assert Resolve([], [""] + st, true) == Resolve([], st, true);
    }
  }

  lemma CleanRelative(st: seq<string>)
    requires Normal(st, false) && st != []
    ensures var c := JoinWith(st, PathSeparator); Clean(c) == c
  {
    var c := JoinWith(st, PathSeparator);
    JoinNormalShape(st, false);
    SplitJoin(st, PathSeparator);
    assert [] + st == st;
    ResolveNormalIdentity([], st, false);
    assert c[0] == st[0][0] != PathSeparator;
  }

  lemma CleanDot()
    ensures Clean(".") == "."
  {
    SplitPiece(".", PathSeparator);
    assert Resolve([], ["."], false) == Resolve([], [], false) == [];
  }
}
