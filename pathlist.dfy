/**
 * The in-memory path-list machinery: splitting the variable's value into raw
 * entries, normalising one entry, cleaning a whole list (normalise every entry,
 * keep the first occurrence of each), and joining a list back into the value
 * that an `export VAR=value` line carries.
 */
module PathList {
  import opened Strings
  import FilePath

  /* ---------- getRawPathList ---------- */

  /** The raw entries of the variable's value `env`, exactly as split at ':'. */
  function RawPathList(env: string): (raw: seq<string>)
    ensures raw != []
    ensures SeparatorFree(raw, ListSeparator)
    ensures JoinWith(raw, ListSeparator) == env
  {
    JoinSplit(env, ListSeparator);
    Split(env, ListSeparator)
  }

  /* ---------- cleanPathEntry ---------- */

  /** What is left of `s` once every trailing '/' is removed. */
  function TrimTrailingSlashes(s: string): (r: string)
    ensures |r| <= |s| && r == s[..|r|]
    ensures r == [] || r[|r| - 1] != PathSeparator
    ensures forall i :: |r| <= i < |s| ==> s[i] == PathSeparator
    decreases |s|
  {
    if s != [] && s[|s| - 1] == PathSeparator then TrimTrailingSlashes(s[..|s| - 1]) else s
  }

  /** The entry cleanPathEntry produces: filepath.Clean, then no trailing '/'.
      Clean only ends in '/' when it returns the root "/", so the result is
      Clean's own result except for the root, which becomes the blank entry. */
  function CleanEntry(dir: string): (r: string)
  {
    TrimTrailingSlashes(FilePath.Clean(dir))
  }

  lemma CleanEntryShape(dir: string)
    ensures var r := CleanEntry(dir);
      && (r == [] || r[|r| - 1] != PathSeparator)
      && (r == "" <==> FilePath.Clean(dir) == [PathSeparator])
      && (r != "" ==> r == FilePath.Clean(dir))
  {
    FilePath.CleanShape(dir);
  }

  method CleanPathEntry(dir0: string) returns (dir: string)
    ensures dir == CleanEntry(dir0)
    ensures dir == [] || dir[|dir| - 1] != PathSeparator
  {
    dir := FilePath.Clean(dir0);
    CleanEntryShape(dir0);
    while |dir| > 0 && dir[|dir| - 1] == PathSeparator
      invariant TrimTrailingSlashes(dir) == CleanEntry(dir0)
    {
      dir := dir[..|dir| - 1];
    }
  }

  lemma CleanEntryEdgeCases()
    ensures CleanEntry("") == "."
    ensures CleanEntry("/") == ""
  {
    FilePath.CleanDot();
    assert FilePath.Resolve([], ["", ""], true) == [];
    assert Split("/", PathSeparator) == ["", ""];
  }

  /** Cleaning an entry twice gives the same as cleaning it once exactly when
      Clean does not reduce it to the root: the root becomes "" and "" becomes ".". */
  lemma CleanEntryIdempotentUnlessRoot(dir: string)
    ensures CleanEntry(CleanEntry(dir)) == CleanEntry(dir) <==> FilePath.Clean(dir) != [PathSeparator]
  {
    if FilePath.Clean(dir) == [PathSeparator] {
      CleanEntryEdgeCases();
    } else {
      FilePath.CleanIdempotent(dir);
      CleanEntryShape(dir);
      CleanEntryShape(CleanEntry(dir));
    }
  }

  /* ---------- cleanPathList ---------- */

  predicate NoDuplicates(s: seq<string>) {
    forall i, j :: 0 <= i < j < |s| ==> s[i] != s[j]
  }

  /** The first occurrence of each string of `s`, in order: what a single left-to-right
      pass with a set of strings already seen keeps. */
  function Dedup(s: seq<string>): (r: seq<string>)
    ensures NoDuplicates(r)
    ensures forall x :: x in r <==> x in s
    ensures |r| <= |s|
    decreases |s|
  {
    if s == [] then []
    else
      var init := Dedup(s[..|s| - 1]);
      if s[|s| - 1] in s[..|s| - 1] then init else init + [s[|s| - 1]]
  }

  /** Dedup keeps the elements in the order of their first occurrence: when r[i]
      comes before r[j], r[i] already occurred before any occurrence of r[j]. */
  lemma {:induction false} DedupFirstOccurrenceOrder(s: seq<string>, i: nat, j: nat, k: nat)
    requires i < j < |Dedup(s)| && k < |s| && s[k] == Dedup(s)[j]
    ensures Dedup(s)[i] in s[..k]
    decreases |s|
  {
    var s' := s[..|s| - 1];
    var r := Dedup(s);
    var r' := Dedup(s');
    assert r[i] == r'[i] && r[i] in r';
    if k < |s'| {
      assert s'[k] == s[k] && s'[..k] == s[..k];
      if j < |r'| {
        DedupFirstOccurrenceOrder(s', i, j, k);
      }
    } else {
      assert s[..k] == s';
      assert r[i] in s';
    }
  }

  /** A list without duplicates is its own Dedup; in particular Dedup is idempotent. */
  lemma {:induction false} DedupOfDistinct(s: seq<string>)
    requires NoDuplicates(s)
    ensures Dedup(s) == s
    decreases |s|
  {
    if s != [] {
      DedupOfDistinct(s[..|s| - 1]);
      assert s[|s| - 1] !in s[..|s| - 1];
      assert s[..|s| - 1] + [s[|s| - 1]] == s;
    }
  }

  /** Every entry cleaned, in order. */
  function MapClean(pathList: seq<string>): (r: seq<string>)
    ensures |r| == |pathList|
    ensures forall i :: 0 <= i < |pathList| ==> r[i] == CleanEntry(pathList[i])
  {
    Map(CleanEntry, pathList)
  }

  /** `f` applied to every element, in order. */
  function Map(f: string -> string, s: seq<string>): (r: seq<string>)
    ensures |r| == |s|
    ensures forall i :: 0 <= i < |s| ==> r[i] == f(s[i])
  {
    seq(|s|, i requires 0 <= i < |s| => f(s[i]))
  }

  /** The value cleanPathList returns. */
  function CleanList(pathList: seq<string>): (r: seq<string>)
  {
    Dedup(MapClean(pathList))
  }

  /** What cleanPathList promises: no duplicates, nothing but cleaned input entries,
      every cleaned input entry present, and never longer than the input. */
  lemma CleanListProperties(pathList: seq<string>)
    ensures var r := CleanList(pathList);
      && NoDuplicates(r)
      && (forall x :: x in r <==> exists i :: 0 <= i < |pathList| && x == CleanEntry(pathList[i]))
      && |r| <= |pathList|
  {
    var m := MapClean(pathList);
    forall x | x in CleanList(pathList)
      ensures exists i :: 0 <= i < |pathList| && x == CleanEntry(pathList[i])
    {
      var i :| 0 <= i < |m| && m[i] == x;
    }
    forall x | exists i :: 0 <= i < |pathList| && x == CleanEntry(pathList[i])
      ensures x in CleanList(pathList)
    {
      var i :| 0 <= i < |pathList| && x == CleanEntry(pathList[i]);
      assert m[i] == x;
    }
  }

  method CleanPathList(pathList: seq<string>) returns (newPathList: seq<string>)
    ensures newPathList == CleanList(pathList)
    ensures NoDuplicates(newPathList)
    ensures forall x :: x in newPathList <==> exists i :: 0 <= i < |pathList| && x == CleanEntry(pathList[i])
    ensures |newPathList| <= |pathList|
  {
    newPathList := [];
    var seen: set<string> := {};
    for i := 0 to |pathList|
      invariant newPathList == Dedup(MapClean(pathList[..i]))
      invariant forall x :: x in seen <==> x in MapClean(pathList[..i])
    {
      var newPath := CleanPathEntry(pathList[i]);
      MapCleanSnoc(pathList, i);
      if newPath !in seen {
        newPathList := newPathList + [newPath];
      }
      seen := seen + {newPath};
    }
    assert pathList[..|pathList|] == pathList;
    CleanListProperties(pathList);
  }

  lemma MapCleanSnoc(pathList: seq<string>, i: nat)
    requires i < |pathList|
    ensures MapClean(pathList[..i + 1]) == MapClean(pathList[..i]) + [CleanEntry(pathList[i])]
  {
    var l := MapClean(pathList[..i + 1]);
    var r := MapClean(pathList[..i]) + [CleanEntry(pathList[i])];
    assert |l| == |r|;
    forall k | 0 <= k < |l| ensures l[k] == r[k] {
      assert pathList[..i + 1][k] == pathList[k];
    }
  }

  /** A cleaned raw list is never empty: even the value "" yields ["."]. */
  lemma CleanRawListNonEmpty(env: string)
    ensures CleanList(RawPathList(env)) != []
  {
    assert MapClean(RawPathList(env))[0] in MapClean(RawPathList(env));
  }

  /* ---------- put-first / put-last ---------- */

  /** The elements of `s` that do not occur in `excl`, in order. */
  function Without(s: seq<string>, excl: seq<string>): (r: seq<string>)
    ensures forall x :: x in r <==> x in s && x !in excl
    decreases |s|
  {
    if s == [] then []
    else Without(s[..|s| - 1], excl) + (if s[|s| - 1] in excl then [] else [s[|s| - 1]])
  }

  lemma {:induction false} WithoutAppend(u: seq<string>, v: seq<string>, excl: seq<string>)
    ensures Without(u + v, excl) == Without(u, excl) + Without(v, excl)
    decreases |v|
  {
    if v == [] {
      assert u + v == u;
    } else {
      var v' := v[..|v| - 1];
      var y := v[|v| - 1];
      var last := if y in excl then [] else [y];
      assert Without(u + v, excl) == Without(u + v', excl) + last by {
        assert (u + v)[..|u + v| - 1] == u + v';
        assert (u + v)[|u + v| - 1] == y;
      }
      WithoutAppend(u, v', excl);
      ConcatAssociative(Without(u, excl), Without(v', excl), last);
    }
  }

  lemma ConcatAssociative(x: seq<string>, y: seq<string>, z: seq<string>)
    ensures (x + y) + z == x + (y + z)
  {
  }

  /** Deduplicating a concatenation: the first part deduplicated, then whatever of
      the second part's first occurrences the first part does not already hold. */
  lemma {:induction false} DedupAppend(a: seq<string>, b: seq<string>)
    ensures Dedup(a + b) == Dedup(a) + Without(Dedup(b), a)
    decreases |b|
  {
    if b == [] {
      assert a + b == a;
    } else {
      var b' := b[..|b| - 1];
      var y := b[|b| - 1];
      var tail := if y in b' then [] else [y];
      var last := if y in a + b' then [] else [y];
      assert Dedup(a + b) == Dedup(a + b') + last by {
        assert a + b == (a + b') + [y];
        DedupSnoc(a + b', y);
      }
      assert Without(Dedup(b), a) == Without(Dedup(b'), a) + last by {
        assert b == b' + [y];
        DedupSnoc(b', y);
        WithoutAppend(Dedup(b'), tail, a);
        WithoutTail(y, b', a);
      }
      DedupAppend(a, b');
      ConcatAssociative(Dedup(a), Without(Dedup(b'), a), last);
    }
  }

  lemma WithoutTail(y: string, b': seq<string>, a: seq<string>)
    ensures Without(if y in b' then [] else [y], a) == if y in a + b' then [] else [y]
  {
    if y !in b' {
      assert [y][..0] == [];
    }
  }

  lemma DedupSnoc(s: seq<string>, y: string)
    ensures Dedup(s + [y]) == Dedup(s) + (if y in s then [] else [y])
  {
    assert (s + [y])[..|s + [y]| - 1] == s;
  }

  /** Cleaning `front + back`, the list put-first and put-last build: the cleaned
      `front` comes first, unchanged, followed by the cleaned entries of `back`
      that `front` does not already contain, in their own order. */
  lemma CleanListOfConcat(front: seq<string>, back: seq<string>)
    ensures CleanList(front + back) == CleanList(front) + Without(CleanList(back), MapClean(front))
  {
    MapCleanAppend(front, back);
    DedupAppend(MapClean(front), MapClean(back));
  }

  lemma MapCleanAppend(front: seq<string>, back: seq<string>)
    ensures MapClean(front + back) == MapClean(front) + MapClean(back)
  {
    MapAppend(CleanEntry, front, back);
  }

  lemma MapAppend(f: string -> string, front: seq<string>, back: seq<string>)
    ensures Map(f, front + back) == Map(f, front) + Map(f, back)
  {
    var l := Map(f, front + back);
    var r := Map(f, front) + Map(f, back);
    forall k | 0 <= k < |l| ensures l[k] == r[k] {
      if k < |front| {
        assert (front + back)[k] == front[k];
      } else {
        assert (front + back)[k] == back[k - |front|];
      }
    }
  }

  /* ---------- quotedPathFromPathList / exportFromPathList ---------- */

  /** The value quotedPathFromPathList builds: each entry appended in turn, with a
      ':' before it only when what has been built so far is non-empty. */
  function Join(pathList: seq<string>): (value: string)
    decreases |pathList|
  {
    if pathList == [] then ""
    else
      var acc := Join(pathList[..|pathList| - 1]);
      (if |acc| > 0 then acc + [ListSeparator] else acc) + pathList[|pathList| - 1]
  }

  /** The list without its leading blank entries. */
  function DropLeadingBlanks(s: seq<string>): (r: seq<string>)
    ensures r == [] || r[0] != ""
    decreases |s|
  {
    if s != [] && s[0] == "" then DropLeadingBlanks(s[1..]) else s
  }

  lemma {:induction false} DropLeadingBlanksSnoc(s: seq<string>, x: string)
    ensures DropLeadingBlanks(s + [x]) ==
      if DropLeadingBlanks(s) == [] then (if x == "" then [] else [x]) else DropLeadingBlanks(s) + [x]
    decreases |s|
  {
    if s == [] {
      assert s + [x] == [x];
      assert [x][1..] == [];
    } else {
      assert (s + [x])[1..] == s[1..] + [x];
      DropLeadingBlanksSnoc(s[1..], x);
    }
  }

  lemma {:induction false} SuffixSeparatorFree(s: seq<string>, k: nat)
    requires k <= |s| && SeparatorFree(s, ListSeparator)
    ensures SeparatorFree(s[k..], ListSeparator)
  {
  }

  /** The joined value is the ':'-join of the list once its leading blank entries
      are dropped: leading blanks vanish, later blanks stay as empty fields. */
  lemma {:induction false} JoinIsJoinWithoutLeadingBlanks(s: seq<string>)
    ensures Join(s) == JoinWith(DropLeadingBlanks(s), ListSeparator)
    decreases |s|
  {
    if s != [] {
      var s' := s[..|s| - 1];
      var x := s[|s| - 1];
      JoinIsJoinWithoutLeadingBlanks(s');
      assert s' + [x] == s;
      DropLeadingBlanksSnoc(s', x);
      var d := DropLeadingBlanks(s');
      if d != [] {
        JoinWithSnoc(d, x, ListSeparator);
        assert |JoinWith(d, ListSeparator)| > 0 by {
          JoinWithHead(d);
        }
      }
    }
  }

  /** The join starts with the first entry. */
  lemma JoinWithHead(d: seq<string>)
    requires d != []
    ensures |JoinWith(d, ListSeparator)| >= |d[0]|
    ensures JoinWith(d, ListSeparator)[..|d[0]|] == d[0]
  {
    if |d| > 1 {
      assert JoinWith(d, ListSeparator) == d[0] + ([ListSeparator] + JoinWith(d[1..], ListSeparator));
    }
  }

  /** Splitting the joined value at ':' gives back the list without its leading
      blank entries (or [""] when nothing else is left), provided no entry
      itself contains ':'. */
  lemma JoinRoundTrip(s: seq<string>)
    requires SeparatorFree(s, ListSeparator)
    ensures var d := DropLeadingBlanks(s);
      Split(Join(s), ListSeparator) == if d == [] then [""] else d
  {
    JoinIsJoinWithoutLeadingBlanks(s);
    var d := DropLeadingBlanks(s);
    if d != [] {
      var k := |s| - |d|;
      DropLeadingBlanksIsSuffix(s);
      SplitJoin(d, ListSeparator);
    }
  }

  /** Joining the raw entries gives back the variable's value exactly when the value
      is empty or does not start with ':'; a leading ':' is a leading blank entry,
      which the join drops. */
  lemma RawJoinRoundTrip(env: string)
    ensures Join(RawPathList(env)) == env <==> env == "" || env[0] != ListSeparator
  {
    var raw := RawPathList(env);
    JoinIsJoinWithoutLeadingBlanks(raw);
    SplitHead(env, ListSeparator);
    if env != "" && env[0] == ListSeparator {
      var d := DropLeadingBlanks(raw);
      if d != [] {
        DropLeadingBlanksIsSuffix(raw);
        SuffixSeparatorFree(raw, |raw| - |d|);
        JoinWithHead(d);
        assert JoinWith(d, ListSeparator)[0] == d[0][0];
        assert d[0][0] in d[0];
      }
    }
  }

  lemma {:induction false} DropLeadingBlanksIsSuffix(s: seq<string>)
    ensures |DropLeadingBlanks(s)| <= |s| && DropLeadingBlanks(s) == s[|s| - |DropLeadingBlanks(s)|..]
    decreases |s|
  {
    if s != [] && s[0] == "" {
      DropLeadingBlanksIsSuffix(s[1..]);
    }
  }

  method QuotedPathFromPathList(pathList: seq<string>) returns (ans: string)
    ensures ans == Join(pathList)
    ensures SeparatorFree(pathList, ListSeparator) ==>
      Split(ans, ListSeparator) == if DropLeadingBlanks(pathList) == [] then [""] else DropLeadingBlanks(pathList)
  {
    ans := "";
    for i := 0 to |pathList|
      invariant ans == Join(pathList[..i])
    {
      assert pathList[..i + 1][..i] == pathList[..i];
      if |ans| > 0 {
        ans := ans + [ListSeparator];
      }
      ans := ans + pathList[i];
    }
    assert pathList[..|pathList|] == pathList;
    if SeparatorFree(pathList, ListSeparator) {
      JoinRoundTrip(pathList);
    }
  }

  /** The shell command `export VAR=value` for the list. */
  method ExportFromPathList(pathVar: string, pathList: seq<string>) returns (line: string)
    ensures line == "export " + pathVar + "=" + Join(pathList)
  {
    var value := QuotedPathFromPathList(pathList);
    line := "export " + pathVar + "=" + value;
  }

  /* ---------- the root entry ---------- */

  /** cleanPathEntry turns the root directory into the blank entry, which a shell
      reads as the current directory; put last in a list, it leaves a trailing ':'. */
  lemma RootBecomesBlank()
    ensures CleanEntry("/") == ""
    ensures CleanList(["/usr/bin", "/"]) == ["/usr/bin", ""]
    ensures Join(CleanList(["/usr/bin", "/"])) == "/usr/bin:"
  {
    CleanEntryEdgeCases();
    CleanListRootExample();
    JoinBlankLast();
  }

  lemma CleanListRootExample()
    ensures CleanList(["/usr/bin", "/"]) == ["/usr/bin", ""]
  {
    MapCleanRootExample();
    DedupSnoc([], "/usr/bin");
    assert [] + ["/usr/bin"] == ["/usr/bin"];
    DedupSnoc(["/usr/bin"], "");
  }

  lemma MapCleanRootExample()
    ensures MapClean(["/usr/bin", "/"]) == ["/usr/bin"] + [""]
  {
    CleanEntryEdgeCases();
    CleanUsrBin();
    var m := MapClean(["/usr/bin", "/"]);
    assert m[0] == "/usr/bin" && m[1] == "";
  }

  lemma JoinBlankLast()
    ensures Join(["/usr/bin", ""]) == "/usr/bin:"
  {
    assert ["/usr/bin", ""][..1] == ["/usr/bin"];
    assert ["/usr/bin"][..0] == [];
    assert Join(["/usr/bin"]) == "/usr/bin";
  }

  lemma CleanUsrBin()
    ensures CleanEntry("/usr/bin") == "/usr/bin"
  {
    assert FilePath.Clean("/usr/bin") == [PathSeparator] + JoinWith(["usr", "bin"], PathSeparator) by {
      SplitUsrBin();
      ResolveUsrBin();
    }
    assert JoinWith(["usr", "bin"], PathSeparator) == "usr/bin";
    CleanEntryShape("/usr/bin");
  }

  lemma SplitUsrBin()
    ensures Split("/usr/bin", PathSeparator) == ["", "usr", "bin"]
  {
    SplitPiece("bin", PathSeparator);
    SplitAfterPiece("usr", PathSeparator, "bin");
    assert "usr/bin" == "usr" + [PathSeparator] + "bin";
    SplitAfterPiece("", PathSeparator, "usr/bin");
    assert "/usr/bin" == "" + [PathSeparator] + "usr/bin";
  }

  lemma ResolveUsrBin()
    ensures FilePath.Resolve([], ["", "usr", "bin"], true) == ["usr", "bin"]
  {
    assert ["", "usr", "bin"][1..] == ["usr", "bin"];
    assert ["usr", "bin"][1..] == ["bin"];
    assert [] + ["usr"] == ["usr"];
    assert ["usr"] + ["bin"] == ["usr", "bin"];
  }

  /** cleanPathEntry as evidently intended: trailing '/' removed, but the root kept. */
  function CleanEntryKeepingRoot(dir: string): (r: string)
  {
    var c := FilePath.Clean(dir);
    if c == [PathSeparator] then c else TrimTrailingSlashes(c)
  }

  /** The corrected entry is never blank, ends in '/' only for the root, and
      cleaning it again changes nothing. */
  lemma CleanEntryKeepingRootProperties(dir: string)
    ensures var r := CleanEntryKeepingRoot(dir);
      && r != ""
      && (r[|r| - 1] == PathSeparator <==> r == [PathSeparator])
      && CleanEntryKeepingRoot(r) == r
  {
    FilePath.CleanShape(dir);
    FilePath.CleanIdempotent(dir);
    var c := FilePath.Clean(dir);
    FilePath.CleanShape(c);
  }
}
