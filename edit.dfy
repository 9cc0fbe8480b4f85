/**
 * The commands that change the variable: put-first, put-last and rm. None of
 * them can change the calling shell's environment itself; each cleans the new
 * list and hands the line `export VAR=value` to the shell wrapper through file
 * descriptor 3, which must be a pipe. Whether it is one is the parameter
 * `fd3IsPipe`; `pathVar` is the variable's name and `env` its current value.
 */
module Edit {
  import opened Strings
  import opened PathList
  import Answers

  datatype Outcome =
    | Published(line: string)   // the one line written to fd 3
    | Fatal(message: string)    // log.Fatal: the message on stderr, exit status 1
    | PathIsEmpty               // rm's notice on stderr when there is nothing to ask about

  const NotAPipe := "fd 3 is not a pipe"

  /** setCleanPathList: the fd 3 check comes first, so nothing is computed or
      written unless fd 3 is a pipe; then the list is cleaned and exported. */
  method SetCleanPathList(pathVar: string, pathList: seq<string>, fd3IsPipe: bool) returns (out: Outcome)
    ensures !fd3IsPipe ==> out == Fatal(NotAPipe)
    ensures fd3IsPipe ==> out == Published("export " + pathVar + "=" + Join(CleanList(pathList)))
  {
    if !fd3IsPipe {
      return Fatal(NotAPipe);
    }
    var cleaned := CleanPathList(pathList);
    var line := ExportFromPathList(pathVar, cleaned);
    out := Published(line);
  }

  /** put-first: the cleaned arguments come first, followed by the cleaned
      current entries they do not already name, in their current order. */
  method PutFirst(pathVar: string, env: string, args: seq<string>, fd3IsPipe: bool) returns (out: Outcome)
    ensures !fd3IsPipe ==> out == Fatal(NotAPipe)
    ensures fd3IsPipe ==> out == Published("export " + pathVar + "=" +
      Join(CleanList(args) + Without(CleanList(RawPathList(env)), MapClean(args))))
  {
    var raw := RawPathList(env);
    out := SetCleanPathList(pathVar, args + raw, fd3IsPipe);
    CleanListOfConcat(args, raw);
  }

  /** put-last: the cleaned current list stays as it is, entries it already
      holds keep their place, and only the cleaned arguments it lacks are added
      at the end. */
  method PutLast(pathVar: string, env: string, args: seq<string>, fd3IsPipe: bool) returns (out: Outcome)
    ensures !fd3IsPipe ==> out == Fatal(NotAPipe)
    ensures fd3IsPipe ==> out == Published("export " + pathVar + "=" +
      Join(CleanList(RawPathList(env)) + Without(CleanList(args), MapClean(RawPathList(env)))))
  {
    var raw := RawPathList(env);
    out := SetCleanPathList(pathVar, raw + args, fd3IsPipe);
    CleanListOfConcat(raw, args);
  }

  /** The entries rm keeps from the clean list `dirs`, and the typed words left
      unread. An entry is asked about only when `keyMatches` holds of it (the
      regular-expression filter of the command line), and removed only when
      the user confirms. */
  function RmPass(dirs: seq<string>, keyMatches: string -> bool, answers: seq<string>): (r: (seq<string>, seq<string>))
    ensures |r.0| <= |dirs|
    ensures |r.1| <= |answers| && r.1 == answers[|answers| - |r.1|..]
    decreases |dirs|
  {
    if dirs == [] then ([], answers)
    else
      var asked := if keyMatches(dirs[0]) then Answers.Decide(answers) else (false, answers);
      var next := RmPass(dirs[1..], keyMatches, asked.1);
      SuffixOfSuffix(answers, asked.1, next.1);
      (if asked.0 then next.0 else [dirs[0]] + next.0, next.1)
  }

  /** A suffix of a suffix is a suffix. */
  lemma SuffixOfSuffix(a: seq<string>, b: seq<string>, c: seq<string>)
    requires |b| <= |a| && b == a[|a| - |b|..]
    requires |c| <= |b| && c == b[|b| - |c|..]
    ensures c == a[|a| - |c|..]
  {
  }

  /** One step of the pass: the first remaining entry is asked about when the
      filter selects it, and kept unless the answer is yes. */
  lemma RmPassStep(dirs: seq<string>, i: nat, keyMatches: string -> bool, answers: seq<string>)
    requires i < |dirs|
    ensures var asked := if keyMatches(dirs[i]) then Answers.Decide(answers) else (false, answers);
      var next := RmPass(dirs[i + 1..], keyMatches, asked.1);
      RmPass(dirs[i..], keyMatches, answers) == (if asked.0 then next.0 else [dirs[i]] + next.0, next.1)
  {
    assert dirs[i..][1..] == dirs[i + 1..];
  }

  /** rm keeps only entries of the list, and every entry the filter does not
      select is kept whatever the answers. */
  lemma {:induction false} RmPassMembers(dirs: seq<string>, keyMatches: string -> bool, answers: seq<string>, x: string)
    ensures x in RmPass(dirs, keyMatches, answers).0 ==> x in dirs
    ensures x in dirs && !keyMatches(x) ==> x in RmPass(dirs, keyMatches, answers).0
    decreases |dirs|
  {
    if dirs != [] {
      var asked := if keyMatches(dirs[0]) then Answers.Decide(answers) else (false, answers);
      RmPassMembers(dirs[1..], keyMatches, asked.1, x);
      assert x in dirs ==> x == dirs[0] || x in dirs[1..];
    }
  }

  /** rm never introduces a duplicate: what it keeps of a clean list is still clean. */
  lemma {:induction false} RmPassNoDuplicates(dirs: seq<string>, keyMatches: string -> bool, answers: seq<string>)
    requires NoDuplicates(dirs)
    ensures NoDuplicates(RmPass(dirs, keyMatches, answers).0)
    decreases |dirs|
  {
    if dirs != [] {
      var asked := if keyMatches(dirs[0]) then Answers.Decide(answers) else (false, answers);
      RmPassNoDuplicates(dirs[1..], keyMatches, asked.1);
      var next := RmPass(dirs[1..], keyMatches, asked.1).0;
      if !asked.0 {
        assert dirs[0] !in next by {
          assert dirs[0] !in dirs[1..];
          RmPassMembers(dirs[1..], keyMatches, asked.1, dirs[0]);
        }
        ConsNoDuplicates(dirs[0], next);
      }
    }
  }

  lemma ConsNoDuplicates(x: string, s: seq<string>)
    requires NoDuplicates(s) && x !in s
    ensures NoDuplicates([x] + s)
  {
    var r := [x] + s;
    forall i, j | 0 <= i < j < |r|
      ensures r[i] != r[j]
    {
      if i == 0 {
        assert r[j] == s[j - 1];
      } else {
        assert r[i] == s[i - 1] && r[j] == s[j - 1];
      }
    }
  }

  /** Without a single "yes" among the typed words, rm keeps every entry. */
  lemma {:induction false} RmPassDefaultKeeps(dirs: seq<string>, keyMatches: string -> bool, answers: seq<string>)
    requires forall i :: 0 <= i < |answers| ==> Answers.Classify(answers[i]) != Answers.Yes
    ensures RmPass(dirs, keyMatches, answers).0 == dirs
    decreases |dirs|
  {
    if dirs != [] {
      var asked := if keyMatches(dirs[0]) then Answers.Decide(answers) else (false, answers);
      if keyMatches(dirs[0]) {
        DecideNeverYes(answers);
      }
      RmPassDefaultKeeps(dirs[1..], keyMatches, asked.1);
      assert dirs == [dirs[0]] + dirs[1..];
    }
  }

  /** The entries the filter does not select, in order. */
  function Unselected(dirs: seq<string>, keyMatches: string -> bool): (r: seq<string>)
    ensures forall x :: x in r <==> x in dirs && !keyMatches(x)
    decreases |dirs|
  {
    if dirs == [] then []
    else (if keyMatches(dirs[0]) then [] else [dirs[0]]) + Unselected(dirs[1..], keyMatches)
  }

  /** Answering yes at every prompt removes every selected entry and keeps the others
      in their order. */
  lemma {:induction false} RmPassAllYes(dirs: seq<string>, keyMatches: string -> bool, answers: seq<string>)
    requires |answers| >= |dirs|
    requires forall i :: 0 <= i < |answers| ==> Answers.Classify(answers[i]) == Answers.Yes
    ensures RmPass(dirs, keyMatches, answers).0 == Unselected(dirs, keyMatches)
    decreases |dirs|
  {
    if dirs != [] {
      assert Answers.Classify(answers[0]) == Answers.Yes;
      var rest := if keyMatches(dirs[0]) then answers[1..] else answers;
      RmPassAllYes(dirs[1..], keyMatches, rest);
    }
  }

  /** `a` is `b` with some elements left out and the others in their order. */
  predicate SubsequenceOf(a: seq<string>, b: seq<string>)
    decreases |b|
  {
    if a == [] then true
    else if b == [] then false
    else (a[0] == b[0] && SubsequenceOf(a[1..], b[1..])) || SubsequenceOf(a, b[1..])
  }

  /** rm keeps the entries it keeps in their order in the list. */
  lemma {:induction false} RmPassOrder(dirs: seq<string>, keyMatches: string -> bool, answers: seq<string>)
    ensures SubsequenceOf(RmPass(dirs, keyMatches, answers).0, dirs)
    decreases |dirs|
  {
    if dirs != [] {
      var asked := if keyMatches(dirs[0]) then Answers.Decide(answers) else (false, answers);
      RmPassOrder(dirs[1..], keyMatches, asked.1);
      var next := RmPass(dirs[1..], keyMatches, asked.1).0;
      if !asked.0 {
        assert ([dirs[0]] + next)[1..] == next;
      }
    }
  }

  /** In a list without duplicates, rm removes an entry exactly when the filter selects
      it and the answer it reads for it, from the words the earlier entries left
      unread, is yes. */
  lemma {:induction false} RmPassRemoves(dirs: seq<string>, i: nat, keyMatches: string -> bool, answers: seq<string>)
    requires NoDuplicates(dirs) && i < |dirs|
    ensures dirs[i] !in RmPass(dirs, keyMatches, answers).0
      <==> keyMatches(dirs[i]) && Answers.Decide(RmPass(dirs[..i], keyMatches, answers).1).0
    decreases i
  {
    var asked := if keyMatches(dirs[0]) then Answers.Decide(answers) else (false, answers);
    var next := RmPass(dirs[1..], keyMatches, asked.1);
    assert RmPass(dirs, keyMatches, answers) == (if asked.0 then next.0 else [dirs[0]] + next.0, next.1);
    if i == 0 {
      assert dirs[0] !in next.0 by {
        assert dirs[0] !in dirs[1..];
        RmPassMembers(dirs[1..], keyMatches, asked.1, dirs[0]);
      }
    } else {
      assert RmPass(dirs[..i], keyMatches, answers).1 == RmPass(dirs[1..][..i - 1], keyMatches, asked.1).1 by {
        assert dirs[..i][0] == dirs[0] && dirs[..i][1..] == dirs[1..][..i - 1];
      }
      assert NoDuplicates(dirs[1..]) && dirs[1..][i - 1] == dirs[i];
      RmPassRemoves(dirs[1..], i - 1, keyMatches, asked.1);
      assert dirs[i] != dirs[0];
    }
  }

  lemma {:induction false} DecideNeverYes(answers: seq<string>)
    requires forall i :: 0 <= i < |answers| ==> Answers.Classify(answers[i]) != Answers.Yes
    ensures !Answers.Decide(answers).0
    decreases |answers|
  {
    if answers != [] {
      DecideNeverYes(answers[1..]);
    }
  }

  /** rm: goes through the clean list `dirs` in order, asks about each entry the
      filter selects, and publishes the cleaned list of the entries kept. */
  method Rm(pathVar: string, dirs: seq<string>, keyMatches: string -> bool, answers: seq<string>, fd3IsPipe: bool)
    returns (out: Outcome, rest: seq<string>)
    ensures rest == RmPass(dirs, keyMatches, answers).1
    ensures dirs == [] ==> out == PathIsEmpty
    ensures dirs != [] && !fd3IsPipe ==> out == Fatal(NotAPipe)
    ensures dirs != [] && fd3IsPipe ==>
      out == Published("export " + pathVar + "=" + Join(CleanList(RmPass(dirs, keyMatches, answers).0)))
  {
    var newPathList: seq<string> := [];
    var hadAny := false;
    rest := answers;
    ghost var target := RmPass(dirs, keyMatches, answers);
    assert dirs[0..] == dirs;
    for i := 0 to |dirs|
      invariant hadAny == (i > 0)
      invariant newPathList + RmPass(dirs[i..], keyMatches, rest).0 == target.0
      invariant RmPass(dirs[i..], keyMatches, rest).1 == target.1
    {
      if !hadAny {
        hadAny := true;
      }
      var dir := dirs[i];
      var rm := false;
      ghost var before := rest;
      if keyMatches(dir) {
        rm, rest := Answers.Confirm(rest);
      }
      RmLoopStep(dirs, i, keyMatches, before, rm, rest, newPathList, target);
      if !rm {
        newPathList := newPathList + [dir];
      }
    }
    assert dirs[|dirs|..] == [];
    assert newPathList == target.0;
    if hadAny {
      out := SetCleanPathList(pathVar, newPathList, fd3IsPipe);
    } else {
      out := PathIsEmpty;
    }
  }

  /** One turn of rm's loop keeps its invariant: the entries kept so far followed by
      what the rest of the pass keeps are what the whole pass keeps. */
  lemma RmLoopStep(dirs: seq<string>, i: nat, keyMatches: string -> bool, before: seq<string>,
                   rm: bool, rest: seq<string>, kept: seq<string>, target: (seq<string>, seq<string>))
    requires i < |dirs|
    requires (rm, rest) == if keyMatches(dirs[i]) then Answers.Decide(before) else (false, before)
    requires kept + RmPass(dirs[i..], keyMatches, before).0 == target.0
    requires RmPass(dirs[i..], keyMatches, before).1 == target.1
    ensures (if rm then kept else kept + [dirs[i]]) + RmPass(dirs[i + 1..], keyMatches, rest).0 == target.0
    ensures RmPass(dirs[i + 1..], keyMatches, rest).1 == target.1
  {
    var next := RmPass(dirs[i + 1..], keyMatches, rest);
    assert RmPass(dirs[i..], keyMatches, before) == (if rm then next.0 else [dirs[i]] + next.0, next.1) by {
      RmPassStep(dirs, i, keyMatches, before);
    }
    if !rm {
      ConcatAssociative(kept, [dirs[i]], next.0);
    }
  }

  /** Re-cleaning the entries rm keeps changes nothing as long as each is its own
      cleaned form, which every entry of a clean list is unless it came from the
      root directory (see CleanEntryIdempotentUnlessRoot). */
  lemma CleanListOfStableEntries(kept: seq<string>)
    requires NoDuplicates(kept)
    requires forall i :: 0 <= i < |kept| ==> CleanEntry(kept[i]) == kept[i]
    ensures CleanList(kept) == kept
  {
    assert MapClean(kept) == kept;
    DedupOfDistinct(kept);
  }
}
