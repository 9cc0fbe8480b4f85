/**
 * The doctor command: a lint pass over the raw path list. A first pass reports
 * every entry equal to an earlier one; a second pass runs the five rules of the
 * problem table on every entry, reports each finding under a header naming the
 * entry, and builds a list of replacement entries; a last line sums up the
 * number of problems. The report is the sequence of lines printed to stdout.
 */
module Doctor {
  import opened Strings
  import opened PathList

  /** The fix functions of the problem table. */
  datatype Rule = NoFix | FixBlankEntry | FixCwd | FixCwdNotLast | FixRelative

  /** What a fix function returns: the replacement entry, whether it found the
      problem, and whether it fixed it. */
  datatype Verdict = Verdict(newDir: string, found: bool, fixed: bool)

  datatype Problem = Problem(category: string, desc: string, fix: Rule)

  predicate IsAbsolute(dir: string) {
    |dir| > 0 && dir[0] == PathSeparator
  }

  /** A fix function applied to the entry `dir` at position `d`; no rule looks at `d`. */
  function ApplyRule(rule: Rule, d: nat, dir: string): (v: Verdict)
    ensures v.newDir == dir || v.newDir == ""
    ensures v.fixed ==> v.found
  {
    match rule
    case NoFix => Verdict(dir, false, false)
    case FixBlankEntry => Verdict("", dir == "", dir == "")
    case FixCwd => Verdict(dir, dir == ".", false)
    case FixCwdNotLast => Verdict(dir, false, false)
    case FixRelative =>
      if dir == "" || dir == "." || IsAbsolute(dir) then Verdict(dir, false, false)
      else Verdict(dir, true, false)
  }

  /** What each rule reports, rule by rule: only the blank-entry rule ever fixes
      anything, and it fixes exactly what it finds. */
  lemma RuleVerdicts(d: nat, dir: string)
    ensures !ApplyRule(NoFix, d, dir).found && !ApplyRule(FixCwdNotLast, d, dir).found
    ensures ApplyRule(FixBlankEntry, d, dir) == Verdict("", dir == "", dir == "")
    ensures ApplyRule(FixCwd, d, dir).found == (dir == ".") && !ApplyRule(FixCwd, d, dir).fixed
    ensures ApplyRule(FixRelative, d, dir).found == (dir != "" && dir != "." && !IsAbsolute(dir))
    ensures !ApplyRule(FixRelative, d, dir).fixed
  {
  }

  const Problems: seq<Problem> := [
    Problem("style", "Duplicate entry.", NoFix),
    Problem("security", "Blank entry (interpreted as current directory).", FixBlankEntry),
    Problem("security", "Current directory in path.", FixCwd),
    Problem("security", "Current directory is not the last path entry.", FixCwdNotLast),
    Problem("security", "Relative directory in path.", FixRelative)
  ]

  const DuplicateMessage := "Duplicate entry in path"

  /** The header line printed before an entry's first finding, naming the entry in brackets. */
  function Header(dir: string): (r: string) {
    "Entry [" + dir + "]"
  }

  /** The line reporting one finding: a star, the category in brackets and the description,
      followed by a "[fixed]" mark when the rule fixed the entry. */
  function FindingLine(p: Problem, v: Verdict): (r: string) {
    "* [" + p.category + "] " + p.desc + (if v.fixed then " [fixed]" else "")
  }

  /* ---------- one entry against the rules ---------- */

  /** The lines of the problems the rules `probs` find in `dir`, in table order. */
  function Findings(probs: seq<Problem>, d: nat, dir: string): (lines: seq<string>)
    ensures |lines| <= |probs|
    decreases |probs|
  {
    if probs == [] then []
    else
      var p := probs[|probs| - 1];
      var v := ApplyRule(p.fix, d, dir);
      Findings(probs[..|probs| - 1], d, dir) + (if v.found then [FindingLine(p, v)] else [])
  }

  /** The entries the rules `probs` append to the new path list for `dir`: the entry
      itself after each rule that did not fix it, the replacement after one that did
      (unless the replacement is blank). */
  function Contribution(probs: seq<Problem>, d: nat, dir: string): (added: seq<string>)
    decreases |probs|
  {
    if probs == [] then []
    else
      var p := probs[|probs| - 1];
      var v := ApplyRule(p.fix, d, dir);
      Contribution(probs[..|probs| - 1], d, dir)
        + (if !v.fixed then [dir] else if v.newDir != "" then [v.newDir] else [])
  }

  /** What the second pass prints for one entry: nothing when no rule finds a problem,
      otherwise one header and then the finding lines. */
  function EntryLines(d: nat, dir: string): (lines: seq<string>) {
    var found := Findings(Problems, d, dir);
    if found == [] then [] else [Header(dir)] + found
  }

  lemma RulesStep(d: nat, dir: string, k: nat)
    requires k < |Problems|
    ensures var v := ApplyRule(Problems[k].fix, d, dir);
      && Findings(Problems[..k + 1], d, dir)
         == Findings(Problems[..k], d, dir) + (if v.found then [FindingLine(Problems[k], v)] else [])
      && Contribution(Problems[..k + 1], d, dir)
         == Contribution(Problems[..k], d, dir)
            + (if !v.fixed then [dir] else if v.newDir != "" then [v.newDir] else [])
  {
    assert Problems[..k + 1][..k] == Problems[..k];
  }

  /** The inner loop of the second pass: every rule in table order, the header
      printed before the first finding only. */
  method DiagnoseEntry(d: nat, dir: string) returns (n: nat, lines: seq<string>, added: seq<string>)
    ensures n == |Findings(Problems, d, dir)|
    ensures lines == EntryLines(d, dir)
    ensures added == Contribution(Problems, d, dir)
  {
    n, lines, added := 0, [], [];
    var header := false;
    for k := 0 to |Problems|
      invariant n == |Findings(Problems[..k], d, dir)|
      invariant header == (Findings(Problems[..k], d, dir) != [])
      invariant lines == if header then [Header(dir)] + Findings(Problems[..k], d, dir) else []
      invariant added == Contribution(Problems[..k], d, dir)
    {
      var problem := Problems[k];
      var v := ApplyRule(problem.fix, d, dir);
      RulesStep(d, dir, k);
      if v.found {
        n := n + 1;
      }
      if v.found && !header {
        lines := lines + [Header(dir)];
        header := true;
      }
      if v.found {
        lines := lines + [FindingLine(problem, v)];
      }
      if !v.fixed {
        added := added + [dir];
      } else if v.newDir != "" {
        added := added + [v.newDir];
      }
    }
    assert Problems[..|Problems|] == Problems;
  }

  /** Exactly one rule reports an entry that is not absolute (the blank-entry rule, the
      current-directory rule or the relative-directory rule, according to its form), and
      none reports an absolute one. */
  lemma OneFindingUnlessAbsolute(d: nat, dir: string)
    ensures |Findings(Problems, d, dir)| == if IsAbsolute(dir) then 0 else 1
  {
    RulesStep(d, dir, 0);
    RulesStep(d, dir, 1);
    RulesStep(d, dir, 2);
    RulesStep(d, dir, 3);
    RulesStep(d, dir, 4);
    assert Problems[..5] == Problems;
  }

  /** The header of an entry is printed at most once, and exactly when a rule finds something. */
  lemma HeaderAtMostOnce(d: nat, dir: string)
    ensures var lines := EntryLines(d, dir);
      (lines != [] <==> !IsAbsolute(dir)) && (lines != [] ==> lines[0] == Header(dir) && |lines| == 2)
  {
    OneFindingUnlessAbsolute(d, dir);
  }

  /** The new path list gets five copies of a non-blank entry and four blank entries for
      a blank one: each of the five rules that does not fix the entry appends it again. */
  lemma ContributionRepeats(d: nat, dir: string)
    ensures Contribution(Problems, d, dir) == if dir == "" then ["", "", "", ""] else [dir, dir, dir, dir, dir]
  {
    RulesStep(d, dir, 0);
    RulesStep(d, dir, 1);
    RulesStep(d, dir, 2);
    RulesStep(d, dir, 3);
    RulesStep(d, dir, 4);
    assert Problems[..5] == Problems;
  }

  /* ---------- the whole list ---------- */

  /** Number of entries equal to an earlier entry (raw strings, not cleaned). */
  function DuplicateCount(s: seq<string>): (r: nat)
    decreases |s|
  {
    if s == [] then 0
    else DuplicateCount(s[..|s| - 1]) + (if s[|s| - 1] in s[..|s| - 1] then 1 else 0)
  }

  /** What the first pass prints: a header and one line for each repeated entry. */
  function DuplicateLines(s: seq<string>): (r: seq<string>)
    decreases |s|
  {
    if s == [] then []
    else
      var dir := s[|s| - 1];
      DuplicateLines(s[..|s| - 1]) + (if dir in s[..|s| - 1] then [Header(dir), "* " + DuplicateMessage] else [])
  }

  /** Number of problems the rules of the second pass find. */
  function RuleCount(s: seq<string>): (r: nat)
    decreases |s|
  {
    if s == [] then 0 else RuleCount(s[..|s| - 1]) + |Findings(Problems, |s| - 1, s[|s| - 1])|
  }

  /** What the second pass prints. */
  function RuleLines(s: seq<string>): (r: seq<string>)
    decreases |s|
  {
    if s == [] then [] else RuleLines(s[..|s| - 1]) + EntryLines(|s| - 1, s[|s| - 1])
  }

  /** The list the second pass builds (and the program never uses). */
  function NewPathList(s: seq<string>): (r: seq<string>)
    decreases |s|
  {
    if s == [] then [] else NewPathList(s[..|s| - 1]) + Contribution(Problems, |s| - 1, s[|s| - 1])
  }

  /** The closing line for a total of `n` problems. */
  function Summary(n: nat): (line: string) {
    if n > 1 then Decimal(n) + " problems found"
    else if n == 1 then "1 problem found"
    else "No problems found :)"
  }

  /** Only a total above one is written as a number, and the number comes first. */
  lemma SummaryShape(n: nat)
    ensures n > 1 <==> |Summary(n)| > 15 && '0' <= Summary(n)[0] <= '9'
  {
  }

  /** The summary tells every total apart: two totals with the same summary are equal. */
  lemma SummaryDeterminesCount(a: nat, b: nat)
    requires Summary(a) == Summary(b)
    ensures a == b
  {
    SummaryShape(a);
    SummaryShape(b);
    if a > 1 && b > 1 {
      var da, db := Decimal(a), Decimal(b);
      assert |da| == |db|;
      assert da == Summary(a)[..|da|] == Summary(b)[..|db|] == db;
      DecimalRoundTrip(a);
      DecimalRoundTrip(b);
    }
  }

  /** The first loop of cmdDoctor: a set of the entries seen so far, and for each entry
      already in it a header and the duplicate line. */
  method DuplicatePass(pathList: seq<string>) returns (nTotal: nat, report: seq<string>)
    ensures nTotal == DuplicateCount(pathList)
    ensures report == DuplicateLines(pathList)
  {
    nTotal := 0;
    report := [];
    var seenDirs: set<string> := {};
    for i := 0 to |pathList|
      invariant nTotal == DuplicateCount(pathList[..i])
      invariant report == DuplicateLines(pathList[..i])
      invariant forall x :: x in seenDirs <==> x in pathList[..i]
    {
      var dir := pathList[i];
      assert pathList[..i + 1][..i] == pathList[..i];
      var problems: seq<string> := [];
      if dir in seenDirs {
        problems := problems + [DuplicateMessage];
      }
      seenDirs := seenDirs + {dir};
      nTotal := nTotal + |problems|;
      if |problems| > 0 {
        report := report + [Header(dir)];
        for j := 0 to |problems|
          invariant report == DuplicateLines(pathList[..i]) + [Header(dir)] + ["* " + DuplicateMessage][..j]
        {
          report := report + ["* " + problems[j]];
        }
      }
    }
    assert pathList[..|pathList|] == pathList;
  }

  /** The second loop of cmdDoctor: every entry against every rule. */
  method RulePass(pathList: seq<string>) returns (nTotal: nat, report: seq<string>, newPathList: seq<string>)
    ensures nTotal == RuleCount(pathList)
    ensures report == RuleLines(pathList)
    ensures newPathList == NewPathList(pathList)
  {
    nTotal, report, newPathList := 0, [], [];
    for d := 0 to |pathList|
      invariant nTotal == RuleCount(pathList[..d])
      invariant report == RuleLines(pathList[..d])
      invariant newPathList == NewPathList(pathList[..d])
    {
      var dir := pathList[d];
      SecondPassStep(pathList, d);
      var n, lines, added := DiagnoseEntry(d, dir);
      nTotal := nTotal + n;
      report := report + lines;
      newPathList := newPathList + added;
    }
    assert pathList[..|pathList|] == pathList;
  }

  /** cmdDoctor on the raw path list: the problem count, the lines printed, and the
      new path list. */
  method RunDoctor(pathList: seq<string>) returns (nTotal: nat, report: seq<string>, newPathList: seq<string>)
    ensures nTotal == DuplicateCount(pathList) + RuleCount(pathList)
    ensures report == DuplicateLines(pathList) + RuleLines(pathList) + [Summary(nTotal)]
    ensures newPathList == NewPathList(pathList)
  {
    var duplicates, firstLines := DuplicatePass(pathList);
    var findings, ruleLines;
    findings, ruleLines, newPathList := RulePass(pathList);
    nTotal := duplicates + findings;
    report := firstLines + ruleLines + [Summary(nTotal)];
  }

  lemma SecondPassStep(s: seq<string>, d: nat)
    requires d < |s|
    ensures RuleCount(s[..d + 1]) == RuleCount(s[..d]) + |Findings(Problems, d, s[d])|
    ensures RuleLines(s[..d + 1]) == RuleLines(s[..d]) + EntryLines(d, s[d])
    ensures NewPathList(s[..d + 1]) == NewPathList(s[..d]) + Contribution(Problems, d, s[d])
  {
    assert s[..d + 1][..d] == s[..d];
  }

  /* ---------- what the count means ---------- */

  /** Number of entries that are not absolute paths (blank, ".", or relative). */
  function NonAbsoluteCount(s: seq<string>): (r: nat)
    decreases |s|
  {
    if s == [] then 0
    else NonAbsoluteCount(s[..|s| - 1]) + (if IsAbsolute(s[|s| - 1]) then 0 else 1)
  }

  /** The duplicate pass counts exactly the entries Dedup would drop. */
  lemma {:induction false} DuplicateCountIsDedupGap(s: seq<string>)
    ensures DuplicateCount(s) == |s| - |Dedup(s)|
    decreases |s|
  {
    if s != [] {
      DuplicateCountIsDedupGap(s[..|s| - 1]);
    }
  }

  lemma {:induction false} RuleCountIsNonAbsoluteCount(s: seq<string>)
    ensures RuleCount(s) == NonAbsoluteCount(s)
    decreases |s|
  {
    if s != [] {
      RuleCountIsNonAbsoluteCount(s[..|s| - 1]);
      OneFindingUnlessAbsolute(|s| - 1, s[|s| - 1]);
    }
  }

  /** The doctor's total: one problem per repeated entry plus one per entry that is
      not an absolute path. */
  lemma DoctorTotal(s: seq<string>)
    ensures DuplicateCount(s) + RuleCount(s) == (|s| - |Dedup(s)|) + NonAbsoluteCount(s)
  {
    DuplicateCountIsDedupGap(s);
    RuleCountIsNonAbsoluteCount(s);
  }

  /** Every entry of the new path list is an entry of the input, and the list is
      five times as long as the input, less one per blank entry. */
  lemma {:induction false} NewPathListShape(s: seq<string>)
    ensures forall x :: x in NewPathList(s) ==> x in s
    ensures |NewPathList(s)| == 5 * |s| - (|s| - NonBlankCount(s))
    decreases |s|
  {
    if s != [] {
      var init := s[..|s| - 1];
      NewPathListShape(init);
      ContributionRepeats(|s| - 1, s[|s| - 1]);
      forall x | x in NewPathList(s)
        ensures x in s
      {
        if x in NewPathList(init) {
          assert x in init;
        }
      }
    }
  }

  function NonBlankCount(s: seq<string>): (r: nat)
    decreases |s|
  {
    if s == [] then 0 else NonBlankCount(s[..|s| - 1]) + (if s[|s| - 1] == "" then 0 else 1)
  }

  /* ---------- the new path list as evidently intended ---------- */

  /** The replacements of the rules of `probs` that fix `dir`, in table order. */
  function FixesOf(probs: seq<Problem>, d: nat, dir: string): (r: seq<string>)
    decreases |probs|
  {
    if probs == [] then []
    else
      var v := ApplyRule(probs[|probs| - 1].fix, d, dir);
      FixesOf(probs[..|probs| - 1], d, dir) + (if v.fixed then [v.newDir] else [])
  }

  /** One net change per entry: dropped when a fix replaces it by the blank entry,
      replaced when exactly one rule fixes it, and otherwise kept once. */
  function NetFix(d: nat, dir: string): (r: seq<string>)
    ensures |r| <= 1
  {
    var fixes := FixesOf(Problems, d, dir);
    if "" in fixes then [] else if |fixes| == 1 then fixes else [dir]
  }

  function FixedPathList(s: seq<string>): (r: seq<string>)
    decreases |s|
  {
    if s == [] then [] else FixedPathList(s[..|s| - 1]) + NetFix(|s| - 1, s[|s| - 1])
  }

  /** The entries of `s` that are not blank, in order. */
  function NonBlank(s: seq<string>): (r: seq<string>)
    decreases |s|
  {
    if s == [] then [] else NonBlank(s[..|s| - 1]) + (if s[|s| - 1] == "" then [] else [s[|s| - 1]])
  }

  lemma FixesStep(d: nat, dir: string, k: nat)
    requires k < |Problems|
    ensures var v := ApplyRule(Problems[k].fix, d, dir);
      FixesOf(Problems[..k + 1], d, dir) == FixesOf(Problems[..k], d, dir) + (if v.fixed then [v.newDir] else [])
  {
    assert Problems[..k + 1][..k] == Problems[..k];
  }

  /** Only the blank-entry rule fixes anything, so the net change drops blank entries
      and keeps every other entry exactly once. */
  lemma NetFixDropsOnlyBlank(d: nat, dir: string)
    ensures NetFix(d, dir) == if dir == "" then [] else [dir]
  {
    FixesOnlyBlank(d, dir, |Problems|);
    assert Problems[..|Problems|] == Problems;
  }

  /** The fixes of the first `k` rules: only the blank-entry rule, the second, fixes anything. */
  lemma {:induction false} FixesOnlyBlank(d: nat, dir: string, k: nat)
    requires k <= |Problems|
    ensures FixesOf(Problems[..k], d, dir) == if k >= 2 && dir == "" then [""] else []
  {
    if k > 0 {
      FixesOnlyBlank(d, dir, k - 1);
      FixesStep(d, dir, k - 1);
    }
  }

  /** The intended new path list is the input without its blank entries: nothing is
      repeated, nothing reordered. */
  lemma {:induction false} FixedPathListIsNonBlank(s: seq<string>)
    ensures FixedPathList(s) == NonBlank(s)
    ensures |FixedPathList(s)| <= |s|
    decreases |s|
  {
    if s != [] {
      FixedPathListIsNonBlank(s[..|s| - 1]);
      NetFixDropsOnlyBlank(|s| - 1, s[|s| - 1]);
    }
  }
}
