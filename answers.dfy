/**
 * confirm: the yes/no question rm asks for each entry. The lines the user
 * types are a sequence of strings, one per prompt (the word fmt.Scanln stores);
 * once the sequence is used up, Scanln leaves the word empty, which counts as no.
 */
module Answers {
  import opened Strings

  datatype Answer = Yes | No | AskAgain

  /** The decision confirm takes on one typed word: trimmed and lower-cased,
      "yes"/"y" is yes, "no"/"n"/"" is no, anything else asks again. */
  function Classify(s: string): (a: Answer)
  {
    var t := Lower(TrimSpace(s));
    if t == "yes" || t == "y" then Yes
    else if t == "no" || t == "n" || t == "" then No
    else AskAgain
  }

  lemma {:induction false} LowerLower(s: string)
    ensures Lower(Lower(s)) == Lower(s)
  {
  }

  lemma {:induction false} TrimLeftLower(s: string)
    ensures TrimLeft(Lower(s)) == Lower(TrimLeft(s))
    decreases |s|
  {
    if s != [] {
      assert Lower(s)[1..] == Lower(s[1..]);
      TrimLeftLower(s[1..]);
    }
  }

  lemma {:induction false} TrimRightLower(s: string)
    ensures TrimRight(Lower(s)) == Lower(TrimRight(s))
    decreases |s|
  {
    if s != [] {
      assert Lower(s)[..|s| - 1] == Lower(s[..|s| - 1]);
      TrimRightLower(s[..|s| - 1]);
    }
  }

  /** Upper or lower case makes no difference to the answer. */
  lemma ClassifyIgnoresCase(s: string)
    ensures Classify(Lower(s)) == Classify(s)
  {
    TrimLeftLower(s);
    TrimRightLower(TrimLeft(s));
    LowerLower(TrimSpace(s));
  }

  /** White space around the word makes no difference to the answer. */
  lemma ClassifyIgnoresSurroundingSpace(pre: string, s: string, post: string)
    requires AllSpace(pre) && AllSpace(post)
    ensures Classify(pre + s + post) == Classify(s)
  {
    TrimSpaceIgnoresSurroundingSpace(pre, s, post);
  }

  /** What confirm returns for the typed words `answers`, and the words left
      unread: the first word that is not "ask again" decides. */
  function Decide(answers: seq<string>): (r: (bool, seq<string>))
    ensures |r.1| <= |answers| && r.1 == answers[|answers| - |r.1|..]
    decreases |answers|
  {
    if answers == [] then (false, [])
    else
      match Classify(answers[0])
      case Yes => (true, answers[1..])
      case No => (false, answers[1..])
      case AskAgain => Decide(answers[1..])
  }

  /** confirm's answer is that of the first decisive word, and reading stops there;
      with no decisive word at all, every word is read and the answer is no. */
  lemma {:induction false} DecideByFirstDecisive(answers: seq<string>, k: nat)
    requires k <= |answers|
    requires forall i :: 0 <= i < k ==> Classify(answers[i]) == AskAgain
    requires k < |answers| ==> Classify(answers[k]) != AskAgain
    ensures k < |answers| ==> Decide(answers) == (Classify(answers[k]) == Yes, answers[k + 1..])
    ensures k == |answers| ==> Decide(answers) == (false, [])
    decreases k
  {
    if k > 0 {
      assert Classify(answers[0]) == AskAgain;
      DecideByFirstDecisive(answers[1..], k - 1);
      if k < |answers| {
        assert answers[1..][k..] == answers[k + 1..];
      }
    }
  }

  method Confirm(answers: seq<string>) returns (yes: bool, rest: seq<string>)
    ensures (yes, rest) == Decide(answers)
  {
    rest := answers;
    while true
      invariant Decide(rest) == Decide(answers)
      decreases |rest|
    {
      var s := "";
      var before := rest;
      if rest != [] {
        s := rest[0];
        rest := rest[1..];
      }
      match Classify(s)
      case Yes =>
        return true, rest;
      case No =>
        return false, rest;
      case AskAgain =>
        assert Classify("") == No;
        assert before != [];
    }
  }
}
