/**
 * The offline scorer's finding loop (eval/momus/evaluate.py:692-758) and the duplicate rules of its
 * adjudications (eval/momus/evaluate.py:544-574).
 */
module Scorer {

  /** `evidence`: the finding quotes something. */
  datatype Finding = Finding(file: string, line: nat, dimension: string, evidence: bool)

  datatype Issue = Issue(file: string, dimension: string, startLine: nat, endLine: nat)

  datatype Verdict =
    | Matched(issue: string)
    | Duplicate(issue: string, of: nat)
    | Unrelated
    | Advisory
    | Unsupported

  datatype Judgment = Judgment(verdict: Verdict, sourceCorrect: bool)

  /** `reviewed`: the run of the case is complete, on a validated annotation, apart from its adjudication. */
  datatype Case = Case(findings: seq<Finding>, issues: map<string, Issue>, judgments: map<nat, Judgment>,
                       reviewed: bool)

  predicate NamesIssue(v: Verdict) { v.Matched? || v.Duplicate? }

  /** What `validate_adjudications` admits. */
  predicate IsJudgment(c: Case, index: nat)
    requires index in c.judgments
  {
    var j := c.judgments[index];
    && index < |c.findings|
    && (NamesIssue(j.verdict) ==> j.verdict.issue in c.issues)
    && (NamesIssue(j.verdict) || j.verdict.Advisory? ==> j.sourceCorrect)
    && (j.verdict.Duplicate? ==>
          && j.verdict.of < index && j.verdict.of in c.judgments
          && c.judgments[j.verdict.of].verdict == Matched(j.verdict.issue))
  }

  predicate IsCase(c: Case) { forall index :: index in c.judgments ==> IsJudgment(c, index) }

  // ----- what each finding is -----

  predicate Complete(c: Case) { c.reviewed && |c.judgments| == |c.findings| }

  predicate Located(f: Finding, issue: Issue) {
    f.file == issue.file && f.dimension == issue.dimension && issue.startLine <= f.line <= issue.endLine
  }

  /** A match at the issue's place, with evidence, judged correct against the source. */
  predicate IsSupported(c: Case, k: nat)
    requires IsCase(c) && k in c.judgments && NamesIssue(c.judgments[k].verdict)
  {
    assert IsJudgment(c, k);
    var j := c.judgments[k];
    Located(c.findings[k], c.issues[j.verdict.issue]) && c.findings[k].evidence && j.sourceCorrect
  }

  /** A supported match, or a supported duplicate of one. */
  predicate IsValid(c: Case, k: nat)
    requires IsCase(c)
  {
    && k in c.judgments && NamesIssue(c.judgments[k].verdict) && IsSupported(c, k)
    && (c.judgments[k].verdict.Duplicate? ==>
          assert IsJudgment(c, k);
          IsSupported(c, c.judgments[k].verdict.of))
  }

  predicate Names(c: Case, k: nat, issue: string) {
    k in c.judgments && NamesIssue(c.judgments[k].verdict) && c.judgments[k].verdict.issue == issue
  }

  datatype Role = Credited | Withheld | Duplicated | FalseAlarm | Advised | Unadjudicated

  /** The place of finding `k`, from the judgments alone. */
  ghost function RoleOf(c: Case, k: nat): Role
    requires IsCase(c) && k < |c.findings|
  {
    if k !in c.judgments then Unadjudicated
    else
      var v := c.judgments[k].verdict;
      if v.Advisory? then Advised
      else if !IsValid(c, k) then FalseAlarm
      else if v.Duplicate? || exists j :: 0 <= j < k && IsValid(c, j) && Names(c, j, v.issue) then Duplicated
      else if Complete(c) then Credited
      else Withheld
  }

  // ----- the loop -----

  datatype Tally = Tally(caught: set<string>, duplicates: seq<nat>, alarms: seq<nat>, advisories: seq<nat>,
                         invalid: seq<nat>, withheld: seq<nat>)

  /** The findings before `k` with a role, in order. */
  ghost function With(c: Case, role: Role, k: nat): seq<nat>
    requires IsCase(c) && k <= |c.findings|
  {
    if k == 0 then [] else With(c, role, k - 1) + if RoleOf(c, k - 1) == role then [k - 1] else []
  }

  /** The issues named by the credited findings before `k`. */
  ghost function CaughtBefore(c: Case, k: nat): set<string>
    requires IsCase(c) && k <= |c.findings|
  {
    if k == 0 then {}
    else if RoleOf(c, k - 1).Credited? then CaughtBefore(c, k - 1) + {c.judgments[k - 1].verdict.issue}
    else CaughtBefore(c, k - 1)
  }

  lemma {:induction false} CaughtIs(c: Case, k: nat, x: string)
    requires IsCase(c) && k <= |c.findings|
    ensures x in CaughtBefore(c, k) <==> exists i :: 0 <= i < k && RoleOf(c, i).Credited? && Names(c, i, x)
  {
    if k > 0 {
      CaughtIs(c, k - 1, x);
      assert RoleOf(c, k - 1).Credited? ==> (Names(c, k - 1, x) <==> c.judgments[k - 1].verdict.issue == x);
      hide RoleOf, Names;
    }
  }

  /** False alarms that were claimed as matches. */
  ghost function InvalidBefore(c: Case, k: nat): seq<nat>
    requires IsCase(c) && k <= |c.findings|
  {
    if k == 0 then []
    else
      InvalidBefore(c, k - 1)
      + if RoleOf(c, k - 1).FalseAlarm? && NamesIssue(c.judgments[k - 1].verdict) then [k - 1] else []
  }

  ghost predicate Tallies(c: Case, k: nat, t: Tally)
    requires IsCase(c) && k <= |c.findings|
  {
    && t.caught == CaughtBefore(c, k) && t.duplicates == With(c, Duplicated, k)
    && t.alarms == With(c, FalseAlarm, k) && t.advisories == With(c, Advised, k)
    && t.invalid == InvalidBefore(c, k) && t.withheld == With(c, Withheld, k)
  }

  /** A finding added to the tally of its role. */
  function Counted(t: Tally, role: Role, k: nat, issue: string, claimed: bool): Tally {
    match role
    case Credited => t.(caught := t.caught + {issue})
    case Withheld => t.(withheld := t.withheld + [k])
    case Duplicated => t.(duplicates := t.duplicates + [k])
    case FalseAlarm => t.(alarms := t.alarms + [k], invalid := if claimed then t.invalid + [k] else t.invalid)
    case Advised => t.(advisories := t.advisories + [k])
    case Unadjudicated => t
  }

  function IssueAt(c: Case, k: nat): string {
    if k in c.judgments && NamesIssue(c.judgments[k].verdict) then c.judgments[k].verdict.issue else ""
  }

  predicate Claims(c: Case, k: nat) { k in c.judgments && NamesIssue(c.judgments[k].verdict) }

  lemma TalliesMore(c: Case, k: nat, t: Tally)
    requires IsCase(c) && k < |c.findings| && Tallies(c, k, t)
    ensures Tallies(c, k + 1, Counted(t, RoleOf(c, k), k, IssueAt(c, k), Claims(c, k)))
  {
    var role := RoleOf(c, k);
    assert role.Credited? ==> Claims(c, k);
    assert role.FalseAlarm? ==> k in c.judgments;
    hide RoleOf;
  }

  ghost predicate Remembers(c: Case, k: nat, supported: set<string>, valid: set<nat>)
    requires IsCase(c)
  {
    && (forall i :: i in valid <==> 0 <= i < k && IsValid(c, i))
    && (forall x :: x in supported <==> exists i :: 0 <= i < k && IsValid(c, i) && Names(c, i, x))
  }

  /** What the loop decides from what it remembers is the finding's role. */
  lemma RoleIs(c: Case, k: nat, supported: set<string>, valid: set<nat>)
    requires IsCase(c) && k < |c.findings| && Remembers(c, k, supported, valid)
    ensures k !in c.judgments ==> RoleOf(c, k).Unadjudicated?
    ensures k in c.judgments && !NamesIssue(c.judgments[k].verdict) ==>
      RoleOf(c, k) == if c.judgments[k].verdict.Advisory? then Advised else FalseAlarm
    ensures Claims(c, k) ==>
      var v := c.judgments[k].verdict;
      RoleOf(c, k) ==
        if !IsSupported(c, k) || (v.Duplicate? && v.of !in valid) then FalseAlarm
        else if v.Duplicate? || v.issue in supported then Duplicated
        else if Complete(c) then Credited else Withheld
  {
    if Claims(c, k) {
      assert IsJudgment(c, k);
      var v := c.judgments[k].verdict;
      if v.Duplicate? { assert IsValid(c, v.of) <==> IsSupported(c, v.of); }
      hide IsSupported, Names, IsJudgment, IsCase;
    }
  }

  lemma RemembersMore(c: Case, k: nat, supported: set<string>, valid: set<nat>)
    requires IsCase(c) && Remembers(c, k, supported, valid)
    ensures IsValid(c, k) ==> Remembers(c, k + 1, supported + {c.judgments[k].verdict.issue}, valid + {k})
    ensures !IsValid(c, k) ==> Remembers(c, k + 1, supported, valid)
  {
    if IsValid(c, k) {
      var x := c.judgments[k].verdict.issue;
      assert Names(c, k, x);
      assert forall y :: Names(c, k, y) ==> y == x;
    }
    hide IsValid, Names, IsCase;
  }

  lemma ValidIsNoAlarm(c: Case, k: nat)
    requires IsCase(c) && k < |c.findings|
    ensures IsValid(c, k) <==> Claims(c, k) && !RoleOf(c, k).FalseAlarm?
  {
  }

  method ScoreFindings(c: Case, complete: bool) returns (t: Tally)
    requires IsCase(c) && complete == Complete(c)
    ensures Tallies(c, |c.findings|, t)
  {
    t := Tally({}, [], [], [], [], []);
    var supportedIssues: set<string> := {};
    var validIndices: set<nat> := {};
    for index := 0 to |c.findings|
      invariant Tallies(c, index, t) && Remembers(c, index, supportedIssues, validIndices)
    {
      RoleIs(c, index, supportedIssues, validIndices);
      TalliesMore(c, index, t);
      RemembersMore(c, index, supportedIssues, validIndices);
      ValidIsNoAlarm(c, index);
      if index !in c.judgments { continue; }
      assert IsJudgment(c, index);
      var verdict := c.judgments[index].verdict;
      hide IsValid, IsSupported, RoleOf, Tallies, Remembers, Complete, IsJudgment;
      if NamesIssue(verdict) {
        if !IsSupported(c, index) || (verdict.Duplicate? && verdict.of !in validIndices) {
          t := t.(alarms := t.alarms + [index], invalid := t.invalid + [index]);
          continue;
        }
        validIndices := validIndices + {index};
        if verdict.Duplicate? || verdict.issue in supportedIssues {
          t := t.(duplicates := t.duplicates + [index]);
        } else if complete {
          t := t.(caught := t.caught + {verdict.issue});
        } else {
          t := t.(withheld := t.withheld + [index]);
        }
        supportedIssues := supportedIssues + {verdict.issue};
      } else if verdict.Advisory? {
        t := t.(advisories := t.advisories + [index]);
      } else {
        t := t.(alarms := t.alarms + [index]);
      }
    }
  }

  // ----- the partition -----

  lemma WithStep(c: Case, role: Role, k: nat)
    requires IsCase(c) && k < |c.findings|
    ensures |With(c, role, k + 1)| == |With(c, role, k)| + if RoleOf(c, k) == role then 1 else 0
  {
    hide RoleOf;
  }

  /** The finding after the first `k` is added to one of the six lists. */
  lemma OneRoleMore(c: Case, k: nat)
    requires IsCase(c) && k < |c.findings|
    ensures |With(c, Credited, k + 1)| + |With(c, Withheld, k + 1)| + |With(c, Duplicated, k + 1)|
          + |With(c, FalseAlarm, k + 1)| + |With(c, Advised, k + 1)| + |With(c, Unadjudicated, k + 1)|
         == |With(c, Credited, k)| + |With(c, Withheld, k)| + |With(c, Duplicated, k)| + |With(c, FalseAlarm, k)|
          + |With(c, Advised, k)| + |With(c, Unadjudicated, k)| + 1
  {
    hide RoleOf, With, IsCase;
    WithStep(c, Credited, k);
    WithStep(c, Withheld, k);
    WithStep(c, Duplicated, k);
    WithStep(c, FalseAlarm, k);
    WithStep(c, Advised, k);
    WithStep(c, Unadjudicated, k);
  }

  lemma {:induction false} OnlyOneRole(c: Case, k: nat)
    requires IsCase(c) && k <= |c.findings|
    ensures |With(c, Credited, k)| + |With(c, Withheld, k)| + |With(c, Duplicated, k)| + |With(c, FalseAlarm, k)|
          + |With(c, Advised, k)| + |With(c, Unadjudicated, k)| == k
  {
    hide RoleOf, With, IsCase;
    if k > 0 {
      OnlyOneRole(c, k - 1);
      OneRoleMore(c, k - 1);
    } else {
      forall role ensures With(c, role, 0) == [] { WithNothing(c, role); }
    }
  }

  /** No two credited findings name the same issue. */
  lemma CreditedOnce(c: Case, k: nat)
    requires IsCase(c) && k < |c.findings| && RoleOf(c, k).Credited?
    ensures IssueAt(c, k) !in CaughtBefore(c, k)
  {
    var issue := IssueAt(c, k);
    CaughtIs(c, k, issue);
    assert forall i :: 0 <= i < k && RoleOf(c, i).Credited? ==> IsValid(c, i);
  }

  lemma {:induction false} CaughtAreCredited(c: Case, k: nat)
    requires IsCase(c) && k <= |c.findings|
    ensures |CaughtBefore(c, k)| == |With(c, Credited, k)|
  {
    if k > 0 {
      CaughtAreCredited(c, k - 1);
      WithStep(c, Credited, k - 1);
      if RoleOf(c, k - 1).Credited? { CreditedOnce(c, k - 1); }
    }
  }

  /** The judged findings before `k`. */
  function JudgedBefore(c: Case, k: nat): (r: set<nat>)
    ensures forall i :: i in r <==> i < k && i in c.judgments
  {
    if k == 0 then {} else JudgedBefore(c, k - 1) + if k - 1 in c.judgments then {k - 1} else {}
  }

  lemma UnadjudicatedIs(c: Case, k: nat)
    requires IsCase(c) && k < |c.findings|
    ensures RoleOf(c, k).Unadjudicated? <==> k !in c.judgments
  {
    hide IsCase, IsValid;
  }

  lemma WithNothing(c: Case, role: Role)
    requires IsCase(c)
    ensures With(c, role, 0) == []
  {
    hide IsCase;
  }

  lemma JudgedStep(c: Case, k: nat)
    ensures |JudgedBefore(c, k)| ==
      if k == 0 then 0 else |JudgedBefore(c, k - 1)| + if k - 1 in c.judgments then 1 else 0
  {
  }

  lemma {:induction false} JudgedCount(c: Case, k: nat)
    requires IsCase(c) && k <= |c.findings|
    ensures |With(c, Unadjudicated, k)| + |JudgedBefore(c, k)| == k
  {
    hide RoleOf, With, IsCase, JudgedBefore;
    JudgedStep(c, k);
    if k > 0 {
      JudgedCount(c, k - 1);
      WithStep(c, Unadjudicated, k - 1);
      UnadjudicatedIs(c, k - 1);
    } else {
      WithNothing(c, Unadjudicated);
    }
  }

  lemma AllJudged(c: Case)
    requires IsCase(c)
    ensures |JudgedBefore(c, |c.findings|)| == |c.judgments|
  {
    forall i | i in c.judgments ensures i < |c.findings| { assert IsJudgment(c, i); }
    assert JudgedBefore(c, |c.findings|) == c.judgments.Keys;
    assert |c.judgments| == |c.judgments.Keys|;
  }

  /**
   * Every finding falls in exactly one of credited, withheld, duplicate, false alarm, advisory and
   * unadjudicated, and each caught issue is credited to exactly one finding.
   */
  lemma FindingsArePartitioned(c: Case, t: Tally)
    requires IsCase(c) && Tallies(c, |c.findings|, t)
    ensures |t.caught| + |t.withheld| + |t.duplicates| + |t.alarms| + |t.advisories| + (|c.findings| - |c.judgments|)
         == |c.findings|
    ensures |t.caught| == |With(c, Credited, |c.findings|)|
    ensures |With(c, Unadjudicated, |c.findings|)| == |c.findings| - |c.judgments|
  {
    OnlyOneRole(c, |c.findings|);
    CaughtAreCredited(c, |c.findings|);
    JudgedCount(c, |c.findings|);
    AllJudged(c);
  }

  /** The first valid finding for an issue is a match, not a duplicate. */
  lemma {:induction false} ValidHasMatch(c: Case, k: nat, issue: string) returns (i: nat)
    requires IsCase(c) && IsValid(c, k) && Names(c, k, issue)
    ensures i <= k && i in c.judgments && c.judgments[i].verdict == Matched(issue) && IsValid(c, i)
    ensures !exists j :: 0 <= j < i && IsValid(c, j) && Names(c, j, issue)
    decreases k
  {
    assert IsJudgment(c, k);
    if j :| 0 <= j < k && IsValid(c, j) && Names(c, j, issue) {
      i := ValidHasMatch(c, j, issue);
    } else {
      i := k;
      if c.judgments[k].verdict.Duplicate? {
        assert IsValid(c, c.judgments[k].verdict.of) && Names(c, c.judgments[k].verdict.of, issue);
      }
    }
  }

  // ----- what each role means -----

  /** The finding quotes evidence at the place of issue `x`, and its judgment is correct against the source. */
  predicate Holds(c: Case, k: nat, x: string) {
    && k < |c.findings| && k in c.judgments && x in c.issues
    && c.findings[k].file == c.issues[x].file && c.findings[k].dimension == c.issues[x].dimension
    && c.issues[x].startLine <= c.findings[k].line <= c.issues[x].endLine
    && c.findings[k].evidence && c.judgments[k].sourceCorrect
  }

  /** The finding was judged a match of issue `x`, or a duplicate of one, and that holds of both. */
  predicate IsRight(c: Case, k: nat, x: string) {
    && Holds(c, k, x)
    && match c.judgments[k].verdict
       case Matched(issue) => issue == x
       case Duplicate(issue, of) => issue == x && Holds(c, of, x)
       case _ => false
  }

  /** The review was complete and each of its findings is judged. */
  predicate IsFinished(c: Case) { c.reviewed && forall k :: 0 <= k < |c.findings| ==> k in c.judgments }

  lemma CompleteIs(c: Case)
    requires IsCase(c)
    ensures Complete(c) <==> IsFinished(c)
  {
    hide IsCase, RoleOf, With;
    JudgedCount(c, |c.findings|);
    AllJudged(c);
    if IsFinished(c) { NoneUnadjudicated(c, |c.findings|); }
    if Complete(c) {
      forall k | 0 <= k < |c.findings| ensures k in c.judgments { NotUnadjudicated(c, |c.findings|, k); }
    }
  }

  lemma {:induction false} NoneUnadjudicated(c: Case, n: nat)
    requires IsCase(c) && n <= |c.findings| && forall k :: 0 <= k < n ==> k in c.judgments
    ensures With(c, Unadjudicated, n) == []
  {
    hide IsCase, RoleOf;
    if n > 0 {
      NoneUnadjudicated(c, n - 1);
      UnadjudicatedIs(c, n - 1);
    }
  }

  lemma {:induction false} NotUnadjudicated(c: Case, n: nat, k: nat)
    requires IsCase(c) && k < n <= |c.findings| && With(c, Unadjudicated, n) == []
    ensures k in c.judgments
  {
    hide IsCase, RoleOf;
    if k < n - 1 { NotUnadjudicated(c, n - 1, k); } else { UnadjudicatedIs(c, k); }
  }

  lemma RightIs(c: Case, k: nat, x: string)
    requires IsCase(c)
    ensures IsRight(c, k, x) <==> IsValid(c, k) && Names(c, k, x)
  {
    if k in c.judgments {
      assert IsJudgment(c, k);
      if c.judgments[k].verdict.Duplicate? { assert IsJudgment(c, c.judgments[k].verdict.of); }
    }
  }

  /** The finding is right about some issue, and it is the first that is. */
  ghost predicate IsFirst(c: Case, k: nat) {
    exists x :: IsRight(c, k, x) && c.judgments[k].verdict.Matched? && forall j :: 0 <= j < k ==> !IsRight(c, j, x)
  }

  /** What each role means, by the judgments, the findings and the issues alone. */
  lemma RolesExactly(c: Case, k: nat)
    requires IsCase(c) && k < |c.findings|
    ensures RoleOf(c, k).Unadjudicated? <==> k !in c.judgments
    ensures RoleOf(c, k).Advised? <==> k in c.judgments && c.judgments[k].verdict.Advisory?
    ensures RoleOf(c, k).FalseAlarm? <==>
      k in c.judgments && !c.judgments[k].verdict.Advisory? && forall x :: !IsRight(c, k, x)
    ensures RoleOf(c, k).Credited? <==> IsFinished(c) && IsFirst(c, k)
    ensures RoleOf(c, k).Withheld? <==> !IsFinished(c) && IsFirst(c, k)
    ensures RoleOf(c, k).Duplicated? <==> (exists x :: IsRight(c, k, x)) && !IsFirst(c, k)
  {
    CompleteIs(c);
    ValidIs(c, k);
    if IsValid(c, k) { FirstIs(c, k); }
    hide IsValid, IsCase, IsFinished, Complete, IsRight;
  }

  lemma ValidIs(c: Case, k: nat)
    requires IsCase(c)
    ensures IsValid(c, k) <==> exists x :: IsRight(c, k, x)
    ensures IsValid(c, k) ==> IsRight(c, k, c.judgments[k].verdict.issue) && NamesIssue(c.judgments[k].verdict)
  {
    hide IsCase, IsRight, IsValid;
    forall x ensures IsRight(c, k, x) <==> IsValid(c, k) && Names(c, k, x) { RightIs(c, k, x); }
    if IsValid(c, k) { ValidNames(c, k); }
  }

  lemma ValidNames(c: Case, k: nat)
    requires IsCase(c) && IsValid(c, k)
    ensures k in c.judgments && NamesIssue(c.judgments[k].verdict) && Names(c, k, c.judgments[k].verdict.issue)
  {
  }

  lemma FirstIs(c: Case, k: nat)
    requires IsCase(c) && IsValid(c, k)
    ensures IsFirst(c, k) <==>
      var v := c.judgments[k].verdict;
      v.Matched? && !exists j :: 0 <= j < k && IsValid(c, j) && Names(c, j, v.issue)
  {
    var x := c.judgments[k].verdict.issue;
    ValidNames(c, k);
    hide IsCase, IsRight, IsValid;
    forall j, y ensures IsRight(c, j, y) <==> IsValid(c, j) && Names(c, j, y) { RightIs(c, j, y); }
  }

  /** In a complete case the caught issues are exactly those that a match is right about; otherwise none is caught. */
  lemma CaughtExactly(c: Case, t: Tally, issue: string)
    requires IsCase(c) && Tallies(c, |c.findings|, t)
    ensures issue in t.caught <==>
      IsFinished(c) && exists k :: k in c.judgments && c.judgments[k].verdict == Matched(issue) && Holds(c, k, issue)
    ensures issue in t.caught ==> issue in c.issues
  {
    CaughtIs(c, |c.findings|, issue);
    CompleteIs(c);
    if issue in t.caught {
      var i :| 0 <= i < |c.findings| && RoleOf(c, i).Credited? && Names(c, i, issue);
      RightIs(c, i, issue);
    }
    if k :| IsFinished(c) && k in c.judgments && c.judgments[k].verdict == Matched(issue) && Holds(c, k, issue) {
      assert IsRight(c, k, issue);
      RightIs(c, k, issue);
      var i := ValidHasMatch(c, k, issue);
      assert IsJudgment(c, i);
      assert RoleOf(c, i).Credited? && Names(c, i, issue);
    }
  }

  lemma CaughtAtMostIssues(c: Case, t: Tally)
    requires IsCase(c) && Tallies(c, |c.findings|, t)
    ensures t.caught <= c.issues.Keys && |t.caught| <= |c.issues|
  {
    forall x | x in t.caught ensures x in c.issues.Keys { CaughtExactly(c, t, x); }
    SubsetIsSmaller(t.caught, c.issues.Keys);
    assert |c.issues| == |c.issues.Keys|;
  }

  lemma {:induction false} SubsetIsSmaller<T>(a: set<T>, b: set<T>)
    requires a <= b
    ensures |a| <= |b|
    decreases |a|
  {
    if x :| x in a { SubsetIsSmaller(a - {x}, b - {x}); }
  }

  predicate IsAscending(ks: seq<nat>) { forall i, j :: 0 <= i < j < |ks| ==> ks[i] < ks[j] }

  lemma AscendsSnoc(ks: seq<nat>, n: nat)
    requires IsAscending(ks) && forall k :: k in ks ==> k < n
    ensures IsAscending(ks + [n])
  {
    forall i | 0 <= i < |ks| ensures ks[i] < n { assert ks[i] in ks; }
  }

  lemma {:induction false} WithAscends(c: Case, role: Role, n: nat)
    requires IsCase(c) && n <= |c.findings|
    ensures IsAscending(With(c, role, n)) && forall k :: k in With(c, role, n) <==> 0 <= k < n && RoleOf(c, k) == role
  {
    hide RoleOf, IsCase, IsAscending;
    if n > 0 {
      WithAscends(c, role, n - 1);
      AscendsSnoc(With(c, role, n - 1), n - 1);
      assert With(c, role, n - 1) + [] == With(c, role, n - 1);
    } else {
      NoneAscend();
    }
  }

  lemma ClaimsWhen(c: Case, k: nat)
    requires IsCase(c) && k < |c.findings| && RoleOf(c, k).FalseAlarm?
    ensures k in c.judgments && (Claims(c, k) <==> NamesIssue(c.judgments[k].verdict))
  {
    UnadjudicatedIs(c, k);
  }

  lemma {:induction false} InvalidAscends(c: Case, n: nat)
    requires IsCase(c) && n <= |c.findings|
    ensures IsAscending(InvalidBefore(c, n))
    ensures forall k :: k in InvalidBefore(c, n) <==> 0 <= k < n && RoleOf(c, k).FalseAlarm? && Claims(c, k)
  {
    hide RoleOf, IsCase, IsAscending;
    if n > 0 {
      InvalidAscends(c, n - 1);
      if RoleOf(c, n - 1).FalseAlarm? { ClaimsWhen(c, n - 1); }
      AscendsSnoc(InvalidBefore(c, n - 1), n - 1);
      assert InvalidBefore(c, n - 1) + [] == InvalidBefore(c, n - 1);
    } else {
      NoneAscend();
    }
  }

  lemma NoneAscend()
    ensures IsAscending([])
  {
  }

  /** Each list of the tally holds, in increasing order, exactly the findings with its role. */
  lemma TallyLists(c: Case, t: Tally)
    requires IsCase(c) && Tallies(c, |c.findings|, t)
    ensures IsAscending(t.duplicates) && IsAscending(t.alarms) && IsAscending(t.advisories) && IsAscending(t.withheld)
    ensures forall k :: k in t.duplicates <==> 0 <= k < |c.findings| && RoleOf(c, k).Duplicated?
    ensures forall k :: k in t.alarms <==> 0 <= k < |c.findings| && RoleOf(c, k).FalseAlarm?
    ensures forall k :: k in t.advisories <==> 0 <= k < |c.findings| && RoleOf(c, k).Advised?
    ensures forall k :: k in t.withheld <==> 0 <= k < |c.findings| && RoleOf(c, k).Withheld?
    ensures IsAscending(t.invalid)
    ensures forall k :: k in t.invalid <==>
      0 <= k < |c.findings| && RoleOf(c, k).FalseAlarm? && k in c.judgments && NamesIssue(c.judgments[k].verdict)
  {
    hide RoleOf, IsCase, With, InvalidBefore, IsAscending;
    WithAscends(c, Duplicated, |c.findings|);
    WithAscends(c, FalseAlarm, |c.findings|);
    WithAscends(c, Advised, |c.findings|);
    WithAscends(c, Withheld, |c.findings|);
    InvalidAscends(c, |c.findings|);
  }

  // ----- totals over cases -----

  /** The findings of a case with a role. */
  ghost function Having(c: Case, role: Role): set<nat> {
    set k: nat | k < |c.findings| && IsCase(c) && RoleOf(c, k) == role
  }

  ghost function HavingBefore(c: Case, role: Role, n: nat): set<nat>
    requires IsCase(c) && n <= |c.findings|
  {
    set k: nat | k < n && RoleOf(c, k) == role
  }

  lemma {:induction false} WithCounts(c: Case, role: Role, n: nat)
    requires IsCase(c) && n <= |c.findings|
    ensures |With(c, role, n)| == |HavingBefore(c, role, n)|
  {
    hide RoleOf, IsCase, With, HavingBefore;
    if n > 0 {
      WithCounts(c, role, n - 1);
      WithStep(c, role, n - 1);
      HavingStep(c, role, n - 1);
    } else {
      WithNothing(c, role);
      HavingNothing(c, role);
    }
  }

  lemma HavingNothing(c: Case, role: Role)
    requires IsCase(c)
    ensures HavingBefore(c, role, 0) == {}
  {
    hide IsCase;
  }

  lemma HavingStep(c: Case, role: Role, n: nat)
    requires IsCase(c) && n < |c.findings|
    ensures |HavingBefore(c, role, n + 1)| == |HavingBefore(c, role, n)| + if RoleOf(c, n) == role then 1 else 0
  {
    hide RoleOf, IsCase;
    var before := HavingBefore(c, role, n);
    assert HavingBefore(c, role, n + 1) == if RoleOf(c, n) == role then before + {n} else before;
  }

  lemma HavingIs(c: Case, role: Role)
    requires IsCase(c)
    ensures |Having(c, role)| == |With(c, role, |c.findings|)|
  {
    hide RoleOf, With, IsCase;
    WithCounts(c, role, |c.findings|);
    assert Having(c, role) == HavingBefore(c, role, |c.findings|);
  }

  /** The issues of a case that a match is right about, when the case is finished. */
  ghost function CaughtOf(c: Case): set<string> {
    set x | x in c.issues && IsFinished(c) &&
      exists k :: k in c.judgments && c.judgments[k].verdict == Matched(x) && Holds(c, k, x)
  }

  /** Sums over the cases. */
  ghost function SumHaving(cases: seq<Case>, role: Role): nat {
    if cases == [] then 0 else SumHaving(cases[..|cases| - 1], role) + |Having(cases[|cases| - 1], role)|
  }

  ghost function SumCaught(cases: seq<Case>): nat {
    if cases == [] then 0 else SumCaught(cases[..|cases| - 1]) + |CaughtOf(cases[|cases| - 1])|
  }

  function SumIssues(cases: seq<Case>): nat {
    if cases == [] then 0 else SumIssues(cases[..|cases| - 1]) + |cases[|cases| - 1].issues|
  }

  function SumFindings(cases: seq<Case>): nat {
    if cases == [] then 0 else SumFindings(cases[..|cases| - 1]) + |cases[|cases| - 1].findings|
  }

  function SumFinished(cases: seq<Case>): nat {
    if cases == [] then 0
    else SumFinished(cases[..|cases| - 1]) + if IsFinished(cases[|cases| - 1]) then 1 else 0
  }

  datatype Totals = Totals(cases: nat, completeCases: nat, issues: nat, caughtIssues: nat, missedIssues: int,
                           findings: nat, credited: nat, duplicates: nat, falseAlarms: nat, advisories: nat,
                           unadjudicated: int, withheld: nat)

  ghost predicate AreTotals(cases: seq<Case>, totals: Totals) {
    && totals.cases == |cases| && totals.completeCases == SumFinished(cases)
    && totals.issues == SumIssues(cases) && totals.findings == SumFindings(cases)
    && totals.caughtIssues == SumCaught(cases)
    && totals.credited == SumHaving(cases, Credited) && totals.withheld == SumHaving(cases, Withheld)
    && totals.duplicates == SumHaving(cases, Duplicated) && totals.falseAlarms == SumHaving(cases, FalseAlarm)
    && totals.advisories == SumHaving(cases, Advised) && totals.unadjudicated == SumHaving(cases, Unadjudicated)
  }

  /** What the tally of a case adds to the totals. */
  lemma CaseAdds(c: Case, t: Tally)
    requires IsCase(c) && Tallies(c, |c.findings|, t)
    ensures |t.caught| == |CaughtOf(c)| == |Having(c, Credited)| <= |c.issues|
    ensures |t.duplicates| == |Having(c, Duplicated)| && |t.alarms| == |Having(c, FalseAlarm)|
    ensures |t.advisories| == |Having(c, Advised)| && |t.withheld| == |Having(c, Withheld)|
    ensures |c.findings| - |c.judgments| == |Having(c, Unadjudicated)|
    ensures Complete(c) <==> IsFinished(c)
    ensures |Having(c, Credited)| + |Having(c, Withheld)| + |Having(c, Duplicated)| + |Having(c, FalseAlarm)|
          + |Having(c, Advised)| + |Having(c, Unadjudicated)| == |c.findings|
    ensures IsFinished(c) ==> |Having(c, Withheld)| == 0 == |Having(c, Unadjudicated)|
  {
    CompleteIs(c);
    if Complete(c) { NoneWithheld(c, |c.findings|); }
    FindingsArePartitioned(c, t);
    CaughtAtMostIssues(c, t);
    forall role ensures |Having(c, role)| == |With(c, role, |c.findings|)| { HavingIs(c, role); }
    forall x ensures x in t.caught <==> x in CaughtOf(c) { CaughtExactly(c, t, x); }
    assert t.caught == CaughtOf(c);
    hide RoleOf, With, IsCase, Having, CaughtOf, CaughtBefore, InvalidBefore, IsFinished;
  }

  lemma SumsSnoc(cases: seq<Case>, c: Case)
    ensures forall role :: SumHaving(cases + [c], role) == SumHaving(cases, role) + |Having(c, role)|
    ensures SumCaught(cases + [c]) == SumCaught(cases) + |CaughtOf(c)|
    ensures SumIssues(cases + [c]) == SumIssues(cases) + |c.issues|
    ensures SumFindings(cases + [c]) == SumFindings(cases) + |c.findings|
    ensures SumFinished(cases + [c]) == SumFinished(cases) + if IsFinished(c) then 1 else 0
  {
    hide Having, CaughtOf, IsFinished;
    assert (cases + [c])[..|cases|] == cases;
  }

  lemma AddCase(cases: seq<Case>, totals: Totals, c: Case, t: Tally)
    requires AreTotals(cases, totals) && IsCase(c) && Tallies(c, |c.findings|, t)
    ensures AreTotals(cases + [c], totals.(
        cases := totals.cases + 1,
        completeCases := totals.completeCases + (if Complete(c) then 1 else 0),
        issues := totals.issues + |c.issues|,
        findings := totals.findings + |c.findings|,
        unadjudicated := totals.unadjudicated + (|c.findings| - |c.judgments|),
        caughtIssues := totals.caughtIssues + |t.caught|,
        credited := totals.credited + |t.caught|,
        duplicates := totals.duplicates + |t.duplicates|,
        falseAlarms := totals.falseAlarms + |t.alarms|,
        advisories := totals.advisories + |t.advisories|,
        withheld := totals.withheld + |t.withheld|))
  {
    hide Tallies, IsCase, Having, CaughtOf, IsFinished, Complete;
    hide SumHaving, SumCaught, SumIssues, SumFindings, SumFinished;
    CaseAdds(c, t);
    SumsSnoc(cases, c);
  }

  lemma NoTotals(cases: seq<Case>, totals: Totals)
    requires cases == [] && totals == Totals(0, 0, 0, 0, 0, 0, 0, 0, 0, 0, 0, 0)
    ensures AreTotals(cases, totals)
  {
    hide Having, CaughtOf, IsFinished;
  }

  lemma CompleteWhen(c: Case)
    ensures Complete(c) <==> c.reviewed && |c.findings| - |c.judgments| == 0
  {
  }

  lemma TotalsAre(cases: seq<Case>, totals: Totals)
    requires AreTotals(cases, totals)
    ensures totals.cases == |cases| && totals.completeCases == SumFinished(cases)
    ensures totals.issues == SumIssues(cases) && totals.findings == SumFindings(cases)
    ensures totals.caughtIssues == SumCaught(cases)
    ensures totals.credited == SumHaving(cases, Credited) && totals.withheld == SumHaving(cases, Withheld)
    ensures totals.duplicates == SumHaving(cases, Duplicated) && totals.falseAlarms == SumHaving(cases, FalseAlarm)
    ensures totals.advisories == SumHaving(cases, Advised) && totals.unadjudicated == SumHaving(cases, Unadjudicated)
  {
  }

  method ScoreCases(cases: seq<Case>) returns (totals: Totals)
    requires forall k :: 0 <= k < |cases| ==> IsCase(cases[k])
    ensures totals.cases == |cases| && totals.completeCases == SumFinished(cases)
    ensures totals.issues == SumIssues(cases) && totals.findings == SumFindings(cases)
    ensures totals.caughtIssues == SumCaught(cases) && totals.missedIssues == SumIssues(cases) - SumCaught(cases)
    ensures totals.credited == SumHaving(cases, Credited) && totals.withheld == SumHaving(cases, Withheld)
    ensures totals.duplicates == SumHaving(cases, Duplicated) && totals.falseAlarms == SumHaving(cases, FalseAlarm)
    ensures totals.advisories == SumHaving(cases, Advised)
    ensures totals.unadjudicated == SumHaving(cases, Unadjudicated)
    ensures totals.findings == totals.credited + totals.withheld + totals.duplicates + totals.falseAlarms
                             + totals.advisories + totals.unadjudicated
    ensures totals.credited == totals.caughtIssues
    ensures totals.caughtIssues + totals.missedIssues == totals.issues && totals.missedIssues >= 0
    ensures totals.completeCases <= totals.cases
    ensures totals.completeCases == totals.cases ==> totals.unadjudicated == 0 && totals.withheld == 0
  {
    hide Tallies, AreTotals, IsCase, Having, CaughtOf, IsFinished, Complete;
    hide SumHaving, SumCaught, SumIssues, SumFindings, SumFinished;
    totals := Totals(0, 0, 0, 0, 0, 0, 0, 0, 0, 0, 0, 0);
    NoTotals(cases[..0], totals);
    for k := 0 to |cases|
      invariant AreTotals(cases[..k], totals)
    {
      var c := cases[k];
      var unadjudicated := |c.findings| - |c.judgments|;
      var complete := c.reviewed && unadjudicated == 0;
      CompleteWhen(c);
      var t := ScoreFindings(c, complete);
      AddCase(cases[..k], totals, c, t);
      assert cases[..k] + [c] == cases[..k + 1];
      totals := totals.(
        cases := totals.cases + 1,
        completeCases := totals.completeCases + (if complete then 1 else 0),
        issues := totals.issues + |c.issues|,
        findings := totals.findings + |c.findings|,
        unadjudicated := totals.unadjudicated + unadjudicated,
        caughtIssues := totals.caughtIssues + |t.caught|,
        credited := totals.credited + |t.caught|,
        duplicates := totals.duplicates + |t.duplicates|,
        falseAlarms := totals.falseAlarms + |t.alarms|,
        advisories := totals.advisories + |t.advisories|,
        withheld := totals.withheld + |t.withheld|);
    }
    assert cases[..|cases|] == cases;
    TotalsAre(cases, totals);
    TotalsBalance(cases);
    totals := totals.(missedIssues := totals.issues - totals.caughtIssues);
  }

  /** The totals balance: every finding and every issue is accounted for once. */
  lemma {:induction false} TotalsBalance(cases: seq<Case>)
    requires forall k :: 0 <= k < |cases| ==> IsCase(cases[k])
    ensures SumHaving(cases, Credited) + SumHaving(cases, Withheld) + SumHaving(cases, Duplicated)
          + SumHaving(cases, FalseAlarm) + SumHaving(cases, Advised) + SumHaving(cases, Unadjudicated)
         == SumFindings(cases)
    ensures SumHaving(cases, Credited) == SumCaught(cases) <= SumIssues(cases)
    ensures SumFinished(cases) <= |cases|
    ensures SumFinished(cases) == |cases| ==> SumHaving(cases, Withheld) == 0 == SumHaving(cases, Unadjudicated)
  {
    hide IsCase, Having, CaughtOf, IsFinished, Tallies;
    if cases != [] {
      var c := cases[|cases| - 1];
      TotalsBalance(cases[..|cases| - 1]);
      TallyExists(c);
      var t :| Tallies(c, |c.findings|, t);
      CaseAdds(c, t);
    }
  }

  lemma TallyExists(c: Case)
    requires IsCase(c)
    ensures exists t :: Tallies(c, |c.findings|, t)
  {
    var n := |c.findings|;
    hide RoleOf, IsCase;
    assert Tallies(c, n, Tally(CaughtBefore(c, n), With(c, Duplicated, n), With(c, FalseAlarm, n),
                               With(c, Advised, n), InvalidBefore(c, n), With(c, Withheld, n)));
  }

  lemma {:induction false} NoneWithheld(c: Case, k: nat)
    requires IsCase(c) && k <= |c.findings| && Complete(c)
    ensures With(c, Withheld, k) == []
  {
    if k > 0 { NoneWithheld(c, k - 1); }
  }
}
