/** The repository audit (scripts/audit_repos.py:46-104): three compliance
    checks per repository, a score per repository, the count of fully
    compliant repositories, and the status column of the report. Whether a
    repository has a README is an input (the source asks the API). */
module Audit {
  import opened Base
  import opened Repos

  /** The three checks, in report column order. */
  datatype Check = HasTopics | HasDescription | HasReadme

  /** The flags of one report row (`report_data` entry). */
  datatype Flags = Flags(hasTopics: bool, hasDesc: bool, hasReadme: bool)

  datatype ReportRow = ReportRow(name: string, flags: Flags)

  /** One audited repository: its listing and the answer of the README probe. */
  datatype AuditInput = AuditInput(repo: RepoListing, readmeExists: bool)

  /** Whether a row passes one check. */
  predicate Passes(f: Flags, k: Check)
  {
    match k
    case HasTopics => f.hasTopics
    case HasDescription => f.hasDesc
    case HasReadme => f.hasReadme
  }

  /** Lines 62-66: topics present exactly when the list is non-empty, a
      description exactly when it is truthy. */
  function RepoFlags(a: AuditInput): (f: Flags)
    ensures f.hasTopics <==> a.repo.topics.Some? && |a.repo.topics.value| > 0
    ensures f.hasDesc <==> a.repo.description.Some? && a.repo.description.value != ""
    ensures f.hasReadme == a.readmeExists
  {
    Flags(!LacksTopics(a.repo), Truthy(a.repo.description), a.readmeExists)
  }

  /** The checks a row passes. */
  function PassedChecks(f: Flags): (r: set<Check>)
    ensures forall k :: k in r <==> Passes(f, k)
  {
    (if f.hasTopics then {HasTopics} else {})
    + (if f.hasDesc then {HasDescription} else {})
    + (if f.hasReadme then {HasReadme} else {})
  }

  predicate FullyCompliant(f: Flags)
  {
    f.hasTopics && f.hasDesc && f.hasReadme
  }

  /** Lines 70-73: one point per passed check. */
  method Score(f: Flags) returns (score: nat)
    ensures score == |PassedChecks(f)|
    ensures score <= 3
    ensures score == 3 <==> FullyCompliant(f)
    ensures score == 0 <==> !f.hasTopics && !f.hasDesc && !f.hasReadme
  {
    score := 0;
    if f.hasTopics { score := score + 1; }
    if f.hasDesc { score := score + 1; }
    if f.hasReadme { score := score + 1; }
    PassedChecksCount(f);
  }

  /** The number of passed checks, counted flag by flag. */
  lemma PassedChecksCount(f: Flags)
    ensures |PassedChecks(f)| == (if f.hasTopics then 1 else 0) + (if f.hasDesc then 1 else 0) + (if f.hasReadme then 1 else 0)
  {
    var t: set<Check> := if f.hasTopics then {HasTopics} else {};
    var d: set<Check> := if f.hasDesc then {HasDescription} else {};
    var m: set<Check> := if f.hasReadme then {HasReadme} else {};
    assert t !! d && (t + d) !! m;
    assert PassedChecks(f) == t + d + m;
  }

  /** The number of fully compliant repositories among the inputs. */
  function CompliantCount(inputs: seq<AuditInput>): nat
  {
    if inputs == [] then 0
    else CompliantCount(inputs[..|inputs| - 1]) + (if FullyCompliant(RepoFlags(inputs[|inputs| - 1])) then 1 else 0)
  }

  /** The indices of the fully compliant repositories. */
  function CompliantIndices(inputs: seq<AuditInput>): set<int>
  {
    set i | 0 <= i < |inputs| && FullyCompliant(RepoFlags(inputs[i]))
  }

  datatype AuditResult = AuditResult(complianceScore: nat, totalRepos: nat, report: seq<ReportRow>)

  /** Lines 56-89: the repository loop. */
  method AuditRepos(inputs: seq<AuditInput>) returns (result: AuditResult)
    ensures result.totalRepos == |inputs|
    ensures |result.report| == |inputs|
    ensures forall i :: 0 <= i < |inputs| ==> result.report[i] == ReportRow(inputs[i].repo.name, RepoFlags(inputs[i]))
    ensures result.complianceScore == CompliantCount(inputs)
    ensures result.complianceScore <= result.totalRepos
  {
    var complianceScore: nat := 0;
    var totalRepos := |inputs|;
    var reportData: seq<ReportRow> := [];
    var i := 0;
    while i < |inputs|
      invariant 0 <= i <= |inputs|
      invariant |reportData| == i
      invariant forall j :: 0 <= j < i ==> reportData[j] == ReportRow(inputs[j].repo.name, RepoFlags(inputs[j]))
      invariant complianceScore == CompliantCount(inputs[..i])
    {
      var a := inputs[i];
      var flags := RepoFlags(a);
      var score := Score(flags);
      assert inputs[..i + 1][..i] == inputs[..i];
      if score == 3 {
        complianceScore := complianceScore + 1;
      }
      reportData := reportData + [ReportRow(a.repo.name, flags)];
      i := i + 1;
    }
    assert inputs[..i] == inputs;
    CompliantCountBounds(inputs);
    result := AuditResult(complianceScore, totalRepos, reportData);
  }

  /** The count never exceeds the number of repositories, and reaches it
      exactly when every repository is fully compliant. */
  lemma {:induction false} CompliantCountBounds(inputs: seq<AuditInput>)
    ensures CompliantCount(inputs) <= |inputs|
    ensures CompliantCount(inputs) == |inputs| <==> forall i :: 0 <= i < |inputs| ==> FullyCompliant(RepoFlags(inputs[i]))
  {
    if inputs != [] {
      var init := inputs[..|inputs| - 1];
      CompliantCountBounds(init);
      assert forall i :: 0 <= i < |init| ==> init[i] == inputs[i];
    }
  }

  /** `compliance_score` counts exactly the fully compliant repositories. */
  lemma {:induction false} CompliantCountIsIndexCount(inputs: seq<AuditInput>)
    ensures CompliantCount(inputs) == |CompliantIndices(inputs)|
  {
    if inputs != [] {
      var n := |inputs| - 1;
      var init := inputs[..n];
      CompliantCountIsIndexCount(init);
      assert forall i :: 0 <= i < n ==> init[i] == inputs[i];
      if FullyCompliant(RepoFlags(inputs[n])) {
        assert CompliantIndices(inputs) == CompliantIndices(init) + {n};
      } else {
        assert CompliantIndices(inputs) == CompliantIndices(init);
      }
    }
  }

  const CheckMark := "\U{2705}"
  const CrossMark := "\U{274C}"
  const WarningSign := "\U{26A0}\U{FE0F}"

  /** The per-check column of a report row. */
  function Icon(b: bool): string
  {
    if b then CheckMark else CrossMark
  }

  /** Lines 101-102: the four icon columns of a report row, Topics,
      Description, README and Status. */
  function Columns(row: ReportRow): (cols: seq<string>)
    ensures |cols| == 4
    ensures forall k :: cols[Position(k)] == (if Passes(row.flags, k) then CheckMark else CrossMark)
    ensures cols[3] == RowStatus(row)
  {
    [Icon(row.flags.hasTopics), Icon(row.flags.hasDesc), Icon(row.flags.hasReadme), RowStatus(row)]
  }

  /** The column of a check in the report. */
  function Position(k: Check): nat
  {
    match k
    case HasTopics => 0
    case HasDescription => 1
    case HasReadme => 2
  }

  /** The status column agrees with the three check columns: the check mark
      exactly when all three show it; a failing check shows the cross while
      the status shows the warning sign, never the cross. */
  lemma StatusAgreesWithColumns(row: ReportRow)
    ensures Columns(row)[3] == CheckMark <==> forall k :: 0 <= k < 3 ==> Columns(row)[k] == CheckMark
    ensures Columns(row)[3] != CrossMark
    ensures forall k :: 0 <= k < 3 && Columns(row)[k] == CrossMark ==> Columns(row)[3] == WarningSign
  {
    assert CheckMark[0] != CrossMark[0];
    assert |WarningSign| != |CheckMark| && |WarningSign| != |CrossMark|;
    var cols := Columns(row);
    assert cols[0] == Icon(row.flags.hasTopics) && cols[1] == Icon(row.flags.hasDesc) && cols[2] == Icon(row.flags.hasReadme);
  }

  /** Line 101: the status column. */
  function RowStatus(row: ReportRow): (s: string)
    ensures s == CheckMark <==> FullyCompliant(row.flags)
    ensures s == WarningSign <==> !FullyCompliant(row.flags)
  {
    if row.flags.hasTopics && row.flags.hasDesc && row.flags.hasReadme then CheckMark else WarningSign
  }

  /** Line 97, in integers: the percentage of fully compliant repositories,
      0 when there are none to divide by. */
  function Percentage(complianceScore: nat, totalRepos: nat): (p: nat)
    ensures totalRepos == 0 ==> p == 0
    ensures complianceScore <= totalRepos ==> p <= 100
    ensures 0 < totalRepos && complianceScore <= totalRepos ==> (p == 100 <==> complianceScore == totalRepos)
  {
    if totalRepos > 0 then
      PercentageBound(complianceScore, totalRepos);
      complianceScore * 100 / totalRepos
    else 0
  }

  lemma PercentageBound(a: nat, b: nat)
    requires 0 < b
    ensures a <= b ==> a * 100 / b <= 100
    ensures a <= b ==> (a * 100 / b == 100 <==> a == b)
  {
    if a < b {
      PercentageBelow(a, b);
    } else if a == b {
      PercentageFull(b);
    }
  }

  lemma PercentageBelow(a: nat, b: nat)
    requires a < b
    ensures a * 100 / b < 100
  {
    var q := a * 100 / b;
    assert q * b <= a * 100;
    MulMonotone(a + 1, b, 100);
    MulMonotone(100, q, b);
  }

  lemma PercentageFull(b: nat)
    requires 0 < b
    ensures b * 100 / b == 100
  {
    var q := b * 100 / b;
    var r := b * 100 % b;
    assert q * b + r == 100 * b && 0 <= r < b;
    MulMonotone(101, q, b);
    MulMonotone(q, 99, b);
  }

  /** Multiplying by a natural number keeps the order. */
  lemma {:induction false} MulMonotone(x: nat, y: nat, k: nat)
    ensures x <= y ==> x * k <= y * k
  {
    if k > 0 {
      MulMonotone(x, y, k - 1);
      assert x * k == x * (k - 1) + x && y * k == y * (k - 1) + y;
    }
  }

  /** The status column shows the check mark for exactly the rows that make
      up `compliance_score`. */
  lemma StatusMatchesCount(inputs: seq<AuditInput>, result: AuditResult, i: int)
    requires |result.report| == |inputs|
    requires forall j :: 0 <= j < |inputs| ==> result.report[j] == ReportRow(inputs[j].repo.name, RepoFlags(inputs[j]))
    requires 0 <= i < |inputs|
    ensures RowStatus(result.report[i]) == CheckMark <==> i in CompliantIndices(inputs)
  {
  }
}
