/** report.BuildJSONReport: a sorted copy of the violations with summary counts. */
module JsonReport {
  import opened Runner
  import opened RunnerLaws
  import opened Sorting

  datatype JsonViolation = JsonViolation(
    file: string, line: int, rule: string, message: string, fix: string,
    effectiveSeverity: string, defaultSeverity: string)

  datatype Summary = Summary(total: nat, errors: nat, warnings: nat, files: nat, rules: seq<string>)

  datatype Report = Report(summary: Summary, violations: seq<JsonViolation>)

  /** The lower-case name; a value that is neither constant reads as an error. */
  function SeverityName(s: Severity): string {
    if s == WARNING then "warning" else "error"
  }

  function View(v: Violation): JsonViolation {
    JsonViolation(v.file, v.line, v.rule, v.message, v.fix, SeverityName(v.effectiveSeverity),
        SeverityName(v.defaultSeverity))
  }

  function Views(vs: seq<Violation>): seq<JsonViolation> {
    seq(|vs|, i requires 0 <= i < |vs| => View(vs[i]))
  }

  function CountWarnings(vs: seq<Violation>): nat {
    if vs == [] then 0 else CountWarnings(vs[..|vs| - 1]) + if vs[|vs| - 1].effectiveSeverity == WARNING then 1 else 0
  }

  ghost function FilesOf(vs: seq<Violation>): set<string> {
    set i | 0 <= i < |vs| && vs[i].file != "" :: vs[i].file
  }

  ghost function RulesOf(vs: seq<Violation>): set<string> {
    set i | 0 <= i < |vs| && vs[i].rule != "" :: vs[i].rule
  }

  /** The caller's slice is copied, not sorted: it is read only. */
  method BuildJSONReport(input: array<Violation>) returns (report: Report)
    ensures report.violations == Views(Sort(NotAfter, input[..]))
    ensures report.summary.total == report.summary.errors + report.summary.warnings == input.Length
    ensures report.summary.warnings == CountWarnings(Sort(NotAfter, input[..]))
    ensures report.summary.files == |FilesOf(input[..])|
    ensures StrictlyIncreasing(report.summary.rules)
    ensures forall r :: r in report.summary.rules <==> r in RulesOf(input[..])
  {
    hide NotAfter, Sort;
    var sorted := Sort(NotAfter, input[..]);
    var violations: seq<JsonViolation> := [];
    var total, errors, warnings := 0, 0, 0;
    var files: set<string>, rules: set<string> := {}, {};
    for i := 0 to |sorted|
      invariant violations == Views(sorted[..i])
      invariant total == i == errors + warnings && warnings == CountWarnings(sorted[..i])
      invariant files == FilesOf(sorted[..i]) && rules == RulesOf(sorted[..i])
    {
      var v := sorted[i];
      SummaryStep(sorted[..i], v);
      assert sorted[..i + 1] == sorted[..i] + [v];
      hide CountWarnings, FilesOf, RulesOf, Views;
      violations := violations + [View(v)];
      total := total + 1;
      if v.effectiveSeverity != WARNING {
        errors := errors + 1;
      } else {
        warnings := warnings + 1;
      }
      if v.file != "" {
        files := files + {v.file};
      }
      if v.rule != "" {
        rules := rules + {v.rule};
      }
    }
    assert sorted[..|sorted|] == sorted;
    SameSummary(sorted, input[..]);
    var ids := SortedKeys(rules);
    report := Report(Summary(total, errors, warnings, |files|, ids), violations);
  }

  lemma SummaryStep(vs: seq<Violation>, v: Violation)
    ensures Views(vs + [v]) == Views(vs) + [View(v)]
    ensures CountWarnings(vs + [v]) == CountWarnings(vs) + if v.effectiveSeverity == WARNING then 1 else 0
    ensures FilesOf(vs + [v]) == FilesOf(vs) + if v.file != "" then {v.file} else {}
    ensures RulesOf(vs + [v]) == RulesOf(vs) + if v.rule != "" then {v.rule} else {}
  {
    var all := vs + [v];
    assert all[..|vs|] == vs && all[|vs|] == v;
    forall f
      ensures f in FilesOf(all) <==> f in FilesOf(vs) || (f == v.file && f != "")
      ensures f in RulesOf(all) <==> f in RulesOf(vs) || (f == v.rule && f != "")
    {
      assert forall i :: 0 <= i < |vs| ==> all[i] == vs[i];
    }
  }

  lemma SameSummary(a: seq<Violation>, b: seq<Violation>)
    requires multiset(a) == multiset(b)
    ensures FilesOf(a) == FilesOf(b) && RulesOf(a) == RulesOf(b)
  {
    SubSummary(a, b);
    SubSummary(b, a);
  }

  lemma SubSummary(a: seq<Violation>, b: seq<Violation>)
    requires multiset(a) == multiset(b)
    ensures FilesOf(a) <= FilesOf(b) && RulesOf(a) <= RulesOf(b)
  {
    forall i | 0 <= i < |a|
      ensures a[i] in b
    {
      assert a[i] in multiset(b);
    }
  }

  /** Every entry of a report has the violation's own fields; each severity is in its own field, by
      name, and only 1 is a warning. */
  lemma EntryFields(vs: seq<Violation>, i: nat)
    requires i < |vs|
    ensures |Views(vs)| == |vs|
    ensures var e, v := Views(vs)[i], vs[i];
            && e.file == v.file && e.line == v.line && e.rule == v.rule && e.message == v.message && e.fix == v.fix
            && (e.effectiveSeverity == "warning" <==> v.effectiveSeverity == 1)
            && (e.effectiveSeverity == "error" <==> v.effectiveSeverity != 1)
            && (e.defaultSeverity == "warning" <==> v.defaultSeverity == 1)
            && (e.defaultSeverity == "error" <==> v.defaultSeverity != 1)
  {
    assert "warning"[0] != "error"[0];
  }

  ghost function Warnings(vs: seq<Violation>): set<int> {
    set i | 0 <= i < |vs| && vs[i].effectiveSeverity == 1
  }

  /** What is counted: warnings by their effective severity, and the files and rules that are named. */
  lemma {:induction false} SummaryCounts(vs: seq<Violation>)
    ensures CountWarnings(vs) == |Warnings(vs)|
    ensures forall f :: f in FilesOf(vs) <==> f != "" && exists i :: 0 <= i < |vs| && vs[i].file == f
    ensures forall r :: r in RulesOf(vs) <==> r != "" && exists i :: 0 <= i < |vs| && vs[i].rule == r
  {
    if vs == [] {
      assert Warnings(vs) == {};
    } else {
      var n := |vs| - 1;
      SummaryCounts(vs[..n]);
      assert Warnings(vs) == Warnings(vs[..n]) + if vs[n].effectiveSeverity == 1 then {n} else {};
    }
  }

  /** The report lists a run's violations exactly as the run returned them. */
  lemma ReportKeepsRunOrder(rs: RuleSet, overrides: Overrides)
    ensures Views(Sort(NotAfter, Result(rs, overrides))) == Views(Result(rs, overrides))
  {
    ResultIsOrdered(rs, overrides);
  }

  /** Two lists with the same violations give the same report body, if none of them tie with
      something different. */
  lemma ReportIgnoresInputOrder(a: seq<Violation>, b: seq<Violation>)
    requires multiset(a) == multiset(b) && forall x, y :: x in a && y in a && SameKey(x, y) ==> x == y
    ensures Views(Sort(NotAfter, a)) == Views(Sort(NotAfter, b))
  {
    forall x, y | x in a && y in a && NotAfter(x, y) && NotAfter(y, x)
      ensures x == y
    {
      CompareStrings(x, y);
    }
    hide NotAfter, Sort;
    ViolationOrder();
    SortOrdered(NotAfter, a);
    SortOrdered(NotAfter, b);
    SortKeepsNoTies(a);
    OrderedUnique(NotAfter, Sort(NotAfter, a), Sort(NotAfter, b));
  }
}
