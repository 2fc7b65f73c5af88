/** What a completed run reports, read from the rules' own outcomes: which IDs, texts and severities
    appear, and in which order. */
module RunnerOutcomes {
  import opened Architecture
  import opened GoStrings
  import opened Options
  import opened Runner
  import opened RunnerLaws
  import opened Sorting

  predicate StartsMeta(id: string) {
    |id| >= 5 && id[0] == 'm' && id[1] == 'e' && id[2] == 't' && id[3] == 'a' && id[4] == '.'
  }

  lemma StartsMetaIff(id: string)
    ensures IsMeta(id) <==> StartsMeta(id)
  {
    if StartsMeta(id) {
      assert id[..5] == ['m', 'e', 't', 'a', '.'] == "meta.";
    }
  }

  /** A rule contributes what it returned. One that panicked contributes a note that names it and
      says why. */
  ghost predicate Contributes(r: Rule, v: Violation) {
    match r.outcome
    case Returned(vs) => exists k :: 0 <= k < |vs| && vs[k] == v
    case Panicked(text) =>
      && v.file == "" && v.line == 0 && v.rule == "meta.rule-panic"
      && v.message == "rule " + "\"" + r.spec.id + "\"" + " panicked: " + text
      && v.fix == "report the panic to the rule author; other rules continue to run"
      && v.defaultSeverity == 0 && v.effectiveSeverity == 0
  }

  /** IDs that a rule may emit: its own, if it has one, and those it lists. */
  ghost predicate Declares(spec: RuleSpec, id: string) {
    (id == spec.id && id != "") || exists k :: 0 <= k < |spec.violations| && spec.violations[k].id == id
  }

  /** The k-th entry is the last one with this ID. */
  ghost predicate LastEntry(spec: RuleSpec, id: string, k: int) {
    0 <= k < |spec.violations| && spec.violations[k].id == id && forall l :: k < l < |spec.violations| ==> spec.violations[l].id != id
  }

  /** The severity that a rule gives an ID: its entry's, and without one 0, an error, for a rule that
      failed, 1, a warning, for any other note, and the rule's own default for the rest. */
  ghost predicate Ranks(spec: RuleSpec, id: string, severity: int) {
    if exists k :: LastEntry(spec, id, k) then
      forall k :: LastEntry(spec, id, k) ==> severity == spec.violations[k].defaultSeverity
    else if id == "meta.rule-panic" || id == "meta.unknown-violation-id" then severity == 0
    else if StartsMeta(id) then severity == 1
    else severity == spec.defaultSeverity
  }

  /** What a violation of a rule is reported as. Only an ID that the rule did not declare is
      replaced, and then by an error that names both. */
  ghost predicate Becomes(spec: RuleSpec, overrides: Overrides, v: Violation, w: Violation) {
    && w.file == v.file && w.line == v.line
    && (Declares(spec, v.rule) || StartsMeta(v.rule) ==> w.rule == v.rule && w.message == v.message && w.fix == v.fix)
    && (!Declares(spec, v.rule) && !StartsMeta(v.rule) ==>
          && w.rule == "meta.unknown-violation-id"
          && w.message == "rule " + "\"" + spec.id + "\"" + " emitted undeclared violation ID " + "\"" + v.rule + "\""
          && w.fix == "declare " + "\"" + v.rule + "\"" + " in " + spec.id + ".Spec().Violations or fix the typo in Check()")
    && Ranks(spec, w.rule, w.defaultSeverity)
    && (w.rule in overrides ==> w.effectiveSeverity == overrides[w.rule])
    && (w.rule !in overrides ==> w.effectiveSeverity == w.defaultSeverity)
  }

  // One rule.

  lemma ContributesIff(r: Rule, v: Violation)
    ensures v in SafeCheck(r) <==> Contributes(r, v)
  {
    match r.outcome
    case Returned(vs) =>
    case Panicked(text) =>
      assert SafeCheck(r)[0] in SafeCheck(r);
      PanicNote(r);
  }

  lemma PanicNote(r: Rule)
    requires r.outcome.Panicked?
    ensures |SafeCheck(r)| == 1 && SafeCheck(r)[0].message == "rule " + "\"" + r.spec.id + "\"" + " panicked: " + r.outcome.text
  {
  }

  lemma DeclaresIff(spec: RuleSpec, id: string)
    ensures id in KnownIds(spec) <==> Declares(spec, id)
  {
  }

  lemma {:induction false} DefaultsLast(vs: seq<ViolationSpec>, id: string)
    ensures id in Defaults(vs) <==> exists k :: 0 <= k < |vs| && vs[k].id == id
    ensures forall k :: 0 <= k < |vs| && vs[k].id == id && (forall l :: k < l < |vs| ==> vs[l].id != id) ==>
              id in Defaults(vs) && Defaults(vs)[id] == vs[k].defaultSeverity
  {
    if vs != [] {
      var n := |vs| - 1;
      DefaultsLast(vs[..n], id);
      assert forall k :: 0 <= k < n ==> vs[..n][k] == vs[k];
      assert forall k :: 0 <= k < |vs| && vs[k].id == id ==> k == n || vs[..n][k].id == id;
    }
  }

  lemma {:induction false} LastEntryExists(spec: RuleSpec, id: string, k: nat)
    requires k < |spec.violations| && spec.violations[k].id == id
    ensures exists l :: LastEntry(spec, id, l)
    decreases |spec.violations| - k
  {
    if !LastEntry(spec, id, k) {
      var l :| k < l < |spec.violations| && spec.violations[l].id == id;
      LastEntryExists(spec, id, l);
    }
  }

  lemma RanksIff(spec: RuleSpec, id: string, severity: int)
    ensures Declared(spec, id) == severity <==> Ranks(spec, id, severity)
  {
    DefaultsLast(spec.violations, id);
    StartsMetaIff(id);
    hide Defaults, IsMeta;
    if id in Defaults(spec.violations) {
      var k :| 0 <= k < |spec.violations| && spec.violations[k].id == id;
      LastEntryExists(spec, id, k);
    }
  }

  lemma RewriteBecomes(spec: RuleSpec, v: Violation)
    ensures var w := Rewrite(spec, v);
            && w.file == v.file && w.line == v.line
            && (Declares(spec, v.rule) || StartsMeta(v.rule) ==> w == v)
            && (!Declares(spec, v.rule) && !StartsMeta(v.rule) ==>
                  && w.rule == "meta.unknown-violation-id"
                  && w.message == "rule " + "\"" + spec.id + "\"" + " emitted undeclared violation ID " + "\"" + v.rule + "\""
                  && w.fix == "declare " + "\"" + v.rule + "\"" + " in " + spec.id + ".Spec().Violations or fix the typo in Check()")
  {
    DeclaresIff(spec, v.rule);
    StartsMetaIff(v.rule);
    hide KnownIds, IsMeta, Declares, StartsMeta;
  }

  /** Processing an emission is exactly this. */
  lemma ProcessIff(skip: set<string>, overrides: Overrides, spec: RuleSpec, v: Violation, w: Violation)
    ensures Process(skip, overrides, Emission(spec, v)) == Some(w) <==> w.rule !in skip && Becomes(spec, overrides, v, w)
  {
    RewriteBecomes(spec, v);
    var u := Rewrite(spec, v);
    RanksIff(spec, u.rule, w.defaultSeverity);
    hide Rewrite, Declared, Declares, StartsMeta, Ranks;
    if w.rule !in skip && Becomes(spec, overrides, v, w) {
      assert w.rule == u.rule && w.message == u.message && w.fix == u.fix;
      assert w == Stamp(overrides, spec, u);
    }
  }

  /** Every violation becomes something. */
  lemma SomethingBecomes(overrides: Overrides, spec: RuleSpec, v: Violation)
    ensures exists w :: Becomes(spec, overrides, v, w)
  {
    hide Becomes;
    var w := Stamp(overrides, spec, Rewrite(spec, v));
    ProcessIff({}, overrides, spec, v, w);
  }

  // All rules.

  function Lengths(rules: seq<Rule>): nat {
    if rules == [] then 0
    else Lengths(rules[..|rules| - 1]) + (match rules[|rules| - 1].outcome case Returned(vs) => |vs| case Panicked(_) => 1)
  }

  lemma EmissionsLast(rules: seq<Rule>, r: Rule)
    ensures Emissions(rules + [r]) == Emissions(rules) + Emitted(r.spec, SafeCheck(r))
  {
    hide SafeCheck, Emitted;
    assert (rules + [r])[..|rules|] == rules;
  }

  lemma {:induction false} EmissionAt(rules: seq<Rule>, i: nat, l: nat)
    requires i < |rules| && l < |SafeCheck(rules[i])|
    ensures var at := Lengths(rules[..i]) + l;
            at < |Emissions(rules)| && Emissions(rules)[at] == Emission(rules[i].spec, SafeCheck(rules[i])[l])
  {
    hide Emissions, SafeCheck, Lengths;
    var n := |rules| - 1;
    var init := rules[..n];
    assert rules == init + [rules[n]];
    EmissionsLast(init, rules[n]);
    EmissionsLength(init);
    if i < n {
      EmissionAt(init, i, l);
      assert init[..i] == rules[..i] && init[i] == rules[i];
    }
  }

  /** The emissions are the outcomes one after the other: each rule takes as many places as it
      returned violations, or one if it panicked, and fills them in its own order. */
  lemma EmissionsInOrder(rules: seq<Rule>, i: nat, k: nat)
    requires i < |rules|
    ensures |Emissions(rules)| == Lengths(rules)
    ensures rules[i].outcome.Returned? && k < |rules[i].outcome.violations| ==>
              var at := Lengths(rules[..i]) + k;
              at < |Emissions(rules)| && Emissions(rules)[at] == Emission(rules[i].spec, rules[i].outcome.violations[k])
    ensures rules[i].outcome.Panicked? ==>
              var at := Lengths(rules[..i]);
              at < |Emissions(rules)| && Emissions(rules)[at].spec == rules[i].spec && Contributes(rules[i], Emissions(rules)[at].violation)
  {
    EmissionsLength(rules);
    LastRule(rules[i]);
    hide SafeCheck, Contributes, Emissions, Lengths;
    if rules[i].outcome.Panicked? {
      EmissionAt(rules, i, 0);
    } else if k < |rules[i].outcome.violations| {
      EmissionAt(rules, i, k);
    }
  }

  lemma LastRule(r: Rule)
    ensures r.outcome.Returned? ==> SafeCheck(r) == r.outcome.violations
    ensures r.outcome.Panicked? ==> |SafeCheck(r)| == 1 && Contributes(r, SafeCheck(r)[0])
  {
    if r.outcome.Panicked? {
      ContributesIff(r, SafeCheck(r)[0]);
    }
  }

  lemma {:induction false} EmissionsLength(rules: seq<Rule>)
    ensures |Emissions(rules)| == Lengths(rules)
  {
    if rules != [] {
      EmissionsLength(rules[..|rules| - 1]);
    }
  }

  lemma ContributionIsEmitted(rules: seq<Rule>, i: nat, v: Violation) returns (j: nat)
    requires i < |rules| && Contributes(rules[i], v)
    ensures j < |Emissions(rules)| && Emissions(rules)[j] == Emission(rules[i].spec, v)
  {
    hide Emissions, Lengths, Contributes;
    if rules[i].outcome.Returned? {
      var k := PlaceOf(rules[i], v);
      EmissionsInOrder(rules, i, k);
      j := Lengths(rules[..i]) + k;
    } else {
      EmissionsInOrder(rules, i, 0);
      j := Lengths(rules[..i]);
      SamePanic(rules[i], v, Emissions(rules)[j].violation);
    }
  }

  lemma PlaceOf(r: Rule, v: Violation) returns (k: nat)
    requires r.outcome.Returned? && Contributes(r, v)
    ensures k < |r.outcome.violations| && r.outcome.violations[k] == v
  {
    k :| k < |r.outcome.violations| && r.outcome.violations[k] == v;
  }

  lemma SamePanic(r: Rule, v: Violation, w: Violation)
    requires r.outcome.Panicked? && Contributes(r, v) && Contributes(r, w)
    ensures v == w
  {
  }

  /** A run reports everything that a rule contributes, as what it becomes, unless Without names it.
      Of notes with the same ID and message it reports one. */
  lemma EverythingIsReported(rs: RuleSet, overrides: Overrides, i: nat, v: Violation, w: Violation)
    requires i < |rs.rules| && Contributes(rs.rules[i], v) && Becomes(rs.rules[i].spec, overrides, v, w) && w.rule !in rs.skip
    ensures !StartsMeta(w.rule) ==> w in Result(rs, overrides)
    ensures StartsMeta(w.rule) ==>
              exists x :: x in Result(rs, overrides) && x.rule == w.rule && x.message == w.message && multiset(Result(rs, overrides))[x] == 1
  {
    hide Result, Emissions, Contributes, Becomes, Process, Occurrences, StartsMeta, IsMeta;
    var j := ContributionIsEmitted(rs.rules, i, v);
    ProcessIff(rs.skip, overrides, rs.rules[i].spec, v, w);
    StartsMetaIff(w.rule);
    Conservation(rs, overrides, j);
  }

  /** A completed run reports nothing else, and only errors and warnings. */
  lemma NothingElseIsReported(arch: Arch, rs: RuleSet, overrides: Overrides, x: Violation)
    requires Expected(arch, rs, overrides).Completed? && x in Expected(arch, rs, overrides).violations
    ensures x.rule !in rs.skip
    ensures x.effectiveSeverity == 0 || x.effectiveSeverity == 1
    ensures exists i, v :: 0 <= i < |rs.rules| && Contributes(rs.rules[i], v) && Becomes(rs.rules[i].spec, overrides, v, x)
  {
    ErrorsAndWarnings(x.effectiveSeverity);
    hide Expected, Result, Emissions, Contributes, Becomes, Process, SafeCheck, KnownIds, IsMeta, ValidSeverity;
    OutputOrigin(arch, rs, overrides, x);
    var k :| 0 <= k < |Emissions(rs.rules)| && Process(rs.skip, overrides, Emissions(rs.rules)[k]) == Some(x);
    var e := Emissions(rs.rules)[k];
    EmissionSpec(rs.rules, k);
    var i :| 0 <= i < |rs.rules| && e.spec == rs.rules[i].spec && e.violation in SafeCheck(rs.rules[i]);
    ContributesIff(rs.rules[i], e.violation);
    ProcessIff(rs.skip, overrides, e.spec, e.violation, x);
  }

  lemma ErrorsAndWarnings(s: Severity)
    ensures ValidSeverity(s) <==> s == 0 || s == 1
  {
  }

  /** A rule that panics leaves an error in every completed run, which names the rule and says what
      it panicked with. */
  lemma PanicIsReported(arch: Arch, rs: RuleSet, overrides: Overrides, i: nat)
    requires Expected(arch, rs, overrides).Completed? && i < |rs.rules| && rs.rules[i].outcome.Panicked?
    requires LeftAlone(rs, overrides, "meta.rule-panic")
    ensures exists x :: x in Expected(arch, rs, overrides).violations && x.rule == "meta.rule-panic" && x.effectiveSeverity == 0
                        && x.message == "rule " + "\"" + rs.rules[i].spec.id + "\"" + " panicked: " + rs.rules[i].outcome.text
  {
    var r := rs.rules[i];
    var message := "rule " + "\"" + r.spec.id + "\"" + " panicked: " + r.outcome.text;
    var v := Violation("", 0, "meta.rule-panic", message, "report the panic to the rule author; other rules continue to run", 0, 0);
    assert Contributes(r, v);
    FailuresAreMeta();
    ReportedError(arch, rs, overrides, i, v, "meta.rule-panic", message);
  }

  /** So does a violation with an ID that its rule did not declare, for each rule and ID. */
  lemma UndeclaredIsReported(arch: Arch, rs: RuleSet, overrides: Overrides, i: nat, v: Violation)
    requires Expected(arch, rs, overrides).Completed? && i < |rs.rules| && Contributes(rs.rules[i], v)
    requires !Declares(rs.rules[i].spec, v.rule) && !StartsMeta(v.rule)
    requires LeftAlone(rs, overrides, "meta.unknown-violation-id")
    ensures exists x :: x in Expected(arch, rs, overrides).violations && x.rule == "meta.unknown-violation-id" && x.effectiveSeverity == 0
                        && x.message == "rule " + "\"" + rs.rules[i].spec.id + "\"" + " emitted undeclared violation ID " + "\"" + v.rule + "\""
  {
    ReportedError(arch, rs, overrides, i, v, "meta.unknown-violation-id",
      "rule " + "\"" + rs.rules[i].spec.id + "\"" + " emitted undeclared violation ID " + "\"" + v.rule + "\"");
  }

  lemma ReportedError(arch: Arch, rs: RuleSet, overrides: Overrides, i: nat, v: Violation, id: string, message: string)
    requires Expected(arch, rs, overrides).Completed? && i < |rs.rules| && Contributes(rs.rules[i], v)
    requires id == "meta.rule-panic" || id == "meta.unknown-violation-id"
    requires LeftAlone(rs, overrides, id)
    requires forall w :: Becomes(rs.rules[i].spec, overrides, v, w) ==> w.rule == id && w.message == message
    ensures exists x :: x in Expected(arch, rs, overrides).violations && x.rule == id && x.effectiveSeverity == 0 && x.message == message
  {
    FailuresAreMeta();
    SomethingBecomes(overrides, rs.rules[i].spec, v);
    NotSkipped(rs, overrides, id);
    hide Becomes, Contributes, Expected, Result, LeftAlone, StartsMeta;
    var w :| Becomes(rs.rules[i].spec, overrides, v, w);
    EverythingIsReported(rs, overrides, i, v, w);
    ResultIsExpected(arch, rs, overrides);
    var x :| x in Result(rs, overrides) && x.rule == w.rule && x.message == w.message;
    FailureIsError(arch, rs, overrides, x);
  }

  lemma FailuresAreMeta()
    ensures StartsMeta("meta.rule-panic") && RULE_PANIC == "meta.rule-panic" && ERROR == 0
    ensures StartsMeta("meta.unknown-violation-id") && UNKNOWN_ID == "meta.unknown-violation-id"
  {
  }

  // The order of the report.

  /** The strings agree up to k, where the first one ends or has the smaller byte. */
  ghost predicate DecidedAt(a: string, b: string, k: int) {
    && 0 <= k <= |a| && k <= |b| && (forall j :: 0 <= j < k ==> a[j] == b[j])
    && (k == |a| || (k < |b| && a[k] < b[k]))
  }

  ghost predicate AtOrBefore(a: string, b: string) {
    exists k :: DecidedAt(a, b, k)
  }

  lemma {:induction false} LessEqIff(a: string, b: string)
    ensures !Less(b, a) <==> AtOrBefore(a, b)
  {
    if a == "" || b == "" || a[0] != b[0] {
      assert Less(b, a) || DecidedAt(a, b, 0);
    } else {
      LessEqIff(a[1..], b[1..]);
      if k :| DecidedAt(a[1..], b[1..], k) {
        DecidedLater(a, b, k);
      }
      if k :| DecidedAt(a, b, k) {
        DecidedLater(a, b, k - 1);
      }
    }
  }

  lemma DecidedLater(a: string, b: string, k: int)
    requires a != "" && b != "" && a[0] == b[0]
    ensures DecidedAt(a[1..], b[1..], k) ==> DecidedAt(a, b, k + 1)
    ensures k >= 0 && DecidedAt(a, b, k + 1) ==> DecidedAt(a[1..], b[1..], k)
  {
    if k >= 0 && DecidedAt(a, b, k + 1) {
      assert forall j :: 0 <= j < k ==> a[1..][j] == a[j + 1] && b[1..][j] == b[j + 1];
    }
  }

  /** A later violation never has an earlier file; in one file never an earlier line; on one line
      never an earlier ID; and with one ID never an earlier message. */
  lemma ReportOrder(rs: RuleSet, overrides: Overrides, i: nat, j: nat)
    requires i < j < |Result(rs, overrides)|
    ensures var a, b := Result(rs, overrides)[i], Result(rs, overrides)[j];
            && AtOrBefore(a.file, b.file)
            && (a.file == b.file ==> a.line <= b.line)
            && (a.file == b.file && a.line == b.line ==> AtOrBefore(a.rule, b.rule))
            && (a.file == b.file && a.line == b.line && a.rule == b.rule ==> AtOrBefore(a.message, b.message))
  {
    hide Result, AtOrBefore, Less, NotAfter;
    var a, b := Result(rs, overrides)[i], Result(rs, overrides)[j];
    ResultIsOrdered(rs, overrides);
    NotAfterFields(a, b);
    LessEqIff(a.file, b.file);
    LessEqIff(a.rule, b.rule);
    LessEqIff(a.message, b.message);
  }

  lemma NotAfterFields(a: Violation, b: Violation)
    requires NotAfter(a, b)
    ensures !Less(b.file, a.file)
    ensures a.file == b.file ==> a.line <= b.line
    ensures a.file == b.file && a.line == b.line ==> !Less(b.rule, a.rule)
    ensures a.file == b.file && a.line == b.line && a.rule == b.rule ==> !Less(b.message, a.message)
  {
    hide Less;
    LessTotal(a.file, a.file);
    LessTotal(a.rule, a.rule);
  }
}
