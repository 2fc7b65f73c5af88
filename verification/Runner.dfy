/** core.Run: rewriting of undeclared IDs, filtering, severities, in-place dedup of meta
    violations, stable sort. */
module Runner {
  import opened Architecture
  import opened Digraph
  import opened GoStrings
  import opened Options
  import opened Sorting

  /** A Go int type: rules and callers can pass values that are neither constant. */
  type Severity = int

  const ERROR: Severity := 0
  const WARNING: Severity := 1

  predicate ValidSeverity(s: Severity) {
    s == ERROR || s == WARNING
  }

  datatype Violation = Violation(
    file: string, line: int, rule: string, message: string, fix: string,
    defaultSeverity: Severity, effectiveSeverity: Severity)

  datatype ViolationSpec = ViolationSpec(id: string, defaultSeverity: Severity)

  datatype RuleSpec = RuleSpec(id: string, defaultSeverity: Severity, violations: seq<ViolationSpec>)

  /** What one call of Check did. */
  datatype CheckOutcome = Returned(violations: seq<Violation>) | Panicked(text: string)

  datatype Rule = Rule(spec: RuleSpec, outcome: CheckOutcome)

  datatype RuleSet = RuleSet(rules: seq<Rule>, skip: set<string>)

  type Overrides = map<string, Severity>

  const RULE_PANIC := "meta.rule-panic"
  const UNKNOWN_ID := "meta.unknown-violation-id"

  predicate IsMeta(id: string) {
    HasPrefix(id, "meta.")
  }

  function Quote(s: string): string {
    "\"" + s + "\""
  }

  // The rule's catalogue.

  function DeclaredIds(vs: seq<ViolationSpec>): set<string> {
    set i | 0 <= i < |vs| :: vs[i].id
  }

  function KnownIds(spec: RuleSpec): set<string> {
    DeclaredIds(spec.violations) + if spec.id != "" then {spec.id} else {}
  }

  /** A map filled in order: a later entry overwrites an earlier one. */
  function Defaults(vs: seq<ViolationSpec>): map<string, Severity> {
    if vs == [] then map[] else Defaults(vs[..|vs| - 1])[vs[|vs| - 1].id := vs[|vs| - 1].defaultSeverity]
  }

  // One violation.

  function SafeCheck(r: Rule): seq<Violation> {
    match r.outcome
    case Returned(vs) => vs
    case Panicked(text) =>
      [Violation("", 0, RULE_PANIC, "rule " + Quote(r.spec.id) + " panicked: " + text,
                 "report the panic to the rule author; other rules continue to run", ERROR, ERROR)]
  }

  function Rewrite(spec: RuleSpec, v: Violation): Violation {
    if v.rule in KnownIds(spec) || IsMeta(v.rule) then v
    else Violation(v.file, v.line, UNKNOWN_ID,
                   "rule " + Quote(spec.id) + " emitted undeclared violation ID " + Quote(v.rule),
                   "declare " + Quote(v.rule) + " in " + spec.id + ".Spec().Violations or fix the typo in Check()",
                   ERROR, ERROR)
  }

  function Declared(spec: RuleSpec, id: string): Severity {
    if id in Defaults(spec.violations) then Defaults(spec.violations)[id]
    else if id == RULE_PANIC || id == UNKNOWN_ID then ERROR
    else if IsMeta(id) then WARNING
    else spec.defaultSeverity
  }

  function Stamp(overrides: Overrides, spec: RuleSpec, v: Violation): Violation {
    var declared := Declared(spec, v.rule);
    v.(defaultSeverity := declared,
       effectiveSeverity := if v.rule in overrides then overrides[v.rule] else declared)
  }

  datatype Emission = Emission(spec: RuleSpec, violation: Violation)

  /** What the loop body does with one emitted violation; None when Without filters it. */
  function Process(skip: set<string>, overrides: Overrides, e: Emission): Option<Violation> {
    var v := Rewrite(e.spec, e.violation);
    if v.rule in skip then None else Some(Stamp(overrides, e.spec, v))
  }

  // The whole loop.

  function Emitted(spec: RuleSpec, vs: seq<Violation>): (es: seq<Emission>)
    ensures |es| == |vs|
  {
    seq(|vs|, i requires 0 <= i < |vs| => Emission(spec, vs[i]))
  }

  function Emissions(rules: seq<Rule>): seq<Emission> {
    if rules == [] then []
    else Emissions(rules[..|rules| - 1]) + Emitted(rules[|rules| - 1].spec, SafeCheck(rules[|rules| - 1]))
  }

  function Collect(skip: set<string>, overrides: Overrides, es: seq<Emission>): seq<Violation> {
    if es == [] then [] else Collect(skip, overrides, es[..|es| - 1]) + Outcome(skip, overrides, es[|es| - 1])
  }

  function Outcome(skip: set<string>, overrides: Overrides, e: Emission): seq<Violation> {
    match Process(skip, overrides, e)
    case Some(v) => [v]
    case None => []
  }

  // Meta dedup.

  predicate SameMeta(a: Violation, b: Violation) {
    IsMeta(a.rule) && a.rule == b.rule && a.message == b.message
  }

  /** Not a meta violation, or the first with its rule and message. */
  predicate Kept(vs: seq<Violation>, i: nat)
    requires i < |vs|
  {
    forall j :: 0 <= j < i ==> !SameMeta(vs[j], vs[i])
  }

  function Dedupe(vs: seq<Violation>): seq<Violation> {
    if vs == [] then []
    else Dedupe(vs[..|vs| - 1]) + if Kept(vs, |vs| - 1) then [vs[|vs| - 1]] else []
  }

  /** dedupeMetaViolations: `out := in[:0]` writes into the slice that is being ranged over. The
      first n cells become the deduplicated list; the cells behind them are not touched. */
  method DedupeMetaViolations(a: array<Violation>) returns (n: nat)
    modifies a
    ensures n <= a.Length
    ensures a[..n] == Dedupe(old(a[..]))
    ensures a[n..] == old(a[n..])
  {
    hide Dedupe, Seen, Kept;
    ghost var input := a[..];
    var seen: set<(string, string)> := {};
    n := 0;
    NothingSeen();
    for i := 0 to a.Length
      invariant n <= i
      invariant a[..n] == Dedupe(input[..i])
      invariant a[n..] == input[n..]
      invariant Seen(input[..i], seen)
    {
      var v := a[i];
      assert v == a[n..][i - n] == input[i];
      assert input[..i + 1] == input[..i] + [v];
      SeenDecides(input[..i], v, seen);
      if IsMeta(v.rule) {
        if (v.rule, v.message) in seen {
          continue;
        }
        seen := seen + {(v.rule, v.message)};
      }
      ghost var before := a[..n];
      a[n] := v;
      n := n + 1;
      assert a[..n] == before + [v];
    }
    assert input[..a.Length] == input;
  }

  /** The `seen` map holds the keys of the meta violations read so far. */
  ghost predicate Seen(vs: seq<Violation>, seen: set<(string, string)>) {
    forall k :: k in seen <==> exists j :: 0 <= j < |vs| && IsMeta(vs[j].rule) && k == (vs[j].rule, vs[j].message)
  }

  lemma NothingSeen()
    ensures Dedupe([]) == [] && Seen([], {})
  {
  }

  lemma SeenDecides(vs: seq<Violation>, v: Violation, seen: set<(string, string)>)
    requires Seen(vs, seen)
    ensures var drop := IsMeta(v.rule) && (v.rule, v.message) in seen;
            && Dedupe(vs + [v]) == Dedupe(vs) + (if drop then [] else [v])
            && Seen(vs + [v], if IsMeta(v.rule) then seen + {(v.rule, v.message)} else seen)
            && (drop ==> Seen(vs + [v], seen))
  {
    SeenMore(vs, v, seen);
    SeenIffRepeated(vs, v, seen);
    hide Seen, Kept;
    assert (vs + [v])[..|vs|] == vs && (vs + [v])[|vs|] == v;
    if IsMeta(v.rule) && (v.rule, v.message) in seen {
      assert seen + {(v.rule, v.message)} == seen;
    }
  }

  lemma SeenMore(vs: seq<Violation>, v: Violation, seen: set<(string, string)>)
    requires Seen(vs, seen)
    ensures Seen(vs + [v], if IsMeta(v.rule) then seen + {(v.rule, v.message)} else seen)
  {
    hide IsMeta;
    var all := vs + [v];
    var now := if IsMeta(v.rule) then seen + {(v.rule, v.message)} else seen;
    forall k
      ensures k in now <==> exists j :: 0 <= j < |all| && IsMeta(all[j].rule) && k == (all[j].rule, all[j].message)
    {
      if k in seen {
        var j :| 0 <= j < |vs| && IsMeta(vs[j].rule) && k == (vs[j].rule, vs[j].message);
        assert all[j] == vs[j];
      }
      assert all[|vs|] == v && forall j :: 0 <= j < |vs| ==> all[j] == vs[j];
    }
  }

  lemma SeenIffRepeated(vs: seq<Violation>, v: Violation, seen: set<(string, string)>)
    requires Seen(vs, seen)
    ensures Kept(vs + [v], |vs|) <==> !(IsMeta(v.rule) && (v.rule, v.message) in seen)
  {
    hide IsMeta;
    var all := vs + [v];
    assert all[|vs|] == v && forall j :: 0 <= j < |vs| ==> all[j] == vs[j];
    if IsMeta(v.rule) && (v.rule, v.message) in seen {
      var j :| 0 <= j < |vs| && IsMeta(vs[j].rule) && (v.rule, v.message) == (vs[j].rule, vs[j].message);
      assert SameMeta(all[j], all[|vs|]);
    }
  }

  // Order.

  /** The sort's `less`: by file, line, rule, message. */
  predicate Before(a: Violation, b: Violation) {
    if a.file != b.file then Less(a.file, b.file)
    else if a.line != b.line then a.line < b.line
    else if a.rule != b.rule then Less(a.rule, b.rule)
    else Less(a.message, b.message)
  }

  predicate NotAfter(a: Violation, b: Violation) {
    !Before(b, a)
  }

  predicate SameKey(a: Violation, b: Violation) {
    a.file == b.file && a.line == b.line && a.rule == b.rule && a.message == b.message
  }

  lemma CompareStrings(a: Violation, b: Violation)
    ensures NotAfter(a, b) || NotAfter(b, a)
    ensures NotAfter(a, b) && NotAfter(b, a) <==> SameKey(a, b)
  {
    LessTotal(a.file, b.file);
    LessTotal(a.rule, b.rule);
    LessTotal(a.message, b.message);
  }

  lemma NotAfterTransitive(a: Violation, b: Violation, c: Violation)
    requires NotAfter(a, b) && NotAfter(b, c)
    ensures NotAfter(a, c)
  {
    CompareStrings(a, b);
    CompareStrings(b, c);
    CompareStrings(a, c);
    LessTotal(a.file, b.file);
    LessTotal(b.file, c.file);
    LessTotal(a.rule, b.rule);
    LessTotal(b.rule, c.rule);
    LessTotal(a.message, b.message);
    LessTotal(b.message, c.message);
    if Less(a.file, b.file) && Less(b.file, c.file) { LessTransitive(a.file, b.file, c.file); }
    if Less(a.rule, b.rule) && Less(b.rule, c.rule) { LessTransitive(a.rule, b.rule, c.rule); }
    if Less(a.message, b.message) && Less(b.message, c.message) { LessTransitive(a.message, b.message, c.message); }
    LessTotal(a.file, c.file);
    LessTotal(a.rule, c.rule);
    LessTotal(a.message, c.message);
  }

  lemma ViolationOrder()
    ensures TotalPreorder(NotAfter)
  {
    forall a: Violation, b: Violation
      ensures NotAfter(a, b) || NotAfter(b, a)
    {
      CompareStrings(a, b);
    }
    forall a: Violation, b: Violation, c: Violation | NotAfter(a, b) && NotAfter(b, c)
      ensures NotAfter(a, c)
    {
      NotAfterTransitive(a, b, c);
    }
  }

  // Run.

  function Final(collected: seq<Violation>): seq<Violation> {
    Sort(NotAfter, Dedupe(collected))
  }

  /** What a run that is not rejected returns. */
  function Result(rs: RuleSet, overrides: Overrides): seq<Violation> {
    Final(Collect(rs.skip, overrides, Emissions(rs.rules)))
  }

  datatype RuleSetError =
    | InvalidRuleSeverity(rule: nat)
    | InvalidViolationSeverity(rule: nat, id: string)
    | DuplicateRule(id: string)
    | DuplicateViolation(rule: nat, id: string)

  /** Every catalogue severity is one of the two, and among rules that have an ID the rule IDs are
      distinct and each one's violation IDs are distinct. */
  ghost predicate ValidRuleSet(rules: seq<Rule>) {
    && (forall i :: 0 <= i < |rules| ==> ValidSpec(rules[i].spec))
    && (forall i, j :: 0 <= i < j < |rules| && rules[i].spec.id != "" ==> rules[i].spec.id != rules[j].spec.id)
  }

  ghost predicate ValidSpec(spec: RuleSpec) {
    && ValidSeverity(spec.defaultSeverity)
    && (forall i :: 0 <= i < |spec.violations| ==> ValidSeverity(spec.violations[i].defaultSeverity))
    && (spec.id != "" ==> forall i, j :: 0 <= i < j < |spec.violations| ==> spec.violations[i].id != spec.violations[j].id)
  }

  /** What each complaint about the n-th rule's own catalogue means. */
  ghost predicate SpecFault(n: nat, spec: RuleSpec, e: RuleSetError) {
    match e
    case InvalidRuleSeverity(r) => r == n && !ValidSeverity(spec.defaultSeverity)
    case InvalidViolationSeverity(r, id) =>
      r == n && exists k :: 0 <= k < |spec.violations| && InvalidEntry(spec.violations[k], id)
    case DuplicateRule(_) => false
    case DuplicateViolation(r, id) =>
      r == n && spec.id != "" && exists k, l :: 0 <= k < l < |spec.violations| && spec.violations[k].id == id && spec.violations[l].id == id
  }

  predicate InvalidEntry(v: ViolationSpec, id: string) {
    v.id == id && !ValidSeverity(v.defaultSeverity)
  }

  ghost predicate Faulty(rules: seq<Rule>, e: RuleSetError) {
    if e.DuplicateRule? then
      e.id != "" && exists i, j :: 0 <= i < j < |rules| && rules[i].spec.id == e.id && rules[j].spec.id == e.id
    else exists n :: 0 <= n < |rules| && SpecFault(n, rules[n].spec, e)
  }

  method ValidateSpec(n: nat, spec: RuleSpec) returns (errs: seq<RuleSetError>)
    ensures forall e :: e in errs <==> SpecFault(n, spec, e)
  {
    errs := [];
    if !ValidSeverity(spec.defaultSeverity) {
      errs := errs + [InvalidRuleSeverity(n)];
    }
    for i := 0 to |spec.violations|
      invariant forall e :: e in errs <==>
        || (e == InvalidRuleSeverity(n) && !ValidSeverity(spec.defaultSeverity))
        || (e.InvalidViolationSeverity? && e.rule == n && exists k :: 0 <= k < i && InvalidEntry(spec.violations[k], e.id))
    {
      if !ValidSeverity(spec.violations[i].defaultSeverity) {
        errs := errs + [InvalidViolationSeverity(n, spec.violations[i].id)];
      }
    }
    if spec.id == "" {
      return;
    }
    var seen: set<string> := {};
    ghost var before := errs;
    for i := 0 to |spec.violations|
      invariant forall x :: x in seen <==> exists k :: 0 <= k < i && spec.violations[k].id == x
      invariant forall e :: e in errs <==>
        || e in before
        || (e.DuplicateViolation? && e.rule == n && exists k, l :: 0 <= k < l < i && spec.violations[k].id == e.id && spec.violations[l].id == e.id)
    {
      var id := spec.violations[i].id;
      if id in seen {
        errs := errs + [DuplicateViolation(n, id)];
      }
      seen := seen + {id};
    }
  }

  /** validateRuleSet: the reports are exactly the faults of the rule set, so there are none
      exactly for a valid one. */
  method ValidateRuleSet(rules: seq<Rule>) returns (errs: seq<RuleSetError>)
    ensures forall e :: e in errs <==> Faulty(rules, e)
    ensures errs == [] <==> ValidRuleSet(rules)
  {
    hide SpecFault, ValidRuleSet;
    errs := [];
    var seen: set<string> := {};
    for n := 0 to |rules|
      invariant forall x :: x in seen <==> x != "" && exists k :: 0 <= k < n && rules[k].spec.id == x
      invariant forall e :: e in errs <==> Faulty(rules[..n], e)
    {
      var spec := rules[n].spec;
      FaultyStep(rules[..n], rules[n]);
      assert rules[..n + 1] == rules[..n] + [rules[n]];
      if spec.id in seen {
        errs := errs + [DuplicateRule(spec.id)];
      }
      var found := ValidateSpec(n, spec);
      errs := errs + found;
      if spec.id != "" {
        seen := seen + {spec.id};
      }
    }
    assert rules[..|rules|] == rules;
    NoFaultIffValid(rules);
    assert errs != [] ==> errs[0] in errs;
  }

  lemma FaultyStep(rules: seq<Rule>, r: Rule)
    ensures forall e :: Faulty(rules + [r], e) <==>
      || Faulty(rules, e)
      || SpecFault(|rules|, r.spec, e)
      || (e == DuplicateRule(r.spec.id) && r.spec.id != "" && exists i :: 0 <= i < |rules| && rules[i].spec.id == r.spec.id)
  {
    var all := rules + [r];
    assert all[|rules|] == r && forall i :: 0 <= i < |rules| ==> all[i] == rules[i];
    forall e
      ensures Faulty(all, e) <==>
        || Faulty(rules, e)
        || SpecFault(|rules|, r.spec, e)
        || (e == DuplicateRule(r.spec.id) && r.spec.id != "" && exists i :: 0 <= i < |rules| && rules[i].spec.id == r.spec.id)
    {
    }
  }

  lemma NoFaultIffValid(rules: seq<Rule>)
    ensures (forall e :: !Faulty(rules, e)) <==> ValidRuleSet(rules)
  {
    if forall e :: !Faulty(rules, e) {
      forall i | 0 <= i < |rules|
        ensures ValidSpec(rules[i].spec)
      {
        FaultlessSpec(rules, i);
      }
      forall i, j | 0 <= i < j < |rules| && rules[i].spec.id != ""
        ensures rules[i].spec.id != rules[j].spec.id
      {
        assert !Faulty(rules, DuplicateRule(rules[i].spec.id));
      }
    }
    if ValidRuleSet(rules) {
      forall e
        ensures !Faulty(rules, e)
      {
      }
    }
  }

  lemma FaultlessSpec(rules: seq<Rule>, n: nat)
    requires n < |rules| && forall e :: !Faulty(rules, e)
    ensures ValidSpec(rules[n].spec)
  {
    var spec := rules[n].spec;
    assert !Faulty(rules, InvalidRuleSeverity(n)) && !SpecFault(n, spec, InvalidRuleSeverity(n));
    forall i | 0 <= i < |spec.violations|
      ensures ValidSeverity(spec.violations[i].defaultSeverity)
    {
      var e := InvalidViolationSeverity(n, spec.violations[i].id);
      assert !Faulty(rules, e) && !SpecFault(n, spec, e);
      assert !InvalidEntry(spec.violations[i], e.id);
    }
    forall i, j | spec.id != "" && 0 <= i < j < |spec.violations|
      ensures spec.violations[i].id != spec.violations[j].id
    {
      var e := DuplicateViolation(n, spec.violations[i].id);
      assert !Faulty(rules, e) && !SpecFault(n, spec, e);
    }
  }

  ghost function AllKnown(rules: seq<Rule>): set<string> {
    set i, id | 0 <= i < |rules| && id in KnownIds(rules[i].spec) :: id
  }

  /** IDs a caller may filter or override: catalogued somewhere, or meta. */
  ghost predicate Allowed(rules: seq<Rule>, ids: set<string>) {
    forall id :: id in ids ==> id in AllKnown(rules) || IsMeta(id)
  }

  method CheckUnknown(rules: seq<Rule>, ids: set<string>) returns (ok: bool)
    ensures ok <==> Allowed(rules, ids)
  {
    var known: set<string> := {};
    for n := 0 to |rules|
      invariant forall id :: id in known <==> exists i :: 0 <= i < n && id in KnownIds(rules[i].spec)
    {
      known := known + KnownIds(rules[n].spec);
    }
    ok := forall id :: id in ids ==> id in known || IsMeta(id);
    assert forall id :: id in AllKnown(rules) <==> id in known;
  }

  datatype PanicReason = InvalidArchitecture | InvalidRuleSet | InvalidOverride | UnknownWithout | UnknownOverride

  datatype RunOutcome = Panics(reason: PanicReason) | Completed(violations: seq<Violation>)

  /** The order of the checks that can end a run, and what it returns otherwise. */
  ghost function Expected(arch: Arch, rs: RuleSet, overrides: Overrides): RunOutcome {
    if !ValidArch(arch) then Panics(InvalidArchitecture)
    else if !ValidRuleSet(rs.rules) then Panics(InvalidRuleSet)
    else if exists id :: id in overrides && !ValidSeverity(overrides[id]) then Panics(InvalidOverride)
    else if !Allowed(rs.rules, rs.skip) then Panics(UnknownWithout)
    else if !Allowed(rs.rules, overrides.Keys) then Panics(UnknownOverride)
    else Completed(Result(rs, overrides))
  }

  lemma CollectStep(skip: set<string>, overrides: Overrides, es: seq<Emission>, e: Emission)
    ensures Collect(skip, overrides, es + [e]) == Collect(skip, overrides, es) + Outcome(skip, overrides, e)
  {
    assert (es + [e])[..|es|] == es;
  }

  lemma EmittedStep(spec: RuleSpec, vs: seq<Violation>, i: nat)
    requires i < |vs|
    ensures Emitted(spec, vs[..i + 1]) == Emitted(spec, vs[..i]) + [Emission(spec, vs[i])]
  {
  }

  /** The loop over one rule's violations. */
  method CollectRule(rs: RuleSet, overrides: Overrides, rule: Rule, before: seq<Violation>, ghost done: seq<Emission>)
    returns (out: seq<Violation>)
    requires before == Collect(rs.skip, overrides, done)
    ensures out == Collect(rs.skip, overrides, done + Emitted(rule.spec, SafeCheck(rule)))
  {
    hide Collect, Emitted;
    var spec, emitted := rule.spec, SafeCheck(rule);
    out := before;
    ghost var es := done;
    EmittedNone(spec);
    for i := 0 to |emitted|
      invariant es == done + Emitted(spec, emitted[..i])
      invariant out == Collect(rs.skip, overrides, es)
    {
      EmittedStep(spec, emitted, i);
      CollectStep(rs.skip, overrides, es, Emission(spec, emitted[i]));
      es := es + [Emission(spec, emitted[i])];
      var v := Rewrite(spec, emitted[i]);
      if v.rule !in rs.skip {
        out := out + [Stamp(overrides, spec, v)];
      }
    }
    assert emitted[..|emitted|] == emitted;
  }

  lemma EmittedNone(spec: RuleSpec)
    ensures Emitted(spec, []) == []
  {
  }

  /** The rule loop: every rule in order, every violation it emitted in order. */
  method CollectAll(rs: RuleSet, overrides: Overrides) returns (out: seq<Violation>)
    ensures out == Collect(rs.skip, overrides, Emissions(rs.rules))
  {
    hide SafeCheck, Emitted;
    out := [];
    for n := 0 to |rs.rules|
      invariant out == Collect(rs.skip, overrides, Emissions(rs.rules[..n]))
    {
      hide Collect;
      assert rs.rules[..n + 1][..n] == rs.rules[..n];
      out := CollectRule(rs, overrides, rs.rules[n], out, Emissions(rs.rules[..n]));
    }
    assert rs.rules[..|rs.rules|] == rs.rules;
  }

  /** core.Run. */
  method Run(arch: Arch, rs: RuleSet, overrides: Overrides) returns (outcome: RunOutcome)
    ensures outcome == Expected(arch, rs, overrides)
  {
    hide ValidArch, ValidRuleSet, Allowed, Holds, Dedupe, Collect, Acyclic;
    var archErrs := Validate(arch);
    if archErrs != [] {
      return Panics(InvalidArchitecture);
    }
    var ruleErrs := ValidateRuleSet(rs.rules);
    if ruleErrs != [] {
      return Panics(InvalidRuleSet);
    }
    if id :| id in overrides && !ValidSeverity(overrides[id]) {
      return Panics(InvalidOverride);
    }
    var ok := CheckUnknown(rs.rules, rs.skip);
    if !ok {
      return Panics(UnknownWithout);
    }
    ok := CheckUnknown(rs.rules, overrides.Keys);
    if !ok {
      return Panics(UnknownOverride);
    }
    var out := CollectAll(rs, overrides);
    var buffer := new Violation[|out|](i requires 0 <= i < |out| => out[i]);
    assert buffer[..] == out;
    var n := DedupeMetaViolations(buffer);
    return Completed(Sort(NotAfter, buffer[..n]));
  }
}
