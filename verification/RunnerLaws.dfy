/** What core.Run promises about its output as a whole: nothing is lost, nothing undeclared gets
    through, and the order does not depend on how rules iterate. */
module RunnerLaws {
  import opened Architecture
  import opened Options
  import opened Runner
  import opened Sorting

  // Dedup.

  lemma DedupeStep(vs: seq<Violation>, v: Violation)
    ensures Dedupe(vs + [v]) == Dedupe(vs) + if Kept(vs + [v], |vs|) then [v] else []
  {
    assert (vs + [v])[..|vs|] == vs;
  }

  ghost predicate Increasing(idx: seq<nat>) {
    forall i, j :: 0 <= i < j < |idx| ==> idx[i] < idx[j]
  }

  /** `kept` lists, in order, exactly the positions that survive, and `out` is what is there. */
  ghost predicate SelectsKept(vs: seq<Violation>, out: seq<Violation>, kept: seq<nat>) {
    && |out| == |kept| && Increasing(kept)
    && (forall i :: i in kept ==> i < |vs|)
    && (forall k :: 0 <= k < |kept| && kept[k] < |vs| ==> out[k] == vs[kept[k]])
    && (forall i :: 0 <= i < |vs| ==> (i in kept <==> Kept(vs, i)))
  }

  lemma KeptInPrefix(vs: seq<Violation>, v: Violation, i: nat)
    requires i < |vs|
    ensures Kept(vs + [v], i) <==> Kept(vs, i)
  {
    var all := vs + [v];
    assert forall j :: 0 <= j <= i ==> all[j] == vs[j];
    if Kept(all, i) {
      forall j | 0 <= j < i
        ensures !SameMeta(vs[j], vs[i])
      {
        assert !SameMeta(all[j], all[i]);
      }
    }
  }

  /** Dedup is the order-preserving subsequence of the non-meta violations and of the first meta
      violation with each rule and message. */
  lemma {:induction false} DedupeIsSubsequence(vs: seq<Violation>) returns (kept: seq<nat>)
    ensures SelectsKept(vs, Dedupe(vs), kept)
  {
    if vs == [] {
      kept := [];
    } else {
      var n := |vs| - 1;
      var init := vs[..n];
      assert vs == init + [vs[n]];
      DedupeStep(init, vs[n]);
      kept := DedupeIsSubsequence(init);
      ExtendSelection(init, vs[n], Dedupe(init), kept);
      if Kept(vs, n) {
        kept := kept + [n];
      }
    }
  }

  lemma ExtendSelection(vs: seq<Violation>, v: Violation, out: seq<Violation>, kept: seq<nat>)
    requires SelectsKept(vs, out, kept)
    ensures if Kept(vs + [v], |vs|) then SelectsKept(vs + [v], out + [v], kept + [|vs|])
            else SelectsKept(vs + [v], out, kept)
  {
    var all := vs + [v];
    forall i | 0 <= i < |vs|
      ensures Kept(all, i) <==> Kept(vs, i)
    {
      KeptInPrefix(vs, v, i);
    }
    hide Kept;
    forall k | 0 <= k < |kept|
      ensures kept[k] < |vs|
    {
      assert kept[k] in kept;
    }
  }

  lemma {:induction false} DedupeKeepsOthers(vs: seq<Violation>, w: Violation)
    requires !IsMeta(w.rule)
    ensures multiset(Dedupe(vs))[w] == multiset(vs)[w]
  {
    if vs != [] {
      var n := |vs| - 1;
      DedupeKeepsOthers(vs[..n], w);
      assert vs == vs[..n] + [vs[n]];
      if vs[n] == w {
        assert Kept(vs, n);
      }
    }
  }

  lemma {:induction false} DedupeMembers(vs: seq<Violation>, x: Violation)
    ensures x in Dedupe(vs) <==> exists i :: 0 <= i < |vs| && vs[i] == x && Kept(vs, i)
  {
    var kept := DedupeIsSubsequence(vs);
    var out := Dedupe(vs);
    if x in out {
      var k :| 0 <= k < |out| && out[k] == x;
      assert kept[k] in kept;
    }
    if i :| 0 <= i < |vs| && vs[i] == x && Kept(vs, i) {
      assert i in kept;
      var k :| 0 <= k < |kept| && kept[k] == i;
      assert out[k] == x;
    }
  }

  lemma {:induction false} FirstOfItsKind(vs: seq<Violation>, j: nat) returns (i: nat)
    requires j < |vs| && IsMeta(vs[j].rule)
    ensures i <= j && SameMeta(vs[i], vs[j]) && Kept(vs, i)
  {
    if Kept(vs, j) {
      i := j;
    } else {
      var k :| 0 <= k < j && SameMeta(vs[k], vs[j]);
      i := FirstOfItsKind(vs, k);
    }
  }

  lemma {:induction false} MetaAtMostOnce(vs: seq<Violation>, w: Violation)
    requires IsMeta(w.rule)
    ensures multiset(Dedupe(vs))[w] <= 1
  {
    if vs != [] {
      hide Dedupe, Kept;
      var init, v := vs[..|vs| - 1], vs[|vs| - 1];
      assert vs == init + [v];
      MetaAtMostOnce(init, w);
      DedupeStep(init, v);
      if v == w && Kept(init + [v], |init|) {
        FreshKey(init, w);
      }
    }
  }

  lemma FreshKey(vs: seq<Violation>, w: Violation)
    requires IsMeta(w.rule) && Kept(vs + [w], |vs|)
    ensures w !in Dedupe(vs) && multiset(Dedupe(vs))[w] == 0
  {
    DedupeMembers(vs, w);
    assert forall i :: 0 <= i < |vs| ==> (vs + [w])[i] == vs[i] && !SameMeta(vs[i], w);
  }

  /** A meta violation survives exactly once, as the first with its rule and message. */
  lemma MetaSurvivesOnce(vs: seq<Violation>, j: nat) returns (x: Violation)
    requires j < |vs| && IsMeta(vs[j].rule)
    ensures SameMeta(x, vs[j]) && multiset(Dedupe(vs))[x] == 1
    ensures forall y :: y in Dedupe(vs) && SameMeta(y, vs[j]) ==> y == x
  {
    var i := FirstOfItsKind(vs, j);
    x := vs[i];
    DedupeMembers(vs, x);
    MetaAtMostOnce(vs, x);
    assert x in multiset(Dedupe(vs));
    forall y | y in Dedupe(vs) && SameMeta(y, vs[j])
      ensures y == x
    {
      DedupeMembers(vs, y);
      var k :| 0 <= k < |vs| && vs[k] == y && Kept(vs, k);
      assert SameMeta(vs[i], vs[k]) && SameMeta(vs[k], vs[i]);
    }
  }

  // Conservation.

  ghost function Occurrences(skip: set<string>, overrides: Overrides, es: seq<Emission>, w: Violation): nat {
    if es == [] then 0
    else Occurrences(skip, overrides, es[..|es| - 1], w) + if Process(skip, overrides, es[|es| - 1]) == Some(w) then 1 else 0
  }

  lemma {:induction false} CollectCounts(skip: set<string>, overrides: Overrides, es: seq<Emission>, w: Violation)
    ensures multiset(Collect(skip, overrides, es))[w] == Occurrences(skip, overrides, es, w)
  {
    hide Process;
    if es != [] {
      CollectCounts(skip, overrides, es[..|es| - 1], w);
    }
  }

  lemma {:induction false} CollectMember(skip: set<string>, overrides: Overrides, es: seq<Emission>, w: Violation)
    ensures w in Collect(skip, overrides, es) <==> exists k :: 0 <= k < |es| && Process(skip, overrides, es[k]) == Some(w)
  {
    hide Process;
    if es != [] {
      var n := |es| - 1;
      CollectMember(skip, overrides, es[..n], w);
      assert forall k :: 0 <= k < n ==> es[..n][k] == es[k];
    }
  }

  lemma ResultMembers(rs: RuleSet, overrides: Overrides)
    ensures var n := Collect(rs.skip, overrides, Emissions(rs.rules));
            && multiset(Result(rs, overrides)) == multiset(Dedupe(n))
            && forall x :: x in Result(rs, overrides) <==> x in Dedupe(n)
  {
    var d := Dedupe(Collect(rs.skip, overrides, Emissions(rs.rules)));
    assert multiset(Sort(NotAfter, d)) == multiset(d);
    assert forall x :: x in d <==> x in multiset(d);
    assert forall x :: x in Sort(NotAfter, d) <==> x in multiset(Sort(NotAfter, d));
  }

  lemma StampKeeps(overrides: Overrides, spec: RuleSpec, v: Violation)
    ensures var w := Stamp(overrides, spec, v);
            w.file == v.file && w.line == v.line && w.rule == v.rule && w.message == v.message && w.fix == v.fix
  {
  }

  /** What becomes of the k-th emitted violation. Filtered ones are those whose (rewritten) ID was
      given to Without. The others keep file and line; if not meta, the output has one copy for
      each emission that gives it; if meta, the output has exactly one with that rule and message. */
  lemma Conservation(rs: RuleSet, overrides: Overrides, k: nat)
    requires k < |Emissions(rs.rules)|
    ensures var e := Emissions(rs.rules)[k];
            var out := Result(rs, overrides);
            match Process(rs.skip, overrides, e)
            case None => Rewrite(e.spec, e.violation).rule in rs.skip
            case Some(w) =>
              && w.file == e.violation.file && w.line == e.violation.line
              && (!IsMeta(w.rule) ==>
                    && w in out
                    && multiset(out)[w] == Occurrences(rs.skip, overrides, Emissions(rs.rules), w))
              && (IsMeta(w.rule) ==>
                    exists x :: x in out && SameMeta(x, w) && multiset(out)[x] == 1 && forall y :: y in out && SameMeta(y, w) ==> y == x)
  {
    hide Emissions, Collect, Sort, Dedupe, Result, SameMeta, IsMeta, Stamp, Occurrences;
    var es := Emissions(rs.rules);
    StampKeeps(overrides, es[k].spec, Rewrite(es[k].spec, es[k].violation));
    var n := Collect(rs.skip, overrides, es);
    var p := Process(rs.skip, overrides, es[k]);
    if p.Some? {
      var w := p.value;
      CollectMember(rs.skip, overrides, es, w);
      ResultMembers(rs, overrides);
      CollectCounts(rs.skip, overrides, es, w);
      if IsMeta(w.rule) {
        var j :| 0 <= j < |n| && n[j] == w;
        var x := MetaSurvivesOnce(n, j);
        assert x in multiset(Dedupe(n));
      } else {
        DedupeKeepsOthers(n, w);
        assert w in multiset(n) && w in multiset(Dedupe(n));
      }
    }
  }

  /** Nothing else is in the output: each violation there comes from an emission, is not one that
      Without names, is declared by the rule that emitted it or meta, and has severities that are
      Error or Warning, the effective one being the override if there is one. */
  lemma OutputOrigin(arch: Arch, rs: RuleSet, overrides: Overrides, x: Violation)
    requires Expected(arch, rs, overrides).Completed? && x in Expected(arch, rs, overrides).violations
    ensures exists k :: 0 <= k < |Emissions(rs.rules)| && Process(rs.skip, overrides, Emissions(rs.rules)[k]) == Some(x)
                        && (IsMeta(x.rule) || x.rule in KnownIds(Emissions(rs.rules)[k].spec))
    ensures x.rule !in rs.skip
    ensures ValidSeverity(x.defaultSeverity) && ValidSeverity(x.effectiveSeverity)
    ensures x.effectiveSeverity == if x.rule in overrides then overrides[x.rule] else x.defaultSeverity
  {
    ResultIsExpected(arch, rs, overrides);
    ExpectedIsChecked(arch, rs, overrides);
    hide *;
    var es := Emissions(rs.rules);
    ResultMembers(rs, overrides);
    DedupeMembers(Collect(rs.skip, overrides, es), x);
    CollectMember(rs.skip, overrides, es, x);
    var k :| 0 <= k < |es| && Process(rs.skip, overrides, es[k]) == Some(x);
    EmissionSpec(rs.rules, k);
    var i :| 0 <= i < |rs.rules| && es[k].spec == rs.rules[i].spec;
    DefaultsValid(es[k].spec, x.rule);
    Stamped(rs, overrides, es[k], x);
  }

  lemma ExpectedIsChecked(arch: Arch, rs: RuleSet, overrides: Overrides)
    requires Expected(arch, rs, overrides).Completed?
    ensures forall i :: 0 <= i < |rs.rules| ==> ValidSpec(rs.rules[i].spec)
    ensures forall id :: id in overrides ==> ValidSeverity(overrides[id])
  {
    hide ValidArch, ValidSpec, Allowed, Result;
  }

  /** What rewriting, filtering and stamping leave. */
  lemma Stamped(rs: RuleSet, overrides: Overrides, e: Emission, x: Violation)
    requires Process(rs.skip, overrides, e) == Some(x) && ValidSeverity(Declared(e.spec, x.rule))
    requires forall id :: id in overrides ==> ValidSeverity(overrides[id])
    ensures IsMeta(x.rule) || x.rule in KnownIds(e.spec)
    ensures x.rule !in rs.skip
    ensures ValidSeverity(x.defaultSeverity) && ValidSeverity(x.effectiveSeverity)
    ensures x.effectiveSeverity == if x.rule in overrides then overrides[x.rule] else x.defaultSeverity
  {
    UnknownIsMeta();
    hide IsMeta, KnownIds, Declared;
  }

  lemma UnknownIsMeta()
    ensures IsMeta(UNKNOWN_ID) && IsMeta(RULE_PANIC)
  {
  }

  lemma {:induction false} EmissionSpec(rules: seq<Rule>, k: nat)
    requires k < |Emissions(rules)|
    ensures exists i :: 0 <= i < |rules| && Emissions(rules)[k].spec == rules[i].spec && Emissions(rules)[k].violation in SafeCheck(rules[i])
  {
    hide SafeCheck;
    var n := |rules| - 1;
    if k < |Emissions(rules[..n])| {
      EmissionSpec(rules[..n], k);
    } else {
      assert Emissions(rules)[k].spec == rules[n].spec;
    }
  }

  lemma DefaultsValid(spec: RuleSpec, id: string)
    requires ValidSpec(spec)
    ensures ValidSeverity(Declared(spec, id))
  {
    DefaultsFromCatalogue(spec.violations, id);
  }

  lemma {:induction false} DefaultsFromCatalogue(vs: seq<ViolationSpec>, id: string)
    ensures id in Defaults(vs) ==> exists i :: 0 <= i < |vs| && vs[i].id == id && vs[i].defaultSeverity == Defaults(vs)[id]
  {
    if vs != [] {
      DefaultsFromCatalogue(vs[..|vs| - 1], id);
    }
  }

  /** With a catalogue that passes validation the declared default of an ID is its own entry's. */
  lemma {:induction false} CatalogueSeverity(spec: RuleSpec, i: nat)
    requires ValidSpec(spec) && spec.id != "" && i < |spec.violations|
    ensures Declared(spec, spec.violations[i].id) == spec.violations[i].defaultSeverity
  {
    DefaultsOfEntry(spec.violations, i);
  }

  lemma {:induction false} DefaultsOfEntry(vs: seq<ViolationSpec>, i: nat)
    requires i < |vs| && forall k, l :: 0 <= k < l < |vs| ==> vs[k].id != vs[l].id
    ensures vs[i].id in Defaults(vs) && Defaults(vs)[vs[i].id] == vs[i].defaultSeverity
  {
    var n := |vs| - 1;
    if i < n {
      DefaultsOfEntry(vs[..n], i);
    }
  }

  /** Nothing the caller or a catalogue says changes the default of this ID. */
  ghost predicate LeftAlone(rs: RuleSet, overrides: Overrides, id: string) {
    id !in rs.skip && id !in overrides && forall i :: 0 <= i < |rs.rules| ==> id !in Defaults(rs.rules[i].spec.violations)
  }

  /** A rule that panics, or emits an ID it did not declare, leaves an error in the output: a run
      whose analysis is incomplete does not pass. */
  lemma FailuresBlock(arch: Arch, rs: RuleSet, overrides: Overrides, k: nat)
    requires Expected(arch, rs, overrides).Completed? && k < |Emissions(rs.rules)|
    requires var e := Emissions(rs.rules)[k];
             e.violation.rule == RULE_PANIC || (e.violation.rule !in KnownIds(e.spec) && !IsMeta(e.violation.rule))
    requires LeftAlone(rs, overrides, RULE_PANIC) && LeftAlone(rs, overrides, UNKNOWN_ID)
    ensures exists x :: x in Result(rs, overrides) && (x.rule == RULE_PANIC || x.rule == UNKNOWN_ID) && x.effectiveSeverity == ERROR
  {
    hide Emissions, Collect, Sort, Dedupe, Result, Expected, KnownIds, Occurrences, LeftAlone;
    var e := Emissions(rs.rules)[k];
    UnknownIsMeta();
    Conservation(rs, overrides, k);
    NotSkipped(rs, overrides, RULE_PANIC);
    NotSkipped(rs, overrides, UNKNOWN_ID);
    var w := Process(rs.skip, overrides, e).value;
    var x :| x in Result(rs, overrides) && SameMeta(x, w);
    FailureIsError(arch, rs, overrides, x);
  }

  lemma NotSkipped(rs: RuleSet, overrides: Overrides, id: string)
    requires LeftAlone(rs, overrides, id)
    ensures id !in rs.skip
  {
  }

  lemma FailureIsError(arch: Arch, rs: RuleSet, overrides: Overrides, x: Violation)
    requires Expected(arch, rs, overrides).Completed? && x in Result(rs, overrides)
    requires (x.rule == RULE_PANIC || x.rule == UNKNOWN_ID) && LeftAlone(rs, overrides, x.rule)
    ensures x.effectiveSeverity == ERROR
  {
    ResultIsExpected(arch, rs, overrides);
    hide Emissions, Process, Result, Expected, KnownIds, IsMeta, LeftAlone;
    OutputOrigin(arch, rs, overrides, x);
    var j :| 0 <= j < |Emissions(rs.rules)| && Process(rs.skip, overrides, Emissions(rs.rules)[j]) == Some(x);
    EmissionSpec(rs.rules, j);
    var i :| 0 <= i < |rs.rules| && Emissions(rs.rules)[j].spec == rs.rules[i].spec;
    FailureStamped(rs, overrides, Emissions(rs.rules)[j], i, x);
  }

  lemma ResultIsExpected(arch: Arch, rs: RuleSet, overrides: Overrides)
    requires Expected(arch, rs, overrides).Completed?
    ensures Expected(arch, rs, overrides).violations == Result(rs, overrides)
  {
    hide ValidArch, ValidRuleSet, Allowed, Result;
  }

  lemma FailureStamped(rs: RuleSet, overrides: Overrides, e: Emission, i: nat, x: Violation)
    requires Process(rs.skip, overrides, e) == Some(x) && i < |rs.rules| && e.spec == rs.rules[i].spec
    requires (x.rule == RULE_PANIC || x.rule == UNKNOWN_ID) && LeftAlone(rs, overrides, x.rule)
    ensures x.effectiveSeverity == ERROR
  {
    hide Rewrite, IsMeta, Defaults;
  }

  // Determinism.

  /** Nothing that is emitted ties, by sort key or by meta key, with something different. */
  ghost predicate Unambiguous(vs: seq<Violation>) {
    forall x, y :: x in vs && y in vs && (SameKey(x, y) || SameMeta(x, y)) ==> x == y
  }

  lemma DedupeCountsUnambiguous(vs: seq<Violation>, w: Violation)
    requires Unambiguous(vs)
    ensures multiset(Dedupe(vs))[w] == if IsMeta(w.rule) then (if w in vs then 1 else 0) else multiset(vs)[w]
  {
    if !IsMeta(w.rule) {
      DedupeKeepsOthers(vs, w);
    } else if w in vs {
      var j :| 0 <= j < |vs| && vs[j] == w;
      var x := MetaSurvivesOnce(vs, j);
      assert x in multiset(Dedupe(vs));
      DedupeMembers(vs, x);
      assert x == w;
    } else {
      DedupeMembers(vs, w);
      assert w !in Dedupe(vs);
    }
  }

  lemma DedupeOfPermutation(a: seq<Violation>, b: seq<Violation>)
    requires multiset(a) == multiset(b) && Unambiguous(a)
    ensures multiset(Dedupe(a)) == multiset(Dedupe(b)) && NoTies(NotAfter, Dedupe(a))
  {
    assert forall x :: x in a <==> x in multiset(a);
    assert forall x :: x in b <==> x in multiset(b);
    forall w
      ensures multiset(Dedupe(a))[w] == multiset(Dedupe(b))[w]
    {
      DedupeCountsUnambiguous(a, w);
      DedupeCountsUnambiguous(b, w);
    }
    forall x, y | x in Dedupe(a) && y in Dedupe(a) && NotAfter(x, y) && NotAfter(y, x)
      ensures x == y
    {
      DedupeMembers(a, x);
      DedupeMembers(a, y);
      CompareStrings(x, y);
    }
  }

  lemma UnambiguousIsDetermined(a: seq<Violation>, b: seq<Violation>)
    requires multiset(a) == multiset(b) && Unambiguous(a)
    ensures Final(a) == Final(b)
  {
    hide NotAfter, Dedupe, Unambiguous, Sort, NoTies, TotalPreorder, Ordered;
    DedupeOfPermutation(a, b);
    ViolationOrder();
    SortOrdered(NotAfter, Dedupe(a));
    SortOrdered(NotAfter, Dedupe(b));
    SortKeepsNoTies(Dedupe(a));
    assert multiset(Final(a)) == multiset(Dedupe(a));
    assert multiset(Final(b)) == multiset(Dedupe(b));
    OrderedUnique(NotAfter, Final(a), Final(b));
  }

  lemma SortKeepsNoTies(vs: seq<Violation>)
    requires NoTies(NotAfter, vs)
    ensures NoTies(NotAfter, Sort(NotAfter, vs))
  {
    hide NotAfter;
    var s := Sort(NotAfter, vs);
    forall x | x in s
      ensures x in vs
    {
      assert x in multiset(s) && x in multiset(vs);
    }
  }

  /** Two things that tie, followed by the rest, come out in the order they went in; or, if meta,
      only the first comes out. */
  lemma {:induction false} DedupePrefix(a: seq<Violation>, b: seq<Violation>)
    ensures Dedupe(a) <= Dedupe(a + b)
  {
    if b == [] {
      assert a + b == a;
    } else {
      var n := |b| - 1;
      DedupePrefix(a, b[..n]);
      assert a + b == (a + b[..n]) + [b[n]];
      DedupeStep(a + b[..n], b[n]);
    }
  }

  lemma TiedPairShows(x: Violation, y: Violation, rest: seq<Violation>)
    requires SameKey(x, y) && !IsMeta(x.rule) && x != y
    ensures Ties(NotAfter, x, Final([x, y] + rest)) != [] && Ties(NotAfter, x, Final([x, y] + rest))[0] == x
  {
    hide Sort, NotAfter, Ties, Kept;
    var all := [x, y] + rest;
    FirstKept(x, [y] + rest);
    assert [x] + ([y] + rest) == all;
    var d := Dedupe(all);
    ViolationOrder();
    hide TotalPreorder;
    SortIsStable(NotAfter, x, d);
    CompareStrings(x, x);
    TiesCons(NotAfter, x, x, d[1..]);
    assert d == [x] + d[1..];
  }

  lemma FirstKept(x: Violation, rest: seq<Violation>)
    ensures Dedupe([x] + rest) != [] && Dedupe([x] + rest)[0] == x
  {
    DedupePrefix([x], rest);
    assert [x][..0] == [];
    assert Dedupe([x]) == [x];
  }

  lemma MetaPairShows(x: Violation, y: Violation, rest: seq<Violation>)
    requires SameMeta(x, y) && x != y
    ensures x in Final([x, y] + rest) && y !in Final([x, y] + rest)
  {
    var all := [x, y] + rest;
    assert all[0] == x && all[1] == y;
    assert Kept(all, 0);
    DedupeMembers(all, x);
    DedupeMembers(all, y);
    forall i | 0 <= i < |all| && all[i] == y
      ensures !Kept(all, i)
    {
      assert i > 0 && SameMeta(all[0], all[i]);
    }
    var d := Dedupe(all);
    assert multiset(Final(all)) == multiset(d);
    assert x in multiset(d) && y !in multiset(d);
  }

  lemma PairFirst(vs: seq<Violation>, x: Violation, y: Violation) returns (rest: seq<Violation>)
    requires x in vs && y in vs && x != y
    ensures multiset([x, y] + rest) == multiset(vs) == multiset([y, x] + rest)
  {
    var r := PullOut(vs, x);
    rest := PullOut(r, y);
    assert [x, y] + rest == [x] + ([y] + rest);
    assert [y, x] + rest == [y] + ([x] + rest);
  }

  /** The output depends only on which violations were collected, not on their order, exactly when
      nothing collected is ambiguous. */
  lemma OrderIndependentIff(vs: seq<Violation>)
    ensures (forall ws :: multiset(ws) == multiset(vs) ==> Final(ws) == Final(vs)) <==> Unambiguous(vs)
  {
    hide Final, Unambiguous;
    if Unambiguous(vs) {
      forall ws | multiset(ws) == multiset(vs)
        ensures Final(ws) == Final(vs)
      {
        UnambiguousIsDetermined(vs, ws);
      }
    } else {
      var ws := AmbiguityShows(vs);
    }
  }

  lemma AmbiguityShows(vs: seq<Violation>) returns (ws: seq<Violation>)
    requires !Unambiguous(vs)
    ensures multiset(ws) == multiset(vs) && Final(ws) != Final(vs)
  {
    hide Final;
    var x, y :| x in vs && y in vs && (SameKey(x, y) || SameMeta(x, y)) && x != y;
    var rest := PairFirst(vs, x, y);
    Distinguished(x, y, rest);
    ws := if Final([x, y] + rest) != Final(vs) then [x, y] + rest else [y, x] + rest;
  }

  lemma Distinguished(x: Violation, y: Violation, rest: seq<Violation>)
    requires (SameKey(x, y) || SameMeta(x, y)) && x != y
    ensures Final([x, y] + rest) != Final([y, x] + rest)
  {
    hide Final, NotAfter;
    if IsMeta(x.rule) {
      MetaPairShows(x, y, rest);
      MetaPairShows(y, x, rest);
    } else {
      TiedPairShows(x, y, rest);
      TiedPairShows(y, x, rest);
      SameTies(x, y, Final([x, y] + rest));
    }
  }

  lemma {:induction false} SameTies(x: Violation, y: Violation, vs: seq<Violation>)
    requires SameKey(x, y)
    ensures Ties(NotAfter, x, vs) == Ties(NotAfter, y, vs)
  {
    if vs != [] {
      SameTies(x, y, vs[1..]);
    }
  }

  lemma {:induction false} CollectAppend(skip: set<string>, overrides: Overrides, a: seq<Emission>, b: seq<Emission>)
    ensures Collect(skip, overrides, a + b) == Collect(skip, overrides, a) + Collect(skip, overrides, b)
  {
    hide Outcome;
    if b == [] {
      assert a + b == a;
    } else {
      hide *;
      var init, e := b[..|b| - 1], b[|b| - 1];
      CollectAppend(skip, overrides, a, init);
      LastApart(a, b);
      CollectStep(skip, overrides, a + init, e);
      CollectStep(skip, overrides, init, e);
      Regroup(Collect(skip, overrides, a), Collect(skip, overrides, init), Outcome(skip, overrides, e));
    }
  }

  lemma LastApart<T>(a: seq<T>, b: seq<T>)
    requires b != []
    ensures b == b[..|b| - 1] + [b[|b| - 1]] && a + b == (a + b[..|b| - 1]) + [b[|b| - 1]]
  {
  }

  lemma Regroup<T>(a: seq<T>, b: seq<T>, c: seq<T>)
    ensures (a + b) + c == a + (b + c)
  {
  }

  lemma {:induction false} CollectOfPermutation(skip: set<string>, overrides: Overrides, a: seq<Emission>,
      b: seq<Emission>)
    requires multiset(a) == multiset(b)
    ensures multiset(Collect(skip, overrides, a)) == multiset(Collect(skip, overrides, b))
    decreases |a|
  {
    if a == [] {
      SameSize(a, b);
    } else {
      var k := SharedElement(a, b);
      CollectOfPermutation(skip, overrides, a[..0] + a[1..], b[..k] + b[k + 1..]);
      CollectWithout(skip, overrides, a, 0);
      CollectWithout(skip, overrides, b, k);
    }
  }

  lemma CollectWithout(skip: set<string>, overrides: Overrides, es: seq<Emission>, k: nat)
    requires k < |es|
    ensures multiset(Collect(skip, overrides, es))
         == multiset(Collect(skip, overrides, es[..k] + es[k + 1..])) + multiset(Outcome(skip, overrides, es[k]))
  {
    hide Collect, Outcome;
    assert es == (es[..k] + [es[k]]) + es[k + 1..];
    CollectAppend(skip, overrides, es[..k] + [es[k]], es[k + 1..]);
    CollectStep(skip, overrides, es[..k], es[k]);
    CollectAppend(skip, overrides, es[..k], es[k + 1..]);
  }

  /** Reordering what the rules emit, within a rule or across rules, does not change the result of
      a run, provided nothing emitted is ambiguous after rewriting and stamping. */
  lemma RunIsDeterministic(rs: RuleSet, rs': RuleSet, overrides: Overrides)
    requires rs.skip == rs'.skip && multiset(Emissions(rs.rules)) == multiset(Emissions(rs'.rules))
    requires Unambiguous(Collect(rs.skip, overrides, Emissions(rs.rules)))
    ensures Result(rs, overrides) == Result(rs', overrides)
  {
    CollectOfPermutation(rs.skip, overrides, Emissions(rs.rules), Emissions(rs'.rules));
    UnambiguousIsDetermined(Collect(rs.skip, overrides, Emissions(rs.rules)), Collect(rs.skip, overrides,
        Emissions(rs'.rules)));
  }

  /** The output is in order. */
  lemma ResultIsOrdered(rs: RuleSet, overrides: Overrides)
    ensures Ordered(NotAfter, Result(rs, overrides))
    ensures Sort(NotAfter, Result(rs, overrides)) == Result(rs, overrides)
  {
    ViolationOrder();
    SortOrdered(NotAfter, Dedupe(Collect(rs.skip, overrides, Emissions(rs.rules))));
    SortOfOrdered(NotAfter, Result(rs, overrides));
  }
}
