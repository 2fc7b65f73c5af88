/** What the discount does to the three numbers, and what kind of `if` it is given to. */
module BudgetLaws {
  import opened FmtAgreement
  import opened FmtDirectives
  import opened FmtReference
  import opened GoStrings
  import opened LogicBudget
  import opened Options

  predicate AtMost(a: Cost, b: Cost) {
    a.branches <= b.branches && a.statements <= b.statements && a.bools <= b.bools
  }

  ghost predicate NoneDiscounted(vs: seq<Visit>) {
    forall i :: 0 <= i < |vs| ==> !Discounted(vs[i])
  }

  /** `less` is what is measured with the discount where `all` is without: never more of anything;
      the same visits if no visited `if` qualifies; otherwise strictly fewer statements. */
  ghost predicate Reduces(less: seq<Visit>, all: seq<Visit>) {
    && AtMost(Total(less), Total(all))
    && (NoneDiscounted(all) ==> less == all)
    && (!NoneDiscounted(all) ==> Total(less).statements < Total(all).statements)
  }

  lemma {:induction false} TotalAppend(a: seq<Visit>, b: seq<Visit>)
    ensures Total(a + b) == Plus(Total(a), Total(b))
  {
    if b == [] {
      assert a + b == a;
    } else {
      hide *;
      var init, v := b[..|b| - 1], b[|b| - 1];
      assert b == init + [v] && a + b == (a + init) + [v];
      TotalAppend(a, init);
      TotalStep(a + init, v);
      TotalStep(init, v);
      PlusAssociates(Total(a), Total(init), Weight(v));
    }
  }

  lemma PlusAssociates(a: Cost, b: Cost, c: Cost)
    ensures Plus(Plus(a, b), c) == Plus(a, Plus(b, c))
  {
  }

  lemma ReducesAppend(a: seq<Visit>, a': seq<Visit>, b: seq<Visit>, b': seq<Visit>)
    requires Reduces(a, a') && Reduces(b, b')
    ensures Reduces(a + b, a' + b')
  {
    hide Total, Discounted;
    TotalAppend(a, b);
    TotalAppend(a', b');
    if NoneDiscounted(a' + b') {
      assert forall i :: 0 <= i < |a'| ==> a'[i] == (a' + b')[i];
      assert forall i :: 0 <= i < |b'| ==> b'[i] == (a' + b')[i + |a'|];
    }
  }

  lemma ReducesSame(a: seq<Visit>)
    requires NoneDiscounted(a)
    ensures Reduces(a, a)
  {
  }

  /** A discounted `if` leaves only its init statement where it and its return were counted. */
  lemma ReducesDrop(v: Visit, init: seq<Visit>, init': seq<Visit>, front: seq<Visit>, back: seq<Visit>)
    requires Discounted(v) && Reduces(init, init')
    ensures Reduces(init, [v] + (front + (init' + back)))
  {
    hide Discounted, Reduces;
    var all := [v] + (front + (init' + back));
    TotalAppend([v], front + (init' + back));
    TotalAppend(front, init' + back);
    TotalAppend(init', back);
    assert all[0] == v;
    assert !NoneDiscounted(all);
    VisitedIf(v);
    ReducesBound(init, init');
    assert Total([v]).statements == 1;
    ReducesByOne(init, all);
  }

  lemma VisitedIf(v: Visit)
    requires Discounted(v)
    ensures Total([v]).statements == 1
  {
    assert [v][..0] == [];
    assert Total([v]) == Plus(Total([]), Weight(v));
  }

  lemma ReducesBound(a: seq<Visit>, b: seq<Visit>)
    requires Reduces(a, b)
    ensures AtMost(Total(a), Total(b))
  {
  }

  lemma ReducesByOne(a: seq<Visit>, b: seq<Visit>)
    requires AtMost(Total(a), Total(b)) && Total(a).statements < Total(b).statements && !NoneDiscounted(b)
    ensures Reduces(a, b)
  {
  }

  lemma {:induction false} StmtReduces(ctx: ReturnContext, n: Node)
    ensures Reduces(Visits(false, ctx, n), Visits(true, ctx, n))
    decreases n, 2
  {
    hide Reduces, Total, LitVisits, OptVisits, AllVisits, CaseVisits, CommVisits, OptLits, IsSimpleErrorReturn;
    OnlyIfs(n, ctx);
    if Discounted(Visit(n, ctx)) {
      OptReduces(ctx, n.init);
      ReducesDrop(Visit(n, ctx), OptVisits(false, ctx, n.init), OptVisits(true, ctx, n.init),
                  LitVisits(true, ctx, n.cond), AllVisits(true, ctx, n.body) + OptVisits(true, ctx, n.els));
    } else {
      var here := [Visit(n, ctx)];
      SelfReduces(Visit(n, ctx));
      match n
      case Block(l) => AllReduces(ctx, l);
      case If(i, c, b, e) =>
        LitReduces(ctx, c);
        OptReduces(ctx, i);
        AllReduces(ctx, b);
        OptReduces(ctx, e);
        ReducesAppend(AllVisits(false, ctx, b), AllVisits(true, ctx, b), OptVisits(false, ctx, e), OptVisits(true,
            ctx, e));
        ReducesAppend(OptVisits(false, ctx, i), OptVisits(true, ctx, i),
                      AllVisits(false, ctx, b) + OptVisits(false, ctx, e), AllVisits(true, ctx, b) + OptVisits(true,
                          ctx, e));
        ReducesAppend4(here, LitVisits(false, ctx, c), LitVisits(true, ctx, c),
                       OptVisits(false, ctx, i) + (AllVisits(false, ctx, b) + OptVisits(false, ctx, e)),
                       OptVisits(true, ctx, i) + (AllVisits(true, ctx, b) + OptVisits(true, ctx, e)));
      case For(i, c, p, b) =>
        OptLitsReduces(ctx, c);
        OptReduces(ctx, i);
        OptReduces(ctx, p);
        AllReduces(ctx, b);
        ReducesAppend(OptVisits(false, ctx, p), OptVisits(true, ctx, p), AllVisits(false, ctx, b), AllVisits(true,
            ctx, b));
        ReducesAppend(OptVisits(false, ctx, i), OptVisits(true, ctx, i),
                      OptVisits(false, ctx, p) + AllVisits(false, ctx, b), OptVisits(true, ctx, p) + AllVisits(true,
                          ctx, b));
        ReducesAppend4(here, OptLits(false, ctx, c), OptLits(true, ctx, c),
                       OptVisits(false, ctx, i) + (OptVisits(false, ctx, p) + AllVisits(false, ctx, b)),
                       OptVisits(true, ctx, i) + (OptVisits(true, ctx, p) + AllVisits(true, ctx, b)));
      case Range(_, x, b) =>
        LitReduces(ctx, x);
        AllReduces(ctx, b);
        ReducesAppend4(here, LitVisits(false, ctx, x), LitVisits(true, ctx, x), AllVisits(false, ctx, b),
            AllVisits(true, ctx, b));
      case Switch(i, t, cs) =>
        OptLitsReduces(ctx, t);
        OptReduces(ctx, i);
        CasesReduce(ctx, cs);
        ReducesAppend(OptVisits(false, ctx, i), OptVisits(true, ctx, i), CaseVisits(false, ctx, cs),
            CaseVisits(true, ctx, cs));
        ReducesAppend4(here, OptLits(false, ctx, t), OptLits(true, ctx, t),
                       OptVisits(false, ctx, i) + CaseVisits(false, ctx, cs), OptVisits(true, ctx,
                           i) + CaseVisits(true, ctx, cs));
      case TypeSwitch(i, a, cs) =>
        OptReduces(ctx, i);
        LitReduces(ctx, a);
        CasesReduce(ctx, cs);
        ReducesAppend(LitVisits(false, ctx, a), LitVisits(true, ctx, a), CaseVisits(false, ctx, cs),
            CaseVisits(true, ctx, cs));
        ReducesAppend4(here, OptVisits(false, ctx, i), OptVisits(true, ctx, i),
                       LitVisits(false, ctx, a) + CaseVisits(false, ctx, cs), LitVisits(true, ctx,
                           a) + CaseVisits(true, ctx, cs));
      case Select(cs) =>
        CommsReduce(ctx, cs);
        ReducesAppend(here, here, CommVisits(false, ctx, cs), CommVisits(true, ctx, cs));
      case _ =>
        LitReduces(ctx, n);
        ReducesAppend(here, here, LitVisits(false, ctx, n), LitVisits(true, ctx, n));
    }
  }

  lemma SelfReduces(v: Visit)
    requires !Discounted(v)
    ensures Reduces([v], [v])
  {
    ReducesSame([v]);
  }

  lemma ReducesAppend4(here: seq<Visit>, a: seq<Visit>, a': seq<Visit>, b: seq<Visit>, b': seq<Visit>)
    requires Reduces(here, here) && Reduces(a, a') && Reduces(b, b')
    ensures Reduces(here + (a + b), here + (a' + b'))
  {
    hide Reduces;
    ReducesAppend(a, a', b, b');
    ReducesAppend(here, here, a + b, a' + b');
  }

  lemma {:induction false} OptReduces(ctx: ReturnContext, n: Option<Node>)
    ensures Reduces(OptVisits(false, ctx, n), OptVisits(true, ctx, n))
    decreases n, 3
  {
    hide Visits, Reduces;
    match n
    case Some(s) => StmtReduces(ctx, s);
    case None => NothingReduces();
  }

  lemma NothingReduces()
    ensures Reduces([], [])
  {
    ReducesSame([]);
  }

  lemma {:induction false} AllReduces(ctx: ReturnContext, ns: seq<Node>)
    ensures Reduces(AllVisits(false, ctx, ns), AllVisits(true, ctx, ns))
    decreases ns, 3
  {
    hide Visits, Reduces;
    if ns == [] {
      NothingReduces();
    } else {
      var init, n := ns[..|ns| - 1], ns[|ns| - 1];
      AllReduces(ctx, init);
      StmtReduces(ctx, n);
      ReducesAppend(AllVisits(false, ctx, init), AllVisits(true, ctx, init), Visits(false, ctx, n), Visits(true,
          ctx, n));
    }
  }

  lemma {:induction false} CasesReduce(ctx: ReturnContext, cs: seq<Node>)
    ensures Reduces(CaseVisits(false, ctx, cs), CaseVisits(true, ctx, cs))
    decreases cs, 4
  {
    hide Reduces, AllVisits, AllLits;
    if cs == [] {
      NothingReduces();
    } else {
      var init, c := cs[..|cs| - 1], cs[|cs| - 1];
      CasesReduce(ctx, init);
      if c.CaseClause? {
        SelfReduces(ClauseVisit(c));
        AllLitsReduces(ctx, c.exprs);
        AllReduces(ctx, c.body);
        ReducesAppend4([ClauseVisit(c)], AllLits(false, ctx, c.exprs), AllLits(true, ctx, c.exprs),
                       AllVisits(false, ctx, c.body), AllVisits(true, ctx, c.body));
      } else {
        NothingReduces();
      }
      ReducesAppend(CaseVisits(false, ctx, init), CaseVisits(true, ctx, init), OneCase(false, ctx, c), OneCase(true,
          ctx, c));
    }
  }

  lemma {:induction false} CommsReduce(ctx: ReturnContext, cs: seq<Node>)
    ensures Reduces(CommVisits(false, ctx, cs), CommVisits(true, ctx, cs))
    decreases cs, 4
  {
    hide Reduces, AllVisits, OptLits;
    if cs == [] {
      NothingReduces();
    } else {
      var init, c := cs[..|cs| - 1], cs[|cs| - 1];
      CommsReduce(ctx, init);
      if c.CommClause? {
        SelfReduces(ClauseVisit(c));
        OptLitsReduces(ctx, c.comm);
        AllReduces(ctx, c.body);
        ReducesAppend4([ClauseVisit(c)], OptLits(false, ctx, c.comm), OptLits(true, ctx, c.comm),
                       AllVisits(false, ctx, c.body), AllVisits(true, ctx, c.body));
      } else {
        NothingReduces();
      }
      ReducesAppend(CommVisits(false, ctx, init), CommVisits(true, ctx, init), OneComm(false, ctx, c), OneComm(true,
          ctx, c));
    }
  }

  lemma {:induction false} LitReduces(ctx: ReturnContext, n: Node)
    ensures Reduces(LitVisits(false, ctx, n), LitVisits(true, ctx, n))
    decreases n, 1
  {
    hide Reduces, AllVisits, ChildLits;
    match n
    case FuncLit(results, b) => AllReduces(NewReturnContext(results, ctx.info), b);
    case _ => ChildLitsReduce(ctx, n, |Children(n)|);
  }

  lemma {:induction false} ChildLitsReduce(ctx: ReturnContext, n: Node, k: nat)
    requires k <= |Children(n)|
    ensures Reduces(ChildLits(false, ctx, n, k), ChildLits(true, ctx, n, k))
    decreases n, 0, k
  {
    hide Reduces, LitVisits;
    if k == 0 {
      NothingReduces();
    } else {
      var c := Children(n)[k - 1];
      ChildLitsReduce(ctx, n, k - 1);
      LitReduces(ctx, c);
      ReducesAppend(ChildLits(false, ctx, n, k - 1), ChildLits(true, ctx, n, k - 1), LitVisits(false, ctx, c),
          LitVisits(true, ctx, c));
    }
  }

  lemma {:induction false} OptLitsReduces(ctx: ReturnContext, n: Option<Node>)
    ensures Reduces(OptLits(false, ctx, n), OptLits(true, ctx, n))
    decreases n, 3
  {
    hide LitVisits, Reduces;
    match n
    case Some(s) => LitReduces(ctx, s);
    case None => NothingReduces();
  }

  lemma {:induction false} AllLitsReduces(ctx: ReturnContext, ns: seq<Node>)
    ensures Reduces(AllLits(false, ctx, ns), AllLits(true, ctx, ns))
    decreases ns, 3
  {
    hide LitVisits, Reduces;
    if ns == [] {
      NothingReduces();
    } else {
      var init, n := ns[..|ns| - 1], ns[|ns| - 1];
      AllLitsReduces(ctx, init);
      LitReduces(ctx, n);
      ReducesAppend(AllLits(false, ctx, init), AllLits(true, ctx, init), LitVisits(false, ctx, n), LitVisits(true,
          ctx, n));
    }
  }

  /** For every function: the discount never raises a number, and it changes the statement count
      exactly when some visited `if` qualifies. */
  lemma DiscountLowers(results: seq<ResultKind>, body: seq<Node>, info: bool)
    ensures var ctx := NewReturnContext(results, info);
            var less, all := AllVisits(false, ctx, body), AllVisits(true, ctx, body);
            && AtMost(Total(less), Total(all))
            && (Total(less).statements == Total(all).statements <==> NoneDiscounted(all))
            && (NoneDiscounted(all) ==> less == all)
  {
    AllReduces(NewReturnContext(results, info), body);
  }

  // What a discounted return hands back.

  /** An error value, or one that wraps others. */
  datatype ErrorValue = Leaf(id: int) | Wrapping(causes: seq<ErrorValue>)

  datatype Value = NilValue | ErrValue(err: ErrorValue) | ZeroValue | EmptyCollection | OtherValue

  /** The values of identifiers, and of everything else that is not a literal. */
  datatype Env = Env(value: string -> Value, expr: Node -> Value)

  /** `nil` and `false` mean what they say. */
  ghost predicate Standard(env: Env) {
    env.value("nil") == NilValue && env.value("false") == ZeroValue
  }

  /** An argument of a call: a basic literal is no error, anything else may be. */
  function ArgValue(env: Env, a: Node): Value {
    match a
    case Ident(name) => env.value(name)
    case BasicLit(_) | StringLit(_, _) => OtherValue
    case _ => env.expr(a)
  }

  function ErrorIn(env: Env, a: Node): seq<ErrorValue> {
    if ArgValue(env, a).ErrValue? then [ArgValue(env, a).err] else []
  }

  /** The errors among the arguments at the given positions. */
  function ErrorsAt(env: Env, args: seq<Node>, positions: seq<nat>): seq<ErrorValue> {
    if positions == [] then []
    else (if positions[0] + 1 < |args| then ErrorIn(env, args[positions[0] + 1]) else []) + ErrorsAt(env, args, positions[1..])
  }

  function JoinedErrors(env: Env, args: seq<Node>): seq<ErrorValue> {
    if args == [] then [] else ErrorIn(env, args[0]) + JoinedErrors(env, args[1..])
  }

  /** fmt.Errorf wraps the arguments that package fmt gives to %w; errors.Join wraps those that are
      not nil and is nil without any. */
  function Eval(env: Env, e: Node): Value {
    match e
    case Ident(name) => env.value(name)
    case BasicLit(text) => if text == "0" then ZeroValue else OtherValue
    case StringLit(value, _) => if value == "" then ZeroValue else OtherValue
    case CompositeLit(t, elts) =>
      if elts != [] then OtherValue else if t == StructOrArray then ZeroValue else EmptyCollection
    case Call(callee, _, args) =>
      if callee == "fmt.Errorf" && args != [] && args[0].StringLit? then
        ErrValue(Wrapping(ErrorsAt(env, args, FmtWraps(args[0].value, 0, |args| - 1))))
      else if callee == "errors.Join" then
        if JoinedErrors(env, args) == [] then NilValue else ErrValue(Wrapping(JoinedErrors(env, args)))
      else env.expr(e)
    case _ => env.expr(e)
  }

  /** The checked error itself, or an error that wraps it and nothing else. */
  predicate CarriesOnly(v: Value, e: ErrorValue) {
    v.ErrValue? && (v.err == e || (v.err.Wrapping? && v.err.causes != [] && forall i :: 0 <= i < |v.err.causes| ==> v.err.causes[i] == e))
  }

  // Formats.

  /** The checked name, or something that is never an error. */
  predicate CarrierArg(a: Node, errName: string) {
    a == Ident(errName) || a == Ident("nil") || a == Ident("false") || a.BasicLit? || a.StringLit?
  }

  /** What package fmt wraps is the checked name, and nothing else that could be an error. */
  predicate FormatCarries(call: Node, errName: string)
    requires call.Call?
  {
    && call.args != [] && call.args[0].StringLit?
    && var ixs := FmtWraps(call.args[0].value, 0, |call.args| - 1);
       && (forall k :: 0 <= k < |ixs| ==> ixs[k] + 1 < |call.args| && CarrierArg(call.args[ixs[k] + 1], errName))
       && (exists k :: 0 <= k < |ixs| && ixs[k] + 1 < |call.args| && call.args[ixs[k] + 1] == Ident(errName))
  }

  predicate FormatsCarry(values: seq<Node>, errName: string) {
    forall i :: 0 <= i < |values| && values[i].Call? && values[i].callee == "fmt.Errorf" ==> FormatCarries(values[i], errName)
  }

  /** An accepted call carries the checked error whenever its format is read alike. */
  lemma AlikeCarries(call: Node, errName: string)
    requires call.Call? && ErrorfWraps(call, errName) && AllAlike(call.args[0].value, 0, |call.args| - 1)
    ensures FormatCarries(call, errName)
  {
    hide WrapArgs, FmtWraps, AllAlike, Below;
    var text, n := call.args[0].value, |call.args| - 1;
    AllAlikeAgree(text, 0, n);
    BelowAll(WrapArgs(text, 0), n);
    var ixs := FmtWraps(text, 0, n);
    assert ixs == WrapArgs(text, 0) && ixs != [];
    assert call.args[ixs[0] + 1] == Ident(errName);
  }

  /** What an accepted call with a single directive carries is decided by that directive, whatever
      its text. Of an unreadable or out-of-range one package fmt wraps nothing. */
  lemma UnreadableIsAccepted(t: string, args: seq<Node>, errName: string)
    requires PartsOf(t).verbAt + 1 == |t| && t[|t| - 1] == 'w'
    requires var k := ScanArg(PartsOf(t), 0); k < |args| && args[k] == Ident(errName)
    ensures var call := Call("fmt.Errorf", OtherExpr([]), [StringLit("%" + t, false)] + args);
            && ErrorfWraps(call, errName)
            && (FormatCarries(call, errName) ==> Readable(PartsOf(t), 'w') && InRange(PartsOf(t), |args|))
            && (Readable(PartsOf(t), 'w') && InRange(PartsOf(t), |args|) && Aligned(PartsOf(t)) ==> FormatCarries(call, errName))
  {
    hide WrapArgs, FmtWraps, PartsOf, Readable, InRange, Aligned, ScanArg;
    SingleWrapIff(t, 0, |args|);
    var all := [StringLit("%" + t, false)] + args;
    var k := ScanArg(PartsOf(t), 0);
    assert all[0] == StringLit("%" + t, false) && all[k + 1] == args[k] && |all| - 1 == |args|;
    assert Min(0, |args|) == 0;
    assert WrapArgs("%" + t, 0)[0] == k;
  }

  // The accepted returns.

  lemma {:induction false} ErrorsAtChecked(env: Env, args: seq<Node>, positions: seq<nat>, errName: string, e: ErrorValue)
    requires Standard(env) && env.value(errName) == ErrValue(e)
    requires forall k :: 0 <= k < |positions| ==> positions[k] + 1 < |args| && CarrierArg(args[positions[k] + 1], errName)
    ensures forall i :: 0 <= i < |ErrorsAt(env, args, positions)| ==> ErrorsAt(env, args, positions)[i] == e
    ensures (exists k :: 0 <= k < |positions| && args[positions[k] + 1] == Ident(errName)) ==> ErrorsAt(env, args, positions) != []
  {
    hide ErrorIn, CarrierArg;
    if positions != [] {
      var a, rest := args[positions[0] + 1], positions[1..];
      assert forall k :: 0 <= k < |rest| ==> rest[k] == positions[k + 1];
      ErrorsAtChecked(env, args, rest, errName, e);
      CheckedArg(env, a, errName, e);
      assert ErrorsAt(env, args, positions) == ErrorIn(env, a) + ErrorsAt(env, args, rest);
      if k :| 0 <= k < |positions| && args[positions[k] + 1] == Ident(errName) {
        assert k > 0 ==> rest[k - 1] == positions[k];
      }
    }
  }

  lemma CheckedArg(env: Env, a: Node, errName: string, e: ErrorValue)
    requires Standard(env) && env.value(errName) == ErrValue(e) && CarrierArg(a, errName)
    ensures ErrorIn(env, a) == [] || ErrorIn(env, a) == [e]
    ensures a == Ident(errName) ==> ErrorIn(env, a) == [e]
  {
  }

  lemma {:induction false} JoinedChecked(env: Env, args: seq<Node>, errName: string, e: ErrorValue)
    requires env.value(errName) == ErrValue(e) && Standard(env)
    requires forall k :: 0 <= k < |args| ==> args[k] == Ident(errName) || args[k] == Ident("nil")
    ensures forall i :: 0 <= i < |JoinedErrors(env, args)| ==> JoinedErrors(env, args)[i] == e
    ensures Ident(errName) in args ==> JoinedErrors(env, args) != []
  {
    if args != [] {
      JoinedChecked(env, args[1..], errName, e);
    }
  }

  lemma ErrorfCarriesOnly(env: Env, call: Node, errName: string, e: ErrorValue)
    requires Standard(env) && env.value(errName) == ErrValue(e)
    requires call.Call? && call.callee == "fmt.Errorf" && FormatCarries(call, errName)
    ensures CarriesOnly(Eval(env, call), e)
  {
    hide FmtWraps, ErrorsAt, ArgValue, CarrierArg;
    ErrorsAtChecked(env, call.args, FmtWraps(call.args[0].value, 0, |call.args| - 1), errName, e);
  }

  lemma JoinCarriesOnly(env: Env, call: Node, errName: string, e: ErrorValue)
    requires Standard(env) && env.value(errName) == ErrValue(e)
    requires call.Call? && call.callee == "errors.Join" && JoinPropagates(call, errName)
    ensures CarriesOnly(Eval(env, call), e)
  {
    hide FmtWraps, ErrorsAt, JoinedErrors;
    JoinedChecked(env, call.args, errName, e);
  }

  lemma PropagatedCarriesOnly(env: Env, v: Node, errName: string, e: ErrorValue)
    requires Standard(env) && env.value(errName) == ErrValue(e)
    requires IsErrorPropagationExpr(v, errName)
    requires v.Call? && v.callee == "fmt.Errorf" ==> FormatCarries(v, errName)
    ensures CarriesOnly(Eval(env, v), e)
  {
    hide FormatCarries, ErrorfWraps, JoinPropagates, JoinedErrors, ErrorsAt, FmtWraps;
    if v.Call? {
      hide Eval, CarriesOnly;
      if v.callee == "fmt.Errorf" {
        ErrorfCarriesOnly(env, v, errName, e);
      } else {
        JoinCarriesOnly(env, v, errName, e);
      }
    }
  }

  /** The value is the zero value of a result type of this kind; the zero interface is nil. */
  predicate IsZeroOf(kind: ResultKind, v: Value) {
    v == NilValue || (v == ZeroValue && kind != InterfaceResult)
  }

  /** There is an error result, each carries the checked error alone, and every other result is its
      type's zero value. */
  ghost predicate OnlyPropagates(env: Env, values: seq<Node>, ctx: ReturnContext, e: ErrorValue) {
    && |values| == |ctx.results| && ErrorResult in ctx.results
    && forall i :: 0 <= i < |values| ==>
         if ctx.results[i] == ErrorResult then CarriesOnly(Eval(env, values[i]), e)
         else IsZeroOf(ctx.results[i], Eval(env, values[i]))
  }

  /** No empty slice or map literal, and nothing but nil where the result is an interface. */
  predicate NoFalseZero(values: seq<Node>, ctx: ReturnContext) {
    forall i :: 0 <= i < |values| && i < |ctx.results| && ctx.results[i] != ErrorResult ==>
      values[i] != CompositeLit(SliceOrMap, []) && (ctx.results[i] == InterfaceResult ==> values[i] == Ident("nil"))
  }

  lemma ZeroExprValue(env: Env, v: Node)
    requires Standard(env) && IsZeroReturnExpr(v)
    ensures Eval(env, v) == NilValue <==> v == Ident("nil")
    ensures Eval(env, v) == EmptyCollection <==> v == CompositeLit(SliceOrMap, [])
    ensures Eval(env, v) == NilValue || Eval(env, v) == ZeroValue || Eval(env, v) == EmptyCollection
  {
  }

  /** What is checked is an error, and the return propagates it and nothing else. */
  ghost predicate PropagatesChecked(env: Env, values: seq<Node>, ctx: ReturnContext, errName: string) {
    env.value(errName).ErrValue? && OnlyPropagates(env, values, ctx, env.value(errName).err)
  }

  /** The half that needs no condition on the other results: every error result carries the checked
      error and no other, there is one, and every other result is nil, a literal zero or an empty
      slice or map. */
  lemma DiscountedOnlyPropagates(env: Env, n: Node, ctx: ReturnContext, errName: string, e: ErrorValue)
    requires IsSimpleErrorReturn(n, ctx) && ErrorNilCheckIdent(n.cond) == Some(errName)
    requires Standard(env) && env.value(errName) == ErrValue(e) && FormatsCarry(n.body[0].values, errName)
    ensures var vs := n.body[0].values;
            && |vs| == |ctx.results|
            && (exists i :: 0 <= i < |vs| && ctx.results[i] == ErrorResult)
            && forall i :: 0 <= i < |vs| ==>
                 if ctx.results[i] == ErrorResult then CarriesOnly(Eval(env, vs[i]), e)
                 else Eval(env, vs[i]) == NilValue || Eval(env, vs[i]) == ZeroValue
                      || (Eval(env, vs[i]) == EmptyCollection && vs[i] == CompositeLit(SliceOrMap, []))
  {
    hide FormatCarries, Eval, CarriesOnly, IsZeroReturnExpr, IsErrorPropagationExpr;
    var vs := n.body[0].values;
    forall i | 0 <= i < |vs| && ctx.results[i] == ErrorResult
      ensures CarriesOnly(Eval(env, vs[i]), e)
    {
      PropagatedCarriesOnly(env, vs[i], errName, e);
    }
    forall i | 0 <= i < |vs| && ctx.results[i] != ErrorResult
      ensures Eval(env, vs[i]) == NilValue || Eval(env, vs[i]) == ZeroValue
           || (Eval(env, vs[i]) == EmptyCollection && vs[i] == CompositeLit(SliceOrMap, []))
    {
      ZeroExprValue(env, vs[i]);
    }
  }

  /** With what the identifiers stand for: where the formats carry the checked error, a discounted
      return propagates it and nothing else exactly when it is an error and there is no false
      zero. */
  lemma DiscountedOnlyPropagatesIff(env: Env, n: Node, ctx: ReturnContext, errName: string)
    requires IsSimpleErrorReturn(n, ctx) && ErrorNilCheckIdent(n.cond) == Some(errName)
    requires Standard(env) && FormatsCarry(n.body[0].values, errName)
    ensures PropagatesChecked(env, n.body[0].values, ctx, errName) <==>
      env.value(errName).ErrValue? && NoFalseZero(n.body[0].values, ctx)
  {
    hide FormatCarries, Eval, CarriesOnly, IsZeroReturnExpr, IsErrorPropagationExpr;
    if env.value(errName).ErrValue? {
      var vs := n.body[0].values;
      DiscountedOnlyPropagates(env, n, ctx, errName, env.value(errName).err);
      forall i | 0 <= i < |vs| && ctx.results[i] != ErrorResult
        ensures IsZeroOf(ctx.results[i], Eval(env, vs[i])) <==>
          vs[i] != CompositeLit(SliceOrMap, []) && (ctx.results[i] == InterfaceResult ==> vs[i] == Ident("nil"))
      {
        ZeroExprValue(env, vs[i]);
      }
    }
  }

  /** Everything but the checked name, `nil`, `false` and literals is some other error. */
  function Hostile(errName: string): (env: Env) {
    Env((x: string) =>
          if x == errName then ErrValue(Leaf(0)) else if x == "nil" then NilValue else if x == "false" then ZeroValue
          else ErrValue(Leaf(1)),
        (e: Node) => ErrValue(Leaf(1)))
  }

  lemma HostileArg(errName: string, a: Node)
    ensures var v := ArgValue(Hostile(errName), a);
            && (v == ErrValue(Leaf(0)) <==> a == Ident(errName))
            && (v.ErrValue? && v != ErrValue(Leaf(0)) <==> !CarrierArg(a, errName))
  {
  }

  predicate OnlyChecked(es: seq<ErrorValue>) {
    forall i :: 0 <= i < |es| ==> es[i] == Leaf(0)
  }

  lemma HostileHead(args: seq<Node>, positions: seq<nat>, errName: string)
    requires positions != [] && positions[0] + 1 < |args|
    requires OnlyChecked(ErrorsAt(Hostile(errName), args, positions))
    ensures OnlyChecked(ErrorsAt(Hostile(errName), args, positions[1..]))
    ensures CarrierArg(args[positions[0] + 1], errName)
    ensures args[positions[0] + 1] != Ident(errName) ==>
      ErrorsAt(Hostile(errName), args, positions) == ErrorsAt(Hostile(errName), args, positions[1..])
  {
    hide Hostile, ArgValue, CarrierArg;
    var a, env := args[positions[0] + 1], Hostile(errName);
    HostileArg(errName, a);
    var es, front, fs := ErrorsAt(env, args, positions), ErrorIn(env, a), ErrorsAt(env, args, positions[1..]);
    assert es == front + fs;
    assert forall i :: 0 <= i < |fs| ==> fs[i] == es[|front| + i];
    if front == [] {
      assert es == fs;
    } else {
      assert es[0] == front[0];
    }
  }

  lemma {:induction false} HostileCarriers(args: seq<Node>, positions: seq<nat>, errName: string)
    requires forall k :: 0 <= k < |positions| ==> positions[k] + 1 < |args|
    requires OnlyChecked(ErrorsAt(Hostile(errName), args, positions))
    ensures forall k :: 0 <= k < |positions| ==> CarrierArg(args[positions[k] + 1], errName)
  {
    hide Hostile, CarrierArg, OnlyChecked, ErrorsAt;
    if positions != [] {
      HostileHead(args, positions, errName);
      HostileCarriers(args, positions[1..], errName);
      assert forall k :: 1 <= k < |positions| ==> positions[1..][k - 1] == positions[k];
    }
  }

  lemma {:induction false} HostileName(args: seq<Node>, positions: seq<nat>, errName: string) returns (k: nat)
    requires forall k :: 0 <= k < |positions| ==> positions[k] + 1 < |args|
    requires OnlyChecked(ErrorsAt(Hostile(errName), args, positions)) && ErrorsAt(Hostile(errName), args, positions) != []
    ensures k < |positions| && args[positions[k] + 1] == Ident(errName)
  {
    hide Hostile, CarrierArg, OnlyChecked;
    HostileHead(args, positions, errName);
    if args[positions[0] + 1] == Ident(errName) {
      k := 0;
    } else {
      k := HostileName(args, positions[1..], errName);
      k := k + 1;
    }
  }

  lemma HostileCall(call: Node, errName: string)
    requires call.Call? && call.callee == "fmt.Errorf" && ErrorfWraps(call, errName)
    requires CarriesOnly(Eval(Hostile(errName), call), Leaf(0))
    ensures FormatCarries(call, errName)
  {
    hide WrapArgs, FmtWraps, Hostile, ArgValue, CarrierArg, ErrorsAt;
    var n := |call.args| - 1;
    var ixs := FmtWraps(call.args[0].value, 0, n);
    WrapsExist(call.args[0].value, 0, n);
    HostileCarriers(call.args, ixs, errName);
    var k := HostileName(call.args, ixs, errName);
    assert ixs[k] + 1 < |call.args| && call.args[ixs[k] + 1] == Ident(errName);
  }

  /** Package fmt only ever wraps arguments that there are. */
  lemma {:induction false} WrapsExist(s: string, next: nat, n: nat)
    ensures forall k :: 0 <= k < |FmtWraps(s, next, n)| ==> FmtWraps(s, next, n)[k] < n
    decreases |s|
  {
    hide FmtWraps, ReadDirective;
    if s == "" {
      NoPercent(s, next, n);
    } else {
      FmtStep(s, next, n);
      if s[0] != '%' {
        WrapsExist(s[1..], next, n);
      } else {
        var d := ReadDirective(s[1..], next, n);
        if d.used + 1 < |s| {
          WrapsExist(s[d.used + 2..], d.next, n);
          WrapsExist(s[d.used + 2..], d.next + 1, n);
        }
      }
    }
  }

  /** Soundness of the discount, for every discounted `if`: whatever the identifiers and expressions
      in its return are, it propagates the checked error and nothing else, exactly when there is no
      false zero and package fmt wraps the checked name and no other possible error. */
  lemma DiscountSoundIff(n: Node, ctx: ReturnContext, errName: string)
    requires IsSimpleErrorReturn(n, ctx) && ErrorNilCheckIdent(n.cond) == Some(errName)
    requires errName != "nil" && errName != "false"
    ensures (forall env :: Standard(env) && env.value(errName).ErrValue? ==> PropagatesChecked(env, n.body[0].values, ctx, errName))
       <==> NoFalseZero(n.body[0].values, ctx) && FormatsCarry(n.body[0].values, errName)
  {
    hide IsSimpleErrorReturn, NoFalseZero, FormatsCarry, PropagatesChecked, ErrorNilCheckIdent, Hostile;
    ReturnShape(n, ctx);
    var vs, worst := n.body[0].values, Hostile(errName);
    if NoFalseZero(vs, ctx) && FormatsCarry(vs, errName) {
      forall env | Standard(env) && env.value(errName).ErrValue?
        ensures PropagatesChecked(env, vs, ctx, errName)
      {
        DiscountedOnlyPropagatesIff(env, n, ctx, errName);
      }
    }
    HostileIsStandard(errName);
    if PropagatesChecked(worst, vs, ctx, errName) {
      HostileReturn(n, ctx, errName);
      DiscountedOnlyPropagatesIff(worst, n, ctx, errName);
    }
  }

  lemma ReturnShape(n: Node, ctx: ReturnContext)
    requires IsSimpleErrorReturn(n, ctx)
    ensures n.If? && |n.body| == 1 && n.body[0].Return?
  {
  }

  lemma HostileIsStandard(errName: string)
    requires errName != "nil" && errName != "false"
    ensures Standard(Hostile(errName)) && Hostile(errName).value(errName) == ErrValue(Leaf(0))
  {
  }

  lemma HostileReturn(n: Node, ctx: ReturnContext, errName: string)
    requires IsSimpleErrorReturn(n, ctx) && ErrorNilCheckIdent(n.cond) == Some(errName)
    requires errName != "nil" && errName != "false"
    requires PropagatesChecked(Hostile(errName), n.body[0].values, ctx, errName)
    ensures FormatsCarry(n.body[0].values, errName)
  {
    hide Hostile, Eval, CarriesOnly, ErrorfWraps, FormatCarries;
    HostileIsStandard(errName);
    var vs := n.body[0].values;
    forall i | 0 <= i < |vs| && vs[i].Call? && vs[i].callee == "fmt.Errorf"
      ensures FormatCarries(vs[i], errName)
    {
      assert ctx.results[i] == ErrorResult;
      HostileCall(vs[i], errName);
    }
  }

  /** Both kinds of false zero are discounted: an empty slice or map literal, which is not nil, and
      `0`, `""`, `false` or an empty struct literal where an interface is returned. */
  lemma FalseZeroIsDiscounted(env: Env, cond: Node, errName: string, kind: ResultKind, v: Node, e: ErrorValue)
    requires cond == Binary(Neq, Ident(errName), Ident("nil")) && errName != ""
    requires Standard(env) && env.value(errName) == ErrValue(e)
    requires IsZeroReturnExpr(v) && kind != ErrorResult
    requires v == CompositeLit(SliceOrMap, []) || (kind == InterfaceResult && v != Ident("nil"))
    ensures IsSimpleErrorReturn(If(None, cond, [Return([v, Ident(errName)])], None), ReturnContext(true, [kind, ErrorResult]))
    ensures !OnlyPropagates(env, [v, Ident(errName)], ReturnContext(true, [kind, ErrorResult]), e)
  {
    hide Eval, CarriesOnly, IsZeroReturnExpr;
    ZeroExprValue(env, v);
    var results := [kind, ErrorResult];
    assert results[0] == kind && results[1] == ErrorResult;
    assert [v, Ident(errName)][0] == v && [v, Ident(errName)][1] == Ident(errName);
  }
}
