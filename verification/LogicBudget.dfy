/** The orchestration logic budget: how a function body is measured, and when an `if` is discounted
    because it only passes an error on. */
module LogicBudget {
  import opened FmtDirectives
  import opened Options

  datatype Op = LAnd | LOr | Neq | OtherOp

  /** Whether an empty composite literal of the type is its zero value. */
  datatype LitType = StructOrArray | SliceOrMap

  /** What matters about a result type: whether it implements `error`, and if not, whether it is an
      interface, whose zero value is nil alone. */
  datatype ResultKind = ErrorResult | InterfaceResult | ConcreteResult

  /** go/ast, reduced to what the measure tells apart. `callee` is the resolved qualified name. */
  datatype Node =
    // expressions
    | Ident(name: string)
    | BasicLit(text: string)
    | StringLit(value: string, raw: bool)
    | Binary(op: Op, x: Node, y: Node)
    | Call(callee: string, fun: Node, args: seq<Node>)
    | CompositeLit(litType: LitType, elts: seq<Node>)
    | FuncLit(results: seq<ResultKind>, litBody: seq<Node>)
    | OtherExpr(parts: seq<Node>)
    // statements
    | Block(list: seq<Node>)
    | If(init: Option<Node>, cond: Node, body: seq<Node>, els: Option<Node>)
    | For(init: Option<Node>, forCond: Option<Node>, post: Option<Node>, body: seq<Node>)
    | Range(vars: seq<Node>, x: Node, body: seq<Node>)
    | Switch(init: Option<Node>, tag: Option<Node>, clauses: seq<Node>)
    | TypeSwitch(init: Option<Node>, assign: Node, clauses: seq<Node>)
    | Select(clauses: seq<Node>)
    | CaseClause(exprs: seq<Node>, body: seq<Node>)
    | CommClause(comm: Option<Node>, body: seq<Node>)
    | Return(values: seq<Node>)
    | Labeled(stmt: Node)
    | Simple(parts: seq<Node>)

  function Opt(n: Option<Node>): seq<Node> {
    if n.Some? then [n.value] else []
  }

  /** The children that ast.Inspect visits. */
  function Children(n: Node): (cs: seq<Node>)
    ensures forall i :: 0 <= i < |cs| ==> cs[i] < n
  {
    match n
    case Ident(_) | BasicLit(_) | StringLit(_, _) => []
    case Binary(_, x, y) => [x, y]
    case Call(_, fun, args) => [fun] + args
    case CompositeLit(_, elts) => elts
    case FuncLit(_, b) => b
    case OtherExpr(ps) => ps
    case Block(l) => l
    case If(i, c, b, e) => Opt(i) + [c] + b + Opt(e)
    case For(i, c, p, b) => Opt(i) + Opt(c) + Opt(p) + b
    case Range(vs, x, b) => vs + [x] + b
    case Switch(i, t, cs) => Opt(i) + Opt(t) + cs
    case TypeSwitch(i, a, cs) => Opt(i) + [a] + cs
    case Select(cs) => cs
    case CaseClause(es, b) => es + b
    case CommClause(c, b) => Opt(c) + b
    case Return(vs) => vs
    case Labeled(s) => [s]
    case Simple(ps) => ps
  }

  /** The results of the enclosing function; empty without type information. */
  datatype ReturnContext = ReturnContext(info: bool, results: seq<ResultKind>)

  function NewReturnContext(results: seq<ResultKind>, info: bool): ReturnContext {
    ReturnContext(info, if info then results else [])
  }

  // The discount.

  predicate IsNilIdent(e: Node) {
    e == Ident("nil")
  }

  function ErrorNilCheckIdent(e: Node): Option<string> {
    if !e.Binary? || e.op != Neq then None
    else if e.x.Ident? && e.x.name != "" && IsNilIdent(e.y) then Some(e.x.name)
    else if e.y.Ident? && e.y.name != "" && IsNilIdent(e.x) then Some(e.y.name)
    else None
  }

  predicate IsZeroReturnExpr(e: Node) {
    match e
    case Ident(name) => name == "nil" || name == "false"
    case BasicLit(text) => text == "0"
    case StringLit(value, raw) => value == "" && !raw
    case CompositeLit(_, elts) => elts == []
    case _ => false
  }

  /** Every %w argument is the checked error, and there is one. */
  predicate ErrorfWraps(call: Node, errName: string)
    requires call.Call?
  {
    && call.args != [] && call.args[0].StringLit?
    && var ixs := WrapArgs(call.args[0].value, 0);
       && ixs != []
       && forall k :: 0 <= k < |ixs| ==> ixs[k] + 1 < |call.args| && call.args[ixs[k] + 1] == Ident(errName)
  }

  /** Every argument is the checked error or nil, and the error is among them. */
  predicate JoinPropagates(call: Node, errName: string)
    requires call.Call?
  {
    && (forall k :: 0 <= k < |call.args| ==> call.args[k] == Ident(errName) || call.args[k] == Ident("nil"))
    && Ident(errName) in call.args
  }

  predicate IsErrorPropagationExpr(e: Node, errName: string) {
    match e
    case Ident(name) => name == errName
    case Call(callee, _, _) =>
      if callee == "fmt.Errorf" then ErrorfWraps(e, errName)
      else callee == "errors.Join" && JoinPropagates(e, errName)
    case _ => false
  }

  predicate Propagates(values: seq<Node>, errName: string, ctx: ReturnContext) {
    && ctx.info && ctx.results != [] && |values| == |ctx.results|
    && (forall i :: 0 <= i < |values| ==> if ctx.results[i] == ErrorResult then IsErrorPropagationExpr(values[i], errName) else IsZeroReturnExpr(values[i]))
    && ErrorResult in ctx.results
  }

  predicate IsSimpleErrorReturn(n: Node, ctx: ReturnContext) {
    && n.If? && n.els.None? && |n.body| == 1 && n.body[0].Return?
    && ErrorNilCheckIdent(n.cond).Some?
    && Propagates(n.body[0].values, ErrorNilCheckIdent(n.cond).value, ctx)
  }

  /** fmtErrorfWraps. */
  method FmtErrorfWraps(call: Node, errName: string) returns (r: bool)
    requires call.Call?
    ensures r <==> ErrorfWraps(call, errName)
  {
    if call.args == [] || !call.args[0].StringLit? {
      return false;
    }
    var indexes := FmtWrapArgIndexes(call.args[0].value);
    var hasWrap := false;
    for k := 0 to |indexes|
      invariant hasWrap <==> k > 0
      invariant forall j :: 0 <= j < k ==> indexes[j] + 1 < |call.args| && call.args[indexes[j] + 1] == Ident(errName)
    {
      var argPos := indexes[k] + 1;
      if argPos >= |call.args| || call.args[argPos] != Ident(errName) {
        return false;
      }
      hasWrap := true;
    }
    return hasWrap;
  }

  /** errorsJoinPropagatesOnlyCheckedErr. */
  method ErrorsJoinPropagates(call: Node, errName: string) returns (r: bool)
    requires call.Call?
    ensures r <==> JoinPropagates(call, errName)
  {
    r := false;
    for k := 0 to |call.args|
      invariant r <==> Ident(errName) in call.args[..k]
      invariant forall j :: 0 <= j < k ==> call.args[j] == Ident(errName) || call.args[j] == Ident("nil")
    {
      var arg := call.args[k];
      if !arg.Ident? {
        return false;
      }
      if arg.name == errName {
        r := true;
      } else if arg.name != "nil" {
        return false;
      }
    }
    assert call.args[..|call.args|] == call.args;
  }

  method CheckPropagationExpr(e: Node, errName: string) returns (r: bool)
    ensures r <==> IsErrorPropagationExpr(e, errName)
  {
    if e.Ident? {
      return e.name == errName;
    }
    if !e.Call? {
      return false;
    }
    match e.callee {
      case "fmt.Errorf" => r := FmtErrorfWraps(e, errName);
      case "errors.Join" => r := ErrorsJoinPropagates(e, errName);
      case _ => r := false;
    }
  }

  /** isErrorPropagationReturn. */
  method CheckPropagationReturn(values: seq<Node>, errName: string, ctx: ReturnContext) returns (r: bool)
    ensures r <==> Propagates(values, errName, ctx)
  {
    hide IsErrorPropagationExpr, IsZeroReturnExpr;
    if !ctx.info || ctx.results == [] || |values| != |ctx.results| {
      return false;
    }
    var propagated := false;
    for i := 0 to |values|
      invariant propagated <==> ErrorResult in ctx.results[..i]
      invariant forall j :: 0 <= j < i ==> if ctx.results[j] == ErrorResult then IsErrorPropagationExpr(values[j], errName) else IsZeroReturnExpr(values[j])
    {
      if ctx.results[i] == ErrorResult {
        var ok := CheckPropagationExpr(values[i], errName);
        if !ok {
          return false;
        }
        propagated := true;
      } else if !IsZeroReturnExpr(values[i]) {
        return false;
      }
    }
    assert ctx.results[..|values|] == ctx.results;
    return propagated;
  }

  method CheckSimpleErrorReturn(n: Node, ctx: ReturnContext) returns (r: bool)
    requires n.If?
    ensures r <==> IsSimpleErrorReturn(n, ctx)
  {
    if n.els.Some? || |n.body| != 1 {
      return false;
    }
    var errName := ErrorNilCheckIdent(n.cond);
    if errName.None? || !n.body[0].Return? {
      return false;
    }
    r := CheckPropagationReturn(n.body[0].values, errName.value, ctx);
  }

  // What is measured: the nodes that count, each with the return context it is met in.

  datatype Visit = Visit(node: Node, ctx: ReturnContext) | ClauseVisit(clause: Node)

  predicate Discounted(v: Visit) {
    v.Visit? && IsSimpleErrorReturn(v.node, v.ctx)
  }

  /** The nodes measured in a statement. With `counting` an error-returning `if` is one of them. */
  function Visits(counting: bool, ctx: ReturnContext, n: Node): seq<Visit>
    decreases n, 2
  {
    if !counting && Discounted(Visit(n, ctx)) then OptVisits(counting, ctx, n.init)
    else
      var here := [Visit(n, ctx)];
      match n
      case Block(l) => AllVisits(counting, ctx, l)
      case If(i, c, b, e) =>
        here + (LitVisits(counting, ctx, c) + (OptVisits(counting, ctx, i) + (AllVisits(counting, ctx,
            b) + OptVisits(counting, ctx, e))))
      case For(i, c, p, b) =>
        here + (OptLits(counting, ctx, c) + (OptVisits(counting, ctx, i) + (OptVisits(counting, ctx,
            p) + AllVisits(counting, ctx, b))))
      case Range(_, x, b) => here + (LitVisits(counting, ctx, x) + AllVisits(counting, ctx, b))
      case Switch(i, t, cs) => here + (OptLits(counting, ctx, t) + (OptVisits(counting, ctx,
          i) + CaseVisits(counting, ctx, cs)))
      case TypeSwitch(i, a, cs) => here + (OptVisits(counting, ctx, i) + (LitVisits(counting, ctx,
          a) + CaseVisits(counting, ctx, cs)))
      case Select(cs) => here + CommVisits(counting, ctx, cs)
      case _ => here + LitVisits(counting, ctx, n)
  }

  function OptVisits(counting: bool, ctx: ReturnContext, n: Option<Node>): seq<Visit>
    decreases n, 3
  {
    match n
    case Some(s) => Visits(counting, ctx, s)
    case None => []
  }

  function AllVisits(counting: bool, ctx: ReturnContext, ns: seq<Node>): seq<Visit>
    decreases ns, 3
  {
    if ns == [] then [] else AllVisits(counting, ctx, ns[..|ns| - 1]) + Visits(counting, ctx, ns[|ns| - 1])
  }

  function CaseVisits(counting: bool, ctx: ReturnContext, cs: seq<Node>): seq<Visit>
    decreases cs, 3
  {
    if cs == [] then [] else CaseVisits(counting, ctx, cs[..|cs| - 1]) + OneCase(counting, ctx, cs[|cs| - 1])
  }

  function OneCase(counting: bool, ctx: ReturnContext, c: Node): seq<Visit>
    decreases c, 3
  {
    if c.CaseClause? then [ClauseVisit(c)] + (AllLits(counting, ctx, c.exprs) + AllVisits(counting, ctx, c.body)) else []
  }

  function CommVisits(counting: bool, ctx: ReturnContext, cs: seq<Node>): seq<Visit>
    decreases cs, 3
  {
    if cs == [] then [] else CommVisits(counting, ctx, cs[..|cs| - 1]) + OneComm(counting, ctx, cs[|cs| - 1])
  }

  function OneComm(counting: bool, ctx: ReturnContext, c: Node): seq<Visit>
    decreases c, 3
  {
    if c.CommClause? then [ClauseVisit(c)] + (OptLits(counting, ctx, c.comm) + AllVisits(counting, ctx, c.body)) else []
  }

  /** The bodies of the outermost function literals below a node. */
  function LitVisits(counting: bool, ctx: ReturnContext, n: Node): seq<Visit>
    decreases n, 1
  {
    match n
    case FuncLit(results, b) => AllVisits(counting, NewReturnContext(results, ctx.info), b)
    case _ => ChildLits(counting, ctx, n, |Children(n)|)
  }

  function ChildLits(counting: bool, ctx: ReturnContext, n: Node, k: nat): seq<Visit>
    requires k <= |Children(n)|
    decreases n, 0, k
  {
    if k == 0 then [] else ChildLits(counting, ctx, n, k - 1) + LitVisits(counting, ctx, Children(n)[k - 1])
  }

  function OptLits(counting: bool, ctx: ReturnContext, n: Option<Node>): seq<Visit>
    decreases n, 3
  {
    match n
    case Some(s) => LitVisits(counting, ctx, s)
    case None => []
  }

  function AllLits(counting: bool, ctx: ReturnContext, ns: seq<Node>): seq<Visit>
    decreases ns, 3
  {
    if ns == [] then [] else AllLits(counting, ctx, ns[..|ns| - 1]) + LitVisits(counting, ctx, ns[|ns| - 1])
  }

  // What each of them weighs.

  /** `&&` and `||` anywhere in a condition, bodies of function literals included. */
  function Bools(n: Node): nat
    decreases n, 1
  {
    (if n.Binary? && (n.op == LAnd || n.op == LOr) then 1 else 0) + ChildBools(n, |Children(n)|)
  }

  function ChildBools(n: Node, k: nat): nat
    requires k <= |Children(n)|
    decreases n, 0, k
  {
    if k == 0 then 0 else ChildBools(n, k - 1) + Bools(Children(n)[k - 1])
  }

  datatype Cost = Cost(branches: nat, statements: nat, bools: nat)

  function Plus(a: Cost, b: Cost): Cost {
    Cost(a.branches + b.branches, a.statements + b.statements, a.bools + b.bools)
  }

  /** A clause is a branch unless it is the default; everything else that is visited is a
      statement, and a branch if it is a control statement. */
  function Weight(v: Visit): Cost {
    match v
    case ClauseVisit(c) => Cost(if IsBranch(c) then 1 else 0, 0, 0)
    case Visit(n, _) =>
      match n
      case If(_, c, _, _) => Cost(1, 1, Bools(c))
      case For(_, c, _, _) => Cost(1, 1, if c.Some? then Bools(c.value) else 0)
      case Range(_, _, _) | Switch(_, _, _) | TypeSwitch(_, _, _) | Select(_) => Cost(1, 1, 0)
      case _ => Cost(0, 1, 0)
  }

  predicate IsBranch(clause: Node) {
    match clause
    case CaseClause(es, _) => es != []
    case CommClause(c, _) => c.Some?
    case _ => false
  }

  function Total(vs: seq<Visit>): Cost {
    if vs == [] then Cost(0, 0, 0) else Plus(Total(vs[..|vs| - 1]), Weight(vs[|vs| - 1]))
  }

  // The measuring methods.

  /** booleanComplexity. */
  method BooleanComplexity(n: Node) returns (count: nat)
    ensures count == Bools(n)
    decreases n
  {
    count := if n.Binary? && (n.op == LAnd || n.op == LOr) then 1 else 0;
    ghost var own := count;
    var cs := Children(n);
    for k := 0 to |cs|
      invariant count == own + ChildBools(n, k)
    {
      var c := BooleanComplexity(cs[k]);
      count := count + c;
    }
  }

  class FunctionMetrics {
    var branches: int
    var statements: int
    var cyclomatic: int
    ghost var visited: seq<Visit>

    /** The counters are the weights of what was visited; cyclomatic is one more than branches and
        boolean operators together. */
    ghost predicate Valid()
      reads this
    {
      var t := Total(visited);
      branches == t.branches && statements == t.statements && cyclomatic == 1 + t.branches + t.bools
    }

    constructor ()
      ensures Valid() && visited == []
    {
      branches, statements, cyclomatic := 0, 0, 1;
      visited := [];
    }

    method Statement(ghost v: Visit)
      requires Valid() && Weight(v) == Cost(0, 1, 0)
      modifies this
      ensures Valid() && visited == old(visited) + [v]
    {
      hide Total, Weight;
      TotalStep(visited, v);
      statements := statements + 1;
      visited := visited + [v];
    }

    method Control(bools: nat, ghost v: Visit)
      requires Valid() && Weight(v) == Cost(1, 1, bools)
      modifies this
      ensures Valid() && visited == old(visited) + [v]
    {
      hide Total, Weight;
      TotalStep(visited, v);
      statements := statements + 1;
      branches := branches + 1;
      cyclomatic := cyclomatic + 1;
      cyclomatic := cyclomatic + bools;
      visited := visited + [v];
    }

    method Clause(isBranch: bool, ghost v: Visit)
      requires Valid() && Weight(v) == Cost(if isBranch then 1 else 0, 0, 0)
      modifies this
      ensures Valid() && visited == old(visited) + [v]
    {
      hide Total, Weight;
      TotalStep(visited, v);
      if isBranch {
        branches := branches + 1;
        cyclomatic := cyclomatic + 1;
      }
      visited := visited + [v];
    }
  }

  lemma TotalStep(vs: seq<Visit>, v: Visit)
    ensures Total(vs + [v]) == Plus(Total(vs), Weight(v))
  {
    assert (vs + [v])[..|vs|] == vs;
  }

  lemma Grow(base: seq<Visit>, a: seq<Visit>, b: seq<Visit>)
    ensures (base + a) + b == base + (a + b)
  {
  }

  /** measureBlock, and the loops over clause bodies. */
  method MeasureAll(counting: bool, ns: seq<Node>, m: FunctionMetrics, ctx: ReturnContext)
    requires m.Valid()
    modifies m
    ensures m.Valid() && m.visited == old(m.visited) + AllVisits(counting, ctx, ns)
    decreases ns, 3
  {
    hide Visits, FunctionMetrics.Valid;
    for k := 0 to |ns|
      invariant m.Valid() && m.visited == old(m.visited) + AllVisits(counting, ctx, ns[..k])
    {
      assert ns[..k + 1][..k] == ns[..k];
      MeasureStmt(counting, ns[k], m, ctx);
      Grow(old(m.visited), AllVisits(counting, ctx, ns[..k]), Visits(counting, ctx, ns[k]));
    }
    assert ns[..|ns|] == ns;
  }

  method MeasureOpt(counting: bool, n: Option<Node>, m: FunctionMetrics, ctx: ReturnContext)
    requires m.Valid()
    modifies m
    ensures m.Valid() && m.visited == old(m.visited) + OptVisits(counting, ctx, n)
    decreases n, 3
  {
    hide Visits, FunctionMetrics.Valid;
    if n.Some? {
      MeasureStmt(counting, n.value, m, ctx);
    }
  }

  /** measureFuncLits: ast.Inspect that stops at a function literal and measures its body. */
  method MeasureFuncLits(counting: bool, n: Node, m: FunctionMetrics, ctx: ReturnContext)
    requires m.Valid()
    modifies m
    ensures m.Valid() && m.visited == old(m.visited) + LitVisits(counting, ctx, n)
    decreases n, 1
  {
    hide AllVisits, FunctionMetrics.Valid;
    if n.FuncLit? {
      MeasureAll(counting, n.litBody, m, NewReturnContext(n.results, ctx.info));
    } else {
      var cs := Children(n);
      hide Children;
      for k := 0 to |cs|
        invariant m.Valid() && m.visited == old(m.visited) + ChildLits(counting, ctx, n, k)
      {
        MeasureFuncLits(counting, cs[k], m, ctx);
        Grow(old(m.visited), ChildLits(counting, ctx, n, k), LitVisits(counting, ctx, cs[k]));
      }
    }
  }

  method MeasureOptLits(counting: bool, n: Option<Node>, m: FunctionMetrics, ctx: ReturnContext)
    requires m.Valid()
    modifies m
    ensures m.Valid() && m.visited == old(m.visited) + OptLits(counting, ctx, n)
    decreases n, 3
  {
    hide LitVisits, FunctionMetrics.Valid;
    if n.Some? {
      MeasureFuncLits(counting, n.value, m, ctx);
    }
  }

  method MeasureAllLits(counting: bool, ns: seq<Node>, m: FunctionMetrics, ctx: ReturnContext)
    requires m.Valid()
    modifies m
    ensures m.Valid() && m.visited == old(m.visited) + AllLits(counting, ctx, ns)
    decreases ns, 3
  {
    hide LitVisits, FunctionMetrics.Valid;
    for k := 0 to |ns|
      invariant m.Valid() && m.visited == old(m.visited) + AllLits(counting, ctx, ns[..k])
    {
      assert ns[..k + 1][..k] == ns[..k];
      MeasureFuncLits(counting, ns[k], m, ctx);
      Grow(old(m.visited), AllLits(counting, ctx, ns[..k]), LitVisits(counting, ctx, ns[k]));
    }
    assert ns[..|ns|] == ns;
  }

  method MeasureCases(counting: bool, cs: seq<Node>, m: FunctionMetrics, ctx: ReturnContext)
    requires m.Valid()
    modifies m
    ensures m.Valid() && m.visited == old(m.visited) + CaseVisits(counting, ctx, cs)
    decreases cs, 3
  {
    hide AllVisits, AllLits, FunctionMetrics.Valid;
    for k := 0 to |cs|
      invariant m.Valid() && m.visited == old(m.visited) + CaseVisits(counting, ctx, cs[..k])
    {
      assert cs[..k + 1][..k] == cs[..k];
      var c := cs[k];
      ghost var before := m.visited;
      if c.CaseClause? {
        m.Clause(c.exprs != [], ClauseVisit(c));
        MeasureAllLits(counting, c.exprs, m, ctx);
        Grow(before, [ClauseVisit(c)], AllLits(counting, ctx, c.exprs));
        MeasureAll(counting, c.body, m, ctx);
        Grow(before, [ClauseVisit(c)] + AllLits(counting, ctx, c.exprs), AllVisits(counting, ctx, c.body));
        Grow([ClauseVisit(c)], AllLits(counting, ctx, c.exprs), AllVisits(counting, ctx, c.body));
      }
      assert m.visited == before + OneCase(counting, ctx, c);
      Grow(old(m.visited), CaseVisits(counting, ctx, cs[..k]), OneCase(counting, ctx, c));
    }
    assert cs[..|cs|] == cs;
  }

  method MeasureComms(counting: bool, cs: seq<Node>, m: FunctionMetrics, ctx: ReturnContext)
    requires m.Valid()
    modifies m
    ensures m.Valid() && m.visited == old(m.visited) + CommVisits(counting, ctx, cs)
    decreases cs, 3
  {
    hide AllVisits, OptLits, FunctionMetrics.Valid;
    for k := 0 to |cs|
      invariant m.Valid() && m.visited == old(m.visited) + CommVisits(counting, ctx, cs[..k])
    {
      assert cs[..k + 1][..k] == cs[..k];
      var c := cs[k];
      ghost var before := m.visited;
      if c.CommClause? {
        m.Clause(c.comm.Some?, ClauseVisit(c));
        MeasureOptLits(counting, c.comm, m, ctx);
        Grow(before, [ClauseVisit(c)], OptLits(counting, ctx, c.comm));
        MeasureAll(counting, c.body, m, ctx);
        Grow(before, [ClauseVisit(c)] + OptLits(counting, ctx, c.comm), AllVisits(counting, ctx, c.body));
        Grow([ClauseVisit(c)], OptLits(counting, ctx, c.comm), AllVisits(counting, ctx, c.body));
      }
      assert m.visited == before + OneComm(counting, ctx, c);
      Grow(old(m.visited), CommVisits(counting, ctx, cs[..k]), OneComm(counting, ctx, c));
    }
    assert cs[..|cs|] == cs;
  }

  /** measureStmt: first the discount, then each kind of statement. */
  method MeasureStmt(counting: bool, n: Node, m: FunctionMetrics, ctx: ReturnContext)
    requires m.Valid()
    modifies m
    ensures m.Valid() && m.visited == old(m.visited) + Visits(counting, ctx, n)
    decreases n, 2
  {
    hide LitVisits, OptVisits, AllVisits, CaseVisits, CommVisits, OptLits, FunctionMetrics.Valid, Bools,
        IsSimpleErrorReturn;
    ghost var base := m.visited;
    if !counting && n.If? {
      var simple := CheckSimpleErrorReturn(n, ctx);
      if simple {
        MeasureOpt(counting, n.init, m, ctx);
        return;
      }
    }
    OnlyIfs(n, ctx);
    match n {
      case Block(l) => MeasureAll(counting, l, m, ctx);
      case If(_, _, _, _) => MeasureIf(counting, n, m, ctx);
      case For(_, _, _, _) => MeasureFor(counting, n, m, ctx);
      case Range(_, _, _) => MeasureRange(counting, n, m, ctx);
      case Switch(_, _, _) => MeasureSwitch(counting, n, m, ctx);
      case TypeSwitch(_, _, _) => MeasureTypeSwitch(counting, n, m, ctx);
      case Select(_) => MeasureSelect(counting, n, m, ctx);
      case _ =>
        m.Statement(Visit(n, ctx));
        MeasureFuncLits(counting, n, m, ctx);
        Grow(base, [Visit(n, ctx)], LitVisits(counting, ctx, n));
    }
  }

  lemma OnlyIfs(n: Node, ctx: ReturnContext)
    ensures Discounted(Visit(n, ctx)) ==> n.If?
  {
  }

  method MeasureIf(counting: bool, n: Node, m: FunctionMetrics, ctx: ReturnContext)
    requires m.Valid() && n.If? && (counting || !Discounted(Visit(n, ctx)))
    modifies m
    ensures m.Valid() && m.visited == old(m.visited) + Visits(counting, ctx, n)
    decreases n, 1
  {
    hide LitVisits, OptVisits, AllVisits, CaseVisits, CommVisits, OptLits, FunctionMetrics.Valid, Bools,
        IsSimpleErrorReturn;
    ghost var base := m.visited;
    var bools := BooleanComplexity(n.cond);
    m.Control(bools, Visit(n, ctx));
    MeasureFuncLits(counting, n.cond, m, ctx);
    MeasureOpt(counting, n.init, m, ctx);
    MeasureAll(counting, n.body, m, ctx);
    MeasureOpt(counting, n.els, m, ctx);
    Grow5(base, [Visit(n, ctx)], LitVisits(counting, ctx, n.cond), OptVisits(counting, ctx, n.init),
          AllVisits(counting, ctx, n.body), OptVisits(counting, ctx, n.els));
  }

  method MeasureFor(counting: bool, n: Node, m: FunctionMetrics, ctx: ReturnContext)
    requires m.Valid() && n.For? && (counting || !Discounted(Visit(n, ctx)))
    modifies m
    ensures m.Valid() && m.visited == old(m.visited) + Visits(counting, ctx, n)
    decreases n, 1
  {
    hide LitVisits, OptVisits, AllVisits, CaseVisits, CommVisits, OptLits, FunctionMetrics.Valid, Bools,
        IsSimpleErrorReturn;
    ghost var base := m.visited;
    var bools := 0;
    if n.forCond.Some? {
      bools := BooleanComplexity(n.forCond.value);
    }
    m.Control(bools, Visit(n, ctx));
    MeasureOptLits(counting, n.forCond, m, ctx);
    MeasureOpt(counting, n.init, m, ctx);
    MeasureOpt(counting, n.post, m, ctx);
    MeasureAll(counting, n.body, m, ctx);
    Grow5(base, [Visit(n, ctx)], OptLits(counting, ctx, n.forCond), OptVisits(counting, ctx, n.init),
          OptVisits(counting, ctx, n.post), AllVisits(counting, ctx, n.body));
  }

  method MeasureRange(counting: bool, n: Node, m: FunctionMetrics, ctx: ReturnContext)
    requires m.Valid() && n.Range? && (counting || !Discounted(Visit(n, ctx)))
    modifies m
    ensures m.Valid() && m.visited == old(m.visited) + Visits(counting, ctx, n)
    decreases n, 1
  {
    hide LitVisits, OptVisits, AllVisits, CaseVisits, CommVisits, OptLits, FunctionMetrics.Valid, Bools,
        IsSimpleErrorReturn;
    ghost var base := m.visited;
    m.Control(0, Visit(n, ctx));
    MeasureFuncLits(counting, n.x, m, ctx);
    MeasureAll(counting, n.body, m, ctx);
    Grow4(base, [Visit(n, ctx)], LitVisits(counting, ctx, n.x), AllVisits(counting, ctx, n.body), []);
  }

  method MeasureSwitch(counting: bool, n: Node, m: FunctionMetrics, ctx: ReturnContext)
    requires m.Valid() && n.Switch? && (counting || !Discounted(Visit(n, ctx)))
    modifies m
    ensures m.Valid() && m.visited == old(m.visited) + Visits(counting, ctx, n)
    decreases n, 1
  {
    hide LitVisits, OptVisits, AllVisits, CaseVisits, CommVisits, OptLits, FunctionMetrics.Valid, Bools,
        IsSimpleErrorReturn;
    ghost var base := m.visited;
    m.Control(0, Visit(n, ctx));
    MeasureOptLits(counting, n.tag, m, ctx);
    MeasureOpt(counting, n.init, m, ctx);
    MeasureCases(counting, n.clauses, m, ctx);
    Grow4(base, [Visit(n, ctx)], OptLits(counting, ctx, n.tag), OptVisits(counting, ctx, n.init),
        CaseVisits(counting, ctx, n.clauses));
  }

  method MeasureTypeSwitch(counting: bool, n: Node, m: FunctionMetrics, ctx: ReturnContext)
    requires m.Valid() && n.TypeSwitch? && (counting || !Discounted(Visit(n, ctx)))
    modifies m
    ensures m.Valid() && m.visited == old(m.visited) + Visits(counting, ctx, n)
    decreases n, 1
  {
    hide LitVisits, OptVisits, AllVisits, CaseVisits, CommVisits, OptLits, FunctionMetrics.Valid, Bools,
        IsSimpleErrorReturn;
    ghost var base := m.visited;
    m.Control(0, Visit(n, ctx));
    MeasureOpt(counting, n.init, m, ctx);
    MeasureFuncLits(counting, n.assign, m, ctx);
    MeasureCases(counting, n.clauses, m, ctx);
    Grow4(base, [Visit(n, ctx)], OptVisits(counting, ctx, n.init), LitVisits(counting, ctx, n.assign),
        CaseVisits(counting, ctx, n.clauses));
  }

  method MeasureSelect(counting: bool, n: Node, m: FunctionMetrics, ctx: ReturnContext)
    requires m.Valid() && n.Select? && (counting || !Discounted(Visit(n, ctx)))
    modifies m
    ensures m.Valid() && m.visited == old(m.visited) + Visits(counting, ctx, n)
    decreases n, 1
  {
    hide LitVisits, OptVisits, AllVisits, CaseVisits, CommVisits, OptLits, FunctionMetrics.Valid, Bools,
        IsSimpleErrorReturn;
    ghost var base := m.visited;
    m.Control(0, Visit(n, ctx));
    MeasureComms(counting, n.clauses, m, ctx);
    Grow(base, [Visit(n, ctx)], CommVisits(counting, ctx, n.clauses));
  }

  lemma Grow4(base: seq<Visit>, a: seq<Visit>, b: seq<Visit>, c: seq<Visit>, d: seq<Visit>)
    ensures (((base + a) + b) + c) + d == base + (a + (b + (c + d)))
    ensures ((base + a) + b) + c == base + (a + (b + c))
  {
    Grow(base, a, b);
    Grow(base, a + b, c);
    Grow(a, b, c);
    Grow(base, a + (b + c), d);
    Grow(a, b + c, d);
    Grow(b, c, d);
  }

  lemma Grow5(base: seq<Visit>, a: seq<Visit>, b: seq<Visit>, c: seq<Visit>, d: seq<Visit>, e: seq<Visit>)
    ensures ((((base + a) + b) + c) + d) + e == base + (a + (b + (c + (d + e))))
  {
    Grow4(base, a, b, c, d);
    Grow(base, a + (b + (c + d)), e);
    Grow4(a, b, c, d, e);
    Grow(a, b + (c + d), e);
    Grow(b, c + d, e);
    Grow(c, d, e);
  }

  /** measure: the three numbers of a function declaration. */
  method Measure(counting: bool, results: seq<ResultKind>, body: seq<Node>, info: bool)
    returns (branches: int, statements: int, cyclomatic: int)
    ensures var t := Total(AllVisits(counting, NewReturnContext(results, info), body));
            branches == t.branches && statements == t.statements && cyclomatic == 1 + t.branches + t.bools
  {
    hide Total, AllVisits;
    var m := new FunctionMetrics();
    MeasureAll(counting, body, m, NewReturnContext(results, info));
    assert m.visited == [] + AllVisits(counting, NewReturnContext(results, info), body)
                     == AllVisits(counting, NewReturnContext(results, info), body);
    return m.branches, m.statements, m.cyclomatic;
  }
}
