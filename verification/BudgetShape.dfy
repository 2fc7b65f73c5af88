/** What the measure counts, read off the syntax: which positions of a statement, clause or
    expression are measured, and as what. */
module BudgetShape {
  import opened BudgetLaws
  import opened FmtDirectives
  import opened LogicBudget
  import opened Options

  /** The position of a node inside its parent. */
  datatype Role =
    | Init | Cond | Post | Body | Else | Var | Over | Tag | Assign | Clause | Case | Comm | LitBody | Operand

  datatype Slot = Slot(role: Role, node: Node)

  function As(role: Role, ns: seq<Node>): (slots: seq<Slot>)
    ensures |slots| == |ns|
    ensures forall i :: 0 <= i < |ns| ==> slots[i] == Slot(role, ns[i])
  {
    seq(|ns|, i requires 0 <= i < |ns| => Slot(role, ns[i]))
  }

  function AsOpt(role: Role, n: Option<Node>): seq<Slot> {
    match n
    case Some(s) => [Slot(role, s)]
    case None => []
  }

  /** All positions of a node, in the order of the source text. */
  function Slots(n: Node): (slots: seq<Slot>)
    ensures forall i :: 0 <= i < |slots| ==> slots[i].node < n
  {
    match n
    case Ident(_) | BasicLit(_) | StringLit(_, _) => []
    case Binary(_, x, y) => [Slot(Operand, x), Slot(Operand, y)]
    case Call(_, fun, args) => [Slot(Operand, fun)] + As(Operand, args)
    case CompositeLit(_, elts) => As(Operand, elts)
    case FuncLit(_, b) => As(LitBody, b)
    case OtherExpr(ps) => As(Operand, ps)
    case Block(l) => As(Body, l)
    case If(i, c, b, e) => AsOpt(Init, i) + [Slot(Cond, c)] + As(Body, b) + AsOpt(Else, e)
    case For(i, c, p, b) => AsOpt(Init, i) + AsOpt(Cond, c) + AsOpt(Post, p) + As(Body, b)
    case Range(vs, x, b) => As(Var, vs) + [Slot(Over, x)] + As(Body, b)
    case Switch(i, t, cs) => AsOpt(Init, i) + AsOpt(Tag, t) + As(Clause, cs)
    case TypeSwitch(i, a, cs) => AsOpt(Init, i) + [Slot(Assign, a)] + As(Clause, cs)
    case Select(cs) => As(Clause, cs)
    case CaseClause(es, b) => As(Case, es) + As(Body, b)
    case CommClause(c, b) => AsOpt(Comm, c) + As(Body, b)
    case Return(vs) => As(Operand, vs)
    case Labeled(s) => [Slot(Operand, s)]
    case Simple(ps) => As(Operand, ps)
  }

  /** How a node is met: as a statement, as a clause of a switch or of a select, or as code in which
      only the bodies of function literals count. */
  datatype Mode = InStatement | InClauses(select: bool) | InExpression

  predicate Structured(n: Node) {
    n.Block? || IsControl(n)
  }

  predicate IsControl(n: Node) {
    n.If? || n.For? || n.Range? || n.Switch? || n.TypeSwitch? || n.Select?
  }

  predicate ClauseOf(n: Node, select: bool) {
    if select then n.CommClause? else n.CaseClause?
  }

  /** How the node in a position is met, if it is. */
  function Follow(mode: Mode, n: Node, role: Role): Option<Mode> {
    match mode
    case InExpression => Some(if n.FuncLit? then InStatement else InExpression)
    case InClauses(select) =>
      if !ClauseOf(n, select) then None else if role == Body then Some(InStatement) else Some(InExpression)
    case InStatement =>
      if !Structured(n) then Some(if n.FuncLit? then InStatement else InExpression)
      else
        match role
        case Init | Post | Body | Else => Some(InStatement)
        case Cond | Over | Tag | Assign => Some(InExpression)
        case Clause => Some(InClauses(n.Select?))
        case _ => None
  }

  /** Every statement counts but a block, which counts by what is in it. */
  predicate IsStatement(mode: Mode, n: Node) {
    mode == InStatement && !n.Block?
  }

  /** Every control statement is a branch, and every clause that is not the default. */
  predicate Branches(mode: Mode, n: Node) {
    match mode
    case InStatement => IsControl(n)
    case InClauses(select) => ClauseOf(n, select) && if select then n.comm.Some? else n.exprs != []
    case InExpression => false
  }

  /** The `&&` and `||` anywhere below a node. */
  function Operators(n: Node): nat
    decreases n, 1
  {
    (if n.Binary? && (n.op == LAnd || n.op == LOr) then 1 else 0) + SlotOperators(n, Slots(n))
  }

  function SlotOperators(n: Node, slots: seq<Slot>): nat
    requires forall i :: 0 <= i < |slots| ==> slots[i].node < n
    decreases n, 0, |slots|
  {
    if slots == [] then 0
    else SlotOperators(n, slots[..|slots| - 1]) + Operators(slots[|slots| - 1].node)
  }

  /** They count in the conditions of `if` and `for` statements. */
  function ConditionOperators(mode: Mode, n: Node): nat {
    if mode == InStatement && n.If? then Operators(n.cond)
    else if mode == InStatement && n.For? && n.forCond.Some? then Operators(n.forCond.value)
    else 0
  }

  function Here(mode: Mode, n: Node): Cost {
    Cost(if Branches(mode, n) then 1 else 0, if IsStatement(mode, n) then 1 else 0, ConditionOperators(mode, n))
  }

  /** The return context inside a node. */
  function Inside(n: Node, ctx: ReturnContext): ReturnContext {
    if n.FuncLit? then ReturnContext(ctx.info, if ctx.info then n.results else []) else ctx
  }

  /** The sum over all measured positions. A discounted `if` leaves only its init statement. */
  function Count(counting: bool, ctx: ReturnContext, mode: Mode, n: Node): Cost
    decreases n, 1
  {
    if !counting && mode == InStatement && IsSimpleErrorReturn(n, ctx) then
      if n.init.Some? then Count(counting, ctx, InStatement, n.init.value) else Cost(0, 0, 0)
    else Plus(Here(mode, n), CountSlots(counting, Inside(n, ctx), mode, n, Slots(n)))
  }

  function CountSlots(counting: bool, ctx: ReturnContext, mode: Mode, n: Node, slots: seq<Slot>): Cost
    requires forall i :: 0 <= i < |slots| ==> slots[i].node < n
    decreases n, 0, |slots|
  {
    if slots == [] then Cost(0, 0, 0)
    else
      Plus(CountSlots(counting, ctx, mode, n, slots[..|slots| - 1]), Followed(counting, ctx, mode, n, slots[|slots| - 1]))
  }

  function Followed(counting: bool, ctx: ReturnContext, mode: Mode, n: Node, s: Slot): Cost
    requires s.node < n
    decreases n, 0, 0
  {
    match Follow(mode, n, s.role)
    case Some(m) => Count(counting, ctx, m, s.node)
    case None => Cost(0, 0, 0)
  }

  /** Of a list of statements. */
  function CountAll(counting: bool, ctx: ReturnContext, ns: seq<Node>): Cost {
    if ns == [] then Cost(0, 0, 0)
    else Plus(CountAll(counting, ctx, ns[..|ns| - 1]), Count(counting, ctx, InStatement, ns[|ns| - 1]))
  }

  // When an `if` is discounted.

  /** A comparison of a name with nil, either way round. */
  predicate ComparesWithNil(cond: Node, name: string) {
    && name != ""
    && (cond == Binary(Neq, Ident(name), Ident("nil")) || cond == Binary(Neq, Ident("nil"), Ident(name)))
  }

  /** What may stand for a result that is no error. */
  predicate ZeroLiteral(e: Node) {
    || e == Ident("nil") || e == Ident("false") || e == BasicLit("0") || e == StringLit("", false)
    || e == CompositeLit(StructOrArray, []) || e == CompositeLit(SliceOrMap, [])
  }

  /** What may stand for an error: the name itself, a format that wraps nothing else and something, or
      a join of it with nils. */
  predicate PassesOn(e: Node, name: string) {
    || e == Ident(name)
    || (&& e.Call? && e.callee == "fmt.Errorf" && |e.args| > 0 && e.args[0].StringLit?
        && (exists w :: w in WrapArgs(e.args[0].value, 0))
        && forall w :: w in WrapArgs(e.args[0].value, 0) ==> w + 1 < |e.args| && e.args[w + 1] == Ident(name))
    || (&& e.Call? && e.callee == "errors.Join" && Ident(name) in e.args
        && forall arg :: arg in e.args ==> arg == Ident(name) || arg == Ident("nil"))
  }

  /** Results that pass the error on: one of them is an error, every error is passed on, and every
      other one is a zero literal. */
  predicate PassesAllOn(values: seq<Node>, name: string, ctx: ReturnContext) {
    && ctx.info && |values| == |ctx.results|
    && (exists i :: 0 <= i < |ctx.results| && ctx.results[i] == ErrorResult)
    && (forall i :: 0 <= i < |values| && ctx.results[i] == ErrorResult ==> PassesOn(values[i], name))
    && (forall i :: 0 <= i < |values| && ctx.results[i] != ErrorResult ==> ZeroLiteral(values[i]))
  }

  lemma ComparesIff(cond: Node, name: string)
    ensures ErrorNilCheckIdent(cond) == Some(name) <==> ComparesWithNil(cond, name)
  {
  }

  lemma ZeroLiteralIff(e: Node)
    ensures IsZeroReturnExpr(e) <==> ZeroLiteral(e)
  {
    if e.CompositeLit? && e.elts == [] {
      assert e == CompositeLit(e.litType, []);
      match e.litType
      case StructOrArray =>
      case SliceOrMap =>
    }
  }

  lemma PassesOnIff(e: Node, name: string)
    ensures IsErrorPropagationExpr(e, name) <==> PassesOn(e, name)
  {
    if e.Call? && e.callee == "fmt.Errorf" && |e.args| > 0 && e.args[0].StringLit? {
      var ws := WrapArgs(e.args[0].value, 0);
      assert ws != [] <==> exists w :: w in ws by {
        if ws != [] { assert ws[0] in ws; }
      }
      assert forall k :: 0 <= k < |ws| ==> ws[k] in ws;
    }
    if e.Call? && e.callee == "errors.Join" {
      assert forall k :: 0 <= k < |e.args| ==> e.args[k] in e.args;
    }
  }

  /** An `if` is discounted exactly when it compares a name with nil, has no else, and returns from
      its one statement with the error passed on. */
  lemma DiscountedIff(n: Node, ctx: ReturnContext)
    ensures IsSimpleErrorReturn(n, ctx) <==>
            (&& n.If? && n.els == None && |n.body| == 1 && n.body[0].Return?
             && exists name :: ComparesWithNil(n.cond, name) && PassesAllOn(n.body[0].values, name, ctx))
  {
    hide ErrorNilCheckIdent, ComparesWithNil, Propagates, PassesAllOn;
    if n.If? && |n.body| == 1 && n.body[0].Return? {
      forall name
        ensures ErrorNilCheckIdent(n.cond) == Some(name) <==> ComparesWithNil(n.cond, name)
        ensures Propagates(n.body[0].values, name, ctx) <==> PassesAllOn(n.body[0].values, name, ctx)
      {
        ComparesIff(n.cond, name);
        PropagatesIff(n.body[0].values, name, ctx);
      }
      if IsSimpleErrorReturn(n, ctx) {
        var name := ErrorNilCheckIdent(n.cond).value;
        assert ComparesWithNil(n.cond, name) && PassesAllOn(n.body[0].values, name, ctx);
      }
    }
  }

  lemma PropagatesIff(values: seq<Node>, name: string, ctx: ReturnContext)
    ensures Propagates(values, name, ctx) <==> PassesAllOn(values, name, ctx)
  {
    hide IsErrorPropagationExpr, PassesOn, IsZeroReturnExpr, ZeroLiteral;
    forall i | 0 <= i < |values|
      ensures IsErrorPropagationExpr(values[i], name) <==> PassesOn(values[i], name)
      ensures IsZeroReturnExpr(values[i]) <==> ZeroLiteral(values[i])
    {
      PassesOnIff(values[i], name);
      ZeroLiteralIff(values[i]);
    }
  }

  // The measure is this count.

  function Nodes(slots: seq<Slot>): seq<Node> {
    seq(|slots|, i requires 0 <= i < |slots| => slots[i].node)
  }

  lemma NodesOf(role: Role, ns: seq<Node>)
    ensures Nodes(As(role, ns)) == ns
  {
  }

  lemma NodesOfOpt(role: Role, n: Option<Node>)
    ensures Nodes(AsOpt(role, n)) == Opt(n)
  {
  }

  lemma NodesOfOne(s: Slot)
    ensures Nodes([s]) == [s.node]
  {
  }

  lemma NodesAppend(a: seq<Slot>, b: seq<Slot>)
    ensures Nodes(a + b) == Nodes(a) + Nodes(b)
  {
  }

  lemma NodesOf3(a: seq<Slot>, b: seq<Slot>, c: seq<Slot>)
    ensures Nodes(a + b + c) == Nodes(a) + Nodes(b) + Nodes(c)
  {
    hide Nodes;
    NodesAppend(a, b);
    NodesAppend(a + b, c);
  }

  lemma NodesOf4(a: seq<Slot>, b: seq<Slot>, c: seq<Slot>, d: seq<Slot>)
    ensures Nodes(a + b + c + d) == Nodes(a) + Nodes(b) + Nodes(c) + Nodes(d)
  {
    hide Nodes;
    NodesOf3(a, b, c);
    NodesAppend(a + b + c, d);
  }

  /** No position is missing: they hold exactly the nodes below, in order. */
  lemma SlotsAreChildren(n: Node)
    ensures Nodes(Slots(n)) == Children(n)
    ensures |Slots(n)| == |Children(n)|
    ensures forall i :: 0 <= i < |Slots(n)| ==> Slots(n)[i].node == Children(n)[i]
  {
    SlotNodes(n);
    hide Slots, Children;
    assert |Nodes(Slots(n))| == |Slots(n)|;
    assert forall i :: 0 <= i < |Slots(n)| ==> Slots(n)[i].node == Nodes(Slots(n))[i];
  }

  lemma SlotNodes(n: Node)
    ensures Nodes(Slots(n)) == Children(n)
  {
    hide Nodes, As, AsOpt, Opt;
    forall role, ns
      ensures Nodes(As(role, ns)) == ns
    {
      NodesOf(role, ns);
    }
    forall role, o
      ensures Nodes(AsOpt(role, o)) == Opt(o)
    {
      NodesOfOpt(role, o);
    }
    forall s
      ensures Nodes([s]) == [s.node]
    {
      NodesOfOne(s);
    }
    if n.CaseClause? || n.CommClause? || n.Call? || n.Binary? {
      NodesOfPairs(n);
      return;
    }
    match n
    case If(i, c, b, e) => NodesOf4(AsOpt(Init, i), [Slot(Cond, c)], As(Body, b), AsOpt(Else, e));
    case For(i, c, p, b) => NodesOf4(AsOpt(Init, i), AsOpt(Cond, c), AsOpt(Post, p), As(Body, b));
    case Range(vs, x, b) => NodesOf3(As(Var, vs), [Slot(Over, x)], As(Body, b));
    case Switch(i, t, cs) => NodesOf3(AsOpt(Init, i), AsOpt(Tag, t), As(Clause, cs));
    case TypeSwitch(i, a, cs) => NodesOf3(AsOpt(Init, i), [Slot(Assign, a)], As(Clause, cs));
    case _ => NoNodes();
  }

  lemma NodesOfPairs(n: Node)
    requires n.CaseClause? || n.CommClause? || n.Call? || n.Binary?
    ensures Nodes(Slots(n)) == Children(n)
  {
    hide Nodes, As, AsOpt, Opt;
    match n
    case CaseClause(es, b) =>
      NodesOf(Case, es);
      NodesOf(Body, b);
      NodesAppend(As(Case, es), As(Body, b));
    case CommClause(c, b) =>
      NodesOfOpt(Comm, c);
      NodesOf(Body, b);
      NodesAppend(AsOpt(Comm, c), As(Body, b));
    case Call(_, fun, args) =>
      NodesOfOne(Slot(Operand, fun));
      NodesOf(Operand, args);
      NodesAppend([Slot(Operand, fun)], As(Operand, args));
    case Binary(_, x, y) =>
      NodesOfOne(Slot(Operand, x));
      NodesOfOne(Slot(Operand, y));
      NodesAppend([Slot(Operand, x)], [Slot(Operand, y)]);
      assert [Slot(Operand, x)] + [Slot(Operand, y)] == [Slot(Operand, x), Slot(Operand, y)];
  }

  lemma NoNodes()
    ensures Nodes([]) == []
  {
  }

  lemma CountSlotsStep(counting: bool, ctx: ReturnContext, mode: Mode, n: Node, slots: seq<Slot>, s: Slot)
    requires (forall i :: 0 <= i < |slots| ==> slots[i].node < n) && s.node < n
    ensures CountSlots(counting, ctx, mode, n, slots + [s])
         == Plus(CountSlots(counting, ctx, mode, n, slots), Followed(counting, ctx, mode, n, s))
  {
    hide Followed, Plus;
    assert (slots + [s])[..|slots|] == slots;
  }

  lemma {:induction false} CountSlotsAppend(counting: bool, ctx: ReturnContext, mode: Mode, n: Node, a: seq<Slot>, b: seq<Slot>)
    requires forall i :: 0 <= i < |a| ==> a[i].node < n
    requires forall i :: 0 <= i < |b| ==> b[i].node < n
    ensures CountSlots(counting, ctx, mode, n, a + b)
         == Plus(CountSlots(counting, ctx, mode, n, a), CountSlots(counting, ctx, mode, n, b))
  {
    hide Followed;
    if b == [] {
      assert a + b == a;
    } else {
      var init, s := b[..|b| - 1], b[|b| - 1];
      assert b == init + [s] && a + b == (a + init) + [s];
      CountSlotsAppend(counting, ctx, mode, n, a, init);
      hide CountSlots;
      CountSlotsStep(counting, ctx, mode, n, a + init, s);
      CountSlotsStep(counting, ctx, mode, n, init, s);
    }
  }

  /** A slot on its own. */
  lemma CountOne(counting: bool, ctx: ReturnContext, mode: Mode, n: Node, s: Slot)
    requires s.node < n
    ensures CountSlots(counting, ctx, mode, n, [s]) == Followed(counting, ctx, mode, n, s)
  {
    hide *;
    CountNone(counting, ctx, mode, n);
    CountSlotsStep(counting, ctx, mode, n, [], s);
    PlusNothing(Followed(counting, ctx, mode, n, s));
    assert [] + [s] == [s];
  }

  lemma CountNone(counting: bool, ctx: ReturnContext, mode: Mode, n: Node)
    ensures CountSlots(counting, ctx, mode, n, []) == Cost(0, 0, 0)
  {
  }

  lemma {:induction false} OperatorsAreBools(n: Node)
    ensures Bools(n) == Operators(n)
    decreases n, 1
  {
    SlotsAreChildren(n);
    SlotBools(n, |Children(n)|);
    assert Slots(n)[..|Children(n)|] == Slots(n);
  }

  lemma {:induction false} SlotBools(n: Node, k: nat)
    requires k <= |Children(n)| == |Slots(n)|
    requires forall i :: 0 <= i < |Slots(n)| ==> Slots(n)[i].node == Children(n)[i]
    ensures ChildBools(n, k) == SlotOperators(n, Slots(n)[..k])
    decreases n, 0, k
  {
    hide Bools, Operators, Slots, Children;
    if k > 0 {
      SlotBools(n, k - 1);
      OperatorsAreBools(Children(n)[k - 1]);
      assert Slots(n)[..k][..k - 1] == Slots(n)[..k - 1];
    }
  }

  /** A part of a list that is met as statements. */
  lemma {:induction false} StatementSlots(counting: bool, ctx: ReturnContext, mode: Mode, n: Node, role: Role, ns: seq<Node>)
    requires (forall i :: 0 <= i < |ns| ==> ns[i] < n) && Follow(mode, n, role) == Some(InStatement)
    ensures CountSlots(counting, ctx, mode, n, As(role, ns)) == Total(AllVisits(counting, ctx, ns))
    decreases n, 3, |ns|
  {
    hide Follow, Visits, Count, Plus;
    if ns != [] {
      var init, last := ns[..|ns| - 1], ns[|ns| - 1];
      StatementSlots(counting, ctx, mode, n, role, init);
      StatementCount(counting, ctx, last);
      assert As(role, ns) == As(role, init) + [Slot(role, last)];
      CountSlotsStep(counting, ctx, mode, n, As(role, init), Slot(role, last));
      TotalAppend(AllVisits(counting, ctx, init), Visits(counting, ctx, last));
    }
  }

  lemma StatementOpt(counting: bool, ctx: ReturnContext, mode: Mode, n: Node, role: Role, s: Option<Node>)
    requires (s.Some? ==> s.value < n) && Follow(mode, n, role) == Some(InStatement)
    ensures CountSlots(counting, ctx, mode, n, AsOpt(role, s)) == Total(OptVisits(counting, ctx, s))
    decreases n, 3, 0
  {
    hide Follow, Visits, Count;
    if s.Some? {
      StatementCount(counting, ctx, s.value);
      CountOne(counting, ctx, mode, n, Slot(role, s.value));
    }
  }

  lemma {:induction false} ExpressionSlots(counting: bool, ctx: ReturnContext, mode: Mode, n: Node, role: Role, ns: seq<Node>)
    requires (forall i :: 0 <= i < |ns| ==> ns[i] < n) && Follow(mode, n, role) == Some(InExpression)
    ensures CountSlots(counting, ctx, mode, n, As(role, ns)) == Total(AllLits(counting, ctx, ns))
    decreases n, 3, |ns|
  {
    hide Follow, LitVisits, Count, Plus;
    if ns != [] {
      var init, last := ns[..|ns| - 1], ns[|ns| - 1];
      ExpressionSlots(counting, ctx, mode, n, role, init);
      ExpressionCount(counting, ctx, last);
      assert As(role, ns) == As(role, init) + [Slot(role, last)];
      CountSlotsStep(counting, ctx, mode, n, As(role, init), Slot(role, last));
      TotalAppend(AllLits(counting, ctx, init), LitVisits(counting, ctx, last));
    }
  }

  lemma ExpressionOne(counting: bool, ctx: ReturnContext, mode: Mode, n: Node, role: Role, e: Node)
    requires e < n && Follow(mode, n, role) == Some(InExpression)
    ensures CountSlots(counting, ctx, mode, n, [Slot(role, e)]) == Total(LitVisits(counting, ctx, e))
    decreases n, 3, 0
  {
    hide *;
    ExpressionCount(counting, ctx, e);
    FollowedAs(counting, ctx, mode, n, Slot(role, e));
    CountOne(counting, ctx, mode, n, Slot(role, e));
  }

  lemma ExpressionOpt(counting: bool, ctx: ReturnContext, mode: Mode, n: Node, role: Role, e: Option<Node>)
    requires (e.Some? ==> e.value < n) && Follow(mode, n, role) == Some(InExpression)
    ensures CountSlots(counting, ctx, mode, n, AsOpt(role, e)) == Total(OptLits(counting, ctx, e))
    decreases n, 3, 1
  {
    NoExpression(counting, ctx, mode, n, role);
    hide Follow, LitVisits, Count, CountSlots, Total;
    if e.Some? {
      ExpressionOne(counting, ctx, mode, n, role, e.value);
    }
  }

  lemma NoExpression(counting: bool, ctx: ReturnContext, mode: Mode, n: Node, role: Role)
    ensures CountSlots(counting, ctx, mode, n, AsOpt(role, None)) == Cost(0, 0, 0) == Total(OptLits(counting, ctx, None))
  {
    CountNone(counting, ctx, mode, n);
    hide Follow, Count, CountSlots;
  }

  lemma FollowedAs(counting: bool, ctx: ReturnContext, mode: Mode, n: Node, s: Slot)
    requires s.node < n && Follow(mode, n, s.role) == Some(InExpression)
    ensures Followed(counting, ctx, mode, n, s) == Count(counting, ctx, InExpression, s.node)
  {
    hide Follow, Count;
  }

  lemma {:induction false} ClauseSlots(counting: bool, ctx: ReturnContext, n: Node, select: bool, cs: seq<Node>)
    requires (forall i :: 0 <= i < |cs| ==> cs[i] < n) && Follow(InStatement, n, Clause) == Some(InClauses(select))
    ensures CountSlots(counting, ctx, InStatement, n, As(Clause, cs))
         == Total(if select then CommVisits(counting, ctx, cs) else CaseVisits(counting, ctx, cs))
    decreases n, 3, |cs|
  {
    hide Follow, OneCase, OneComm, Count, Plus;
    if cs != [] {
      var init, last := cs[..|cs| - 1], cs[|cs| - 1];
      ClauseSlots(counting, ctx, n, select, init);
      assert As(Clause, cs) == As(Clause, init) + [Slot(Clause, last)];
      CountSlotsStep(counting, ctx, InStatement, n, As(Clause, init), Slot(Clause, last));
      if select {
        CommCount(counting, ctx, last);
        TotalAppend(CommVisits(counting, ctx, init), OneComm(counting, ctx, last));
      } else {
        CaseCount(counting, ctx, last);
        TotalAppend(CaseVisits(counting, ctx, init), OneCase(counting, ctx, last));
      }
    }
  }

  lemma OnlyOne(v: Visit)
    ensures Total([v]) == Weight(v)
  {
    hide Weight;
    assert [v][..0] == [];
  }

  lemma AnyCount(counting: bool, ctx: ReturnContext, c: Node, select: bool)
    ensures Count(counting, ctx, InClauses(select), c)
         == Plus(Here(InClauses(select), c), CountSlots(counting, Inside(c, ctx), InClauses(select), c, Slots(c)))
  {
    hide CountSlots, Slots, IsSimpleErrorReturn, Here, Plus, Inside;
  }

  /** A clause counts by what is here and in its positions. */
  lemma ClauseCount(counting: bool, ctx: ReturnContext, c: Node, select: bool)
    requires !c.FuncLit?
    ensures Count(counting, ctx, InClauses(select), c)
         == Plus(Here(InClauses(select), c), CountSlots(counting, ctx, InClauses(select), c, Slots(c)))
  {
    AnyCount(counting, ctx, c, select);
    hide CountSlots, Slots, Count, Here, Plus;
  }

  /** A clause weighs what it is visited for. */
  lemma ClauseWeight(c: Node, select: bool)
    requires ClauseOf(c, select)
    ensures Here(InClauses(select), c) == Weight(ClauseVisit(c))
  {
    hide Operators;
  }

  lemma CaseTotal(counting: bool, ctx: ReturnContext, c: Node)
    requires c.CaseClause?
    ensures Total(OneCase(counting, ctx, c))
         == Plus(Weight(ClauseVisit(c)), Plus(Total(AllLits(counting, ctx, c.exprs)), Total(AllVisits(counting, ctx, c.body))))
  {
    hide AllLits, AllVisits, Total, Weight, Plus;
    TotalOf(ClauseVisit(c), AllLits(counting, ctx, c.exprs), AllVisits(counting, ctx, c.body), [], []);
  }

  lemma CommTotal(counting: bool, ctx: ReturnContext, c: Node)
    requires c.CommClause?
    ensures Total(OneComm(counting, ctx, c))
         == Plus(Weight(ClauseVisit(c)), Plus(Total(OptLits(counting, ctx, c.comm)), Total(AllVisits(counting, ctx, c.body))))
  {
    hide OptLits, AllVisits, Total, Weight, Plus;
    TotalOf(ClauseVisit(c), OptLits(counting, ctx, c.comm), AllVisits(counting, ctx, c.body), [], []);
  }

  lemma ClauseFollows(c: Node, select: bool)
    requires ClauseOf(c, select)
    ensures Follow(InClauses(select), c, Body) == Some(InStatement)
    ensures Follow(InClauses(select), c, Case) == Follow(InClauses(select), c, Comm) == Some(InExpression)
  {
  }

  lemma CaseSlots(c: Node)
    ensures c.CaseClause? ==> Slots(c) == As(Case, c.exprs) + As(Body, c.body)
    ensures c.CommClause? ==> Slots(c) == AsOpt(Comm, c.comm) + As(Body, c.body)
  {
    hide As, AsOpt;
  }

  lemma CaseCountSlots(counting: bool, ctx: ReturnContext, c: Node)
    requires c.CaseClause?
    ensures CountSlots(counting, ctx, InClauses(false), c, Slots(c))
         == Plus(Total(AllLits(counting, ctx, c.exprs)), Total(AllVisits(counting, ctx, c.body)))
    decreases c, 4
  {
    hide *;
    IsClause(c, false);
    CaseSlots(c);
    ClauseFollows(c, false);
    AllFits(Case, c.exprs, c);
    AllFits(Body, c.body, c);
    ExpressionSlots(counting, ctx, InClauses(false), c, Case, c.exprs);
    StatementSlots(counting, ctx, InClauses(false), c, Body, c.body);
    CountSlotsAppend(counting, ctx, InClauses(false), c, As(Case, c.exprs), As(Body, c.body));
  }

  lemma CommCountSlots(counting: bool, ctx: ReturnContext, c: Node)
    requires c.CommClause?
    ensures CountSlots(counting, ctx, InClauses(true), c, Slots(c))
         == Plus(Total(OptLits(counting, ctx, c.comm)), Total(AllVisits(counting, ctx, c.body)))
    decreases c, 4
  {
    hide *;
    IsClause(c, true);
    CaseSlots(c);
    ClauseFollows(c, true);
    OptFits(Comm, c.comm, c);
    AllFits(Body, c.body, c);
    ExpressionOpt(counting, ctx, InClauses(true), c, Comm, c.comm);
    StatementSlots(counting, ctx, InClauses(true), c, Body, c.body);
    CountSlotsAppend(counting, ctx, InClauses(true), c, AsOpt(Comm, c.comm), As(Body, c.body));
  }

  lemma NoClauseVisits(counting: bool, ctx: ReturnContext, c: Node)
    ensures !c.CaseClause? ==> Total(OneCase(counting, ctx, c)) == Cost(0, 0, 0)
    ensures !c.CommClause? ==> Total(OneComm(counting, ctx, c)) == Cost(0, 0, 0)
  {
    hide AllVisits, AllLits, OptLits, Weight;
  }

  lemma {:induction false} CaseCount(counting: bool, ctx: ReturnContext, c: Node)
    ensures Total(OneCase(counting, ctx, c)) == Count(counting, ctx, InClauses(false), c)
    decreases c, 5
  {
    hide *;
    if c.CaseClause? {
      IsClause(c, false);
      ClauseCount(counting, ctx, c, false);
      ClauseWeight(c, false);
      CaseTotal(counting, ctx, c);
      CaseCountSlots(counting, ctx, c);
    } else {
      IsClause(c, false);
      NoClauseVisits(counting, ctx, c);
      NoClause(counting, ctx, c, false);
    }
  }

  lemma {:induction false} CommCount(counting: bool, ctx: ReturnContext, c: Node)
    ensures Total(OneComm(counting, ctx, c)) == Count(counting, ctx, InClauses(true), c)
    decreases c, 5
  {
    hide *;
    if c.CommClause? {
      IsClause(c, true);
      ClauseCount(counting, ctx, c, true);
      ClauseWeight(c, true);
      CommTotal(counting, ctx, c);
      CommCountSlots(counting, ctx, c);
    } else {
      IsClause(c, true);
      NoClauseVisits(counting, ctx, c);
      NoClause(counting, ctx, c, true);
    }
  }

  lemma IsClause(c: Node, select: bool)
    ensures ClauseOf(c, select) <==> if select then c.CommClause? else c.CaseClause?
  {
  }

  /** What is no clause of the statement it is in counts for nothing. */
  lemma NoClause(counting: bool, ctx: ReturnContext, c: Node, select: bool)
    requires !ClauseOf(c, select)
    ensures Count(counting, ctx, InClauses(select), c) == Cost(0, 0, 0)
  {
    hide *;
    AnyCount(counting, ctx, c, select);
    NothingHere(c, select);
    NothingFollows(counting, Inside(c, ctx), select, c, Slots(c));
    PlusNothing(Cost(0, 0, 0));
  }

  lemma NothingHere(c: Node, select: bool)
    requires !ClauseOf(c, select)
    ensures Here(InClauses(select), c) == Cost(0, 0, 0)
  {
    hide Operators;
  }

  lemma NotFollowed(counting: bool, ctx: ReturnContext, select: bool, c: Node, s: Slot)
    requires !ClauseOf(c, select) && s.node < c
    ensures Followed(counting, ctx, InClauses(select), c, s) == Cost(0, 0, 0)
  {
    hide Count;
  }

  lemma PlusNothing(a: Cost)
    ensures Plus(Cost(0, 0, 0), a) == a == Plus(a, Cost(0, 0, 0))
  {
  }

  lemma {:induction false} NothingFollows(counting: bool, ctx: ReturnContext, select: bool, c: Node, slots: seq<Slot>)
    requires !ClauseOf(c, select) && forall i :: 0 <= i < |slots| ==> slots[i].node < c
    ensures CountSlots(counting, ctx, InClauses(select), c, slots) == Cost(0, 0, 0)
    decreases |slots|
  {
    hide *;
    CountNone(counting, ctx, InClauses(select), c);
    if slots != [] {
      var init, last := slots[..|slots| - 1], slots[|slots| - 1];
      assert slots == init + [last];
      NothingFollows(counting, ctx, select, c, init);
      CountSlotsStep(counting, ctx, InClauses(select), c, init, last);
      NotFollowed(counting, ctx, select, c, last);
      PlusNothing(Cost(0, 0, 0));
    }
  }

  lemma {:induction false} ExpressionCount(counting: bool, ctx: ReturnContext, n: Node)
    ensures Total(LitVisits(counting, ctx, n)) == Count(counting, ctx, InExpression, n)
    decreases n, 4
  {
    hide AllVisits, CountSlots, Children, Total, Slots;
    if n.FuncLit? {
      LitSlots(n);
      StatementSlots(counting, Inside(n, ctx), InExpression, n, LitBody, n.litBody);
    } else {
      SlotsAreChildren(n);
      ChildCount(counting, ctx, InExpression, n, |Children(n)|);
      assert Slots(n)[..|Slots(n)|] == Slots(n);
    }
  }

  lemma LitSlots(n: Node)
    requires n.FuncLit?
    ensures Slots(n) == As(LitBody, n.litBody)
  {
  }

  lemma {:induction false} ChildCount(counting: bool, ctx: ReturnContext, mode: Mode, n: Node, k: nat)
    requires k <= |Children(n)| == |Slots(n)| && !n.FuncLit? && (mode == InExpression || (mode == InStatement && !Structured(n)))
    requires forall i :: 0 <= i < |Slots(n)| ==> Slots(n)[i].node == Children(n)[i]
    ensures Total(ChildLits(counting, ctx, n, k)) == CountSlots(counting, ctx, mode, n, Slots(n)[..k])
    decreases n, 3, k
  {
    hide LitVisits, Count, Plus, Slots, Children;
    if k > 0 {
      ChildCount(counting, ctx, mode, n, k - 1);
      var c := Children(n)[k - 1];
      ExpressionCount(counting, ctx, c);
      TotalAppend(ChildLits(counting, ctx, n, k - 1), LitVisits(counting, ctx, c));
      assert Slots(n)[..k] == Slots(n)[..k - 1] + [Slots(n)[k - 1]];
      CountSlotsStep(counting, ctx, mode, n, Slots(n)[..k - 1], Slots(n)[k - 1]);
    }
  }

  /** A statement without statements in it. */
  lemma {:induction false} PlainCount(counting: bool, ctx: ReturnContext, n: Node)
    requires !Structured(n)
    ensures Total([Visit(n, ctx)] + LitVisits(counting, ctx, n)) == Count(counting, ctx, InStatement, n)
    decreases n, 5
  {
    hide AllVisits, CountSlots, Children, Total, Slots, LitVisits, ChildLits;
    OnlyIfs(n, ctx);
    OnlyOne(Visit(n, ctx));
    TotalAppend([Visit(n, ctx)], LitVisits(counting, ctx, n));
    PlainSlots(counting, ctx, n);
  }

  lemma {:induction false} PlainSlots(counting: bool, ctx: ReturnContext, n: Node)
    requires !Structured(n)
    ensures Total(LitVisits(counting, ctx, n)) == CountSlots(counting, Inside(n, ctx), InStatement, n, Slots(n))
    decreases n, 4
  {
    hide AllVisits, CountSlots, Children, Total, Slots, ChildLits;
    if n.FuncLit? {
      LitSlots(n);
      StatementSlots(counting, Inside(n, ctx), InStatement, n, LitBody, n.litBody);
    } else {
      SlotsAreChildren(n);
      ChildCount(counting, ctx, InStatement, n, |Children(n)|);
      assert Slots(n)[..|Slots(n)|] == Slots(n);
    }
  }

  lemma {:induction false} StatementCount(counting: bool, ctx: ReturnContext, n: Node)
    ensures Total(Visits(counting, ctx, n)) == Count(counting, ctx, InStatement, n)
    decreases n, 6
  {
    hide OptVisits, AllVisits, LitVisits, CaseVisits, CommVisits, OptLits, Total, CountSlots, IsSimpleErrorReturn, Bools, Operators;
    if !counting && Discounted(Visit(n, ctx)) {
      OnlyIfs(n, ctx);
      InitCount(counting, ctx, n.init);
    } else {
      match n
      case Block(l) =>
        StatementSlots(counting, ctx, InStatement, n, Body, l);
      case If(_, _, _, _) => IfCount(counting, ctx, n);
      case For(_, _, _, _) => ForCount(counting, ctx, n);
      case Range(_, _, _) => RangeCount(counting, ctx, n);
      case Switch(_, _, _) => SwitchCount(counting, ctx, n);
      case TypeSwitch(_, _, _) => TypeSwitchCount(counting, ctx, n);
      case Select(cs) =>
        ClauseSlots(counting, ctx, n, true, cs);
        OnlyOne(Visit(n, ctx));
        TotalAppend([Visit(n, ctx)], CommVisits(counting, ctx, cs));
      case _ => PlainCount(counting, ctx, n);
    }
  }

  lemma InitCount(counting: bool, ctx: ReturnContext, init: Option<Node>)
    ensures Total(OptVisits(counting, ctx, init)) == if init.Some? then Count(counting, ctx, InStatement, init.value) else Cost(0, 0, 0)
    decreases init, 0
  {
    hide Visits, Count;
    if init.Some? {
      StatementCount(counting, ctx, init.value);
    }
  }

  lemma TotalOf(v: Visit, a: seq<Visit>, b: seq<Visit>, c: seq<Visit>, d: seq<Visit>)
    ensures Total([v] + (a + (b + (c + d)))) == Plus(Weight(v), Plus(Total(a), Plus(Total(b), Plus(Total(c), Total(d)))))
    ensures Total([v] + (a + (b + c))) == Plus(Weight(v), Plus(Total(a), Plus(Total(b), Total(c))))
    ensures Total([v] + (a + b)) == Plus(Weight(v), Plus(Total(a), Total(b)))
  {
    hide Total, Weight, Plus;
    OnlyOne(v);
    TotalAppend([v], a + (b + (c + d)));
    TotalAppend(a, b + (c + d));
    TotalAppend(b, c + d);
    TotalAppend(c, d);
    TotalAppend([v], a + (b + c));
    TotalAppend(a, b + c);
    TotalAppend(b, c);
    TotalAppend([v], a + b);
    TotalAppend(a, b);
  }

  lemma SlotsOf(counting: bool, ctx: ReturnContext, n: Node, a: seq<Slot>, b: seq<Slot>, c: seq<Slot>, d: seq<Slot>)
    requires forall i :: 0 <= i < |a| ==> a[i].node < n
    requires forall i :: 0 <= i < |b| ==> b[i].node < n
    requires forall i :: 0 <= i < |c| ==> c[i].node < n
    requires forall i :: 0 <= i < |d| ==> d[i].node < n
    ensures CountSlots(counting, ctx, InStatement, n, a + b + c + d)
         == Plus(Plus(Plus(CountSlots(counting, ctx, InStatement, n, a), CountSlots(counting, ctx, InStatement, n, b)),
                      CountSlots(counting, ctx, InStatement, n, c)), CountSlots(counting, ctx, InStatement, n, d))
    ensures CountSlots(counting, ctx, InStatement, n, a + b + c)
         == Plus(Plus(CountSlots(counting, ctx, InStatement, n, a), CountSlots(counting, ctx, InStatement, n, b)),
                 CountSlots(counting, ctx, InStatement, n, c))
  {
    hide CountSlots, Plus;
    CountSlotsAppend(counting, ctx, InStatement, n, a, b);
    CountSlotsAppend(counting, ctx, InStatement, n, a + b, c);
    CountSlotsAppend(counting, ctx, InStatement, n, a + b + c, d);
  }

  lemma IfCount(counting: bool, ctx: ReturnContext, n: Node)
    requires n.If? && (counting || !Discounted(Visit(n, ctx)))
    ensures Total(Visits(counting, ctx, n)) == Count(counting, ctx, InStatement, n)
    decreases n, 5
  {
    hide OptVisits, AllVisits, LitVisits, Total, CountSlots, IsSimpleErrorReturn, Bools, Operators, As, AsOpt;
    StatementOpt(counting, ctx, InStatement, n, Init, n.init);
    ExpressionOne(counting, ctx, InStatement, n, Cond, n.cond);
    StatementSlots(counting, ctx, InStatement, n, Body, n.body);
    StatementOpt(counting, ctx, InStatement, n, Else, n.els);
    OperatorsAreBools(n.cond);
    OptFits(Init, n.init, n);
    OptFits(Else, n.els, n);
    SlotsOf(counting, ctx, n, AsOpt(Init, n.init), [Slot(Cond, n.cond)], As(Body, n.body), AsOpt(Else, n.els));
    TotalOf(Visit(n, ctx), LitVisits(counting, ctx, n.cond), OptVisits(counting, ctx, n.init),
      AllVisits(counting, ctx, n.body), OptVisits(counting, ctx, n.els));
  }

  lemma AllFits(role: Role, ns: seq<Node>, n: Node)
    requires forall i :: 0 <= i < |ns| ==> ns[i] < n
    ensures forall i :: 0 <= i < |As(role, ns)| ==> As(role, ns)[i].node < n
  {
  }

  lemma OptFits(role: Role, s: Option<Node>, n: Node)
    requires s.Some? ==> s.value < n
    ensures forall i :: 0 <= i < |AsOpt(role, s)| ==> AsOpt(role, s)[i].node < n
  {
  }

  lemma ForCount(counting: bool, ctx: ReturnContext, n: Node)
    requires n.For? && (counting || !Discounted(Visit(n, ctx)))
    ensures Total(Visits(counting, ctx, n)) == Count(counting, ctx, InStatement, n)
    decreases n, 5
  {
    hide OptVisits, AllVisits, OptLits, Total, CountSlots, IsSimpleErrorReturn, Bools, Operators, As, AsOpt;
    StatementOpt(counting, ctx, InStatement, n, Init, n.init);
    ExpressionOpt(counting, ctx, InStatement, n, Cond, n.forCond);
    StatementOpt(counting, ctx, InStatement, n, Post, n.post);
    StatementSlots(counting, ctx, InStatement, n, Body, n.body);
    if n.forCond.Some? {
      OperatorsAreBools(n.forCond.value);
    }
    OptFits(Init, n.init, n);
    OptFits(Cond, n.forCond, n);
    OptFits(Post, n.post, n);
    SlotsOf(counting, ctx, n, AsOpt(Init, n.init), AsOpt(Cond, n.forCond), AsOpt(Post, n.post), As(Body, n.body));
    TotalOf(Visit(n, ctx), OptLits(counting, ctx, n.forCond), OptVisits(counting, ctx, n.init),
      OptVisits(counting, ctx, n.post), AllVisits(counting, ctx, n.body));
  }

  /** The loop variables of a range are not measured. */
  lemma {:induction false} VariablesCount(counting: bool, ctx: ReturnContext, n: Node, vs: seq<Node>)
    requires n.Range? && forall i :: 0 <= i < |vs| ==> vs[i] < n
    ensures CountSlots(counting, ctx, InStatement, n, As(Var, vs)) == Cost(0, 0, 0)
    decreases |vs|
  {
    CountNone(counting, ctx, InStatement, n);
    hide Count, CountSlots;
    if vs == [] {
      assert As(Var, vs) == [];
    } else {
      var init, last := vs[..|vs| - 1], vs[|vs| - 1];
      VariablesCount(counting, ctx, n, init);
      assert As(Var, vs) == As(Var, init) + [Slot(Var, last)];
      CountSlotsStep(counting, ctx, InStatement, n, As(Var, init), Slot(Var, last));
    }
  }

  lemma RangeCount(counting: bool, ctx: ReturnContext, n: Node)
    requires n.Range? && (counting || !Discounted(Visit(n, ctx)))
    ensures Total(Visits(counting, ctx, n)) == Count(counting, ctx, InStatement, n)
    decreases n, 5
  {
    hide AllVisits, LitVisits, Total, CountSlots, IsSimpleErrorReturn, Bools, Operators, As;
    VariablesCount(counting, ctx, n, n.vars);
    ExpressionOne(counting, ctx, InStatement, n, Over, n.x);
    StatementSlots(counting, ctx, InStatement, n, Body, n.body);
    SlotsOf(counting, ctx, n, As(Var, n.vars), [Slot(Over, n.x)], As(Body, n.body), []);
    TotalOf(Visit(n, ctx), LitVisits(counting, ctx, n.x), AllVisits(counting, ctx, n.body), [], []);
  }

  lemma SwitchCount(counting: bool, ctx: ReturnContext, n: Node)
    requires n.Switch? && (counting || !Discounted(Visit(n, ctx)))
    ensures Total(Visits(counting, ctx, n)) == Count(counting, ctx, InStatement, n)
    decreases n, 5
  {
    hide OptVisits, OptLits, CaseVisits, Total, CountSlots, IsSimpleErrorReturn, Bools, Operators, As, AsOpt;
    StatementOpt(counting, ctx, InStatement, n, Init, n.init);
    ExpressionOpt(counting, ctx, InStatement, n, Tag, n.tag);
    ClauseSlots(counting, ctx, n, false, n.clauses);
    OptFits(Init, n.init, n);
    OptFits(Tag, n.tag, n);
    SlotsOf(counting, ctx, n, AsOpt(Init, n.init), AsOpt(Tag, n.tag), As(Clause, n.clauses), []);
    TotalOf(Visit(n, ctx), OptLits(counting, ctx, n.tag), OptVisits(counting, ctx, n.init), CaseVisits(counting, ctx, n.clauses), []);
  }

  lemma TypeSwitchCount(counting: bool, ctx: ReturnContext, n: Node)
    requires n.TypeSwitch? && (counting || !Discounted(Visit(n, ctx)))
    ensures Total(Visits(counting, ctx, n)) == Count(counting, ctx, InStatement, n)
    decreases n, 5
  {
    hide OptVisits, LitVisits, CaseVisits, Total, CountSlots, IsSimpleErrorReturn, Bools, Operators, As, AsOpt;
    StatementOpt(counting, ctx, InStatement, n, Init, n.init);
    ExpressionOne(counting, ctx, InStatement, n, Assign, n.assign);
    ClauseSlots(counting, ctx, n, false, n.clauses);
    OptFits(Init, n.init, n);
    SlotsOf(counting, ctx, n, AsOpt(Init, n.init), [Slot(Assign, n.assign)], As(Clause, n.clauses), []);
    TotalOf(Visit(n, ctx), OptVisits(counting, ctx, n.init), LitVisits(counting, ctx, n.assign), CaseVisits(counting, ctx, n.clauses), []);
  }

  lemma {:induction false} AllCount(counting: bool, ctx: ReturnContext, ns: seq<Node>)
    ensures Total(AllVisits(counting, ctx, ns)) == CountAll(counting, ctx, ns)
  {
    hide Visits, Count, Plus;
    if ns != [] {
      var init, n := ns[..|ns| - 1], ns[|ns| - 1];
      AllCount(counting, ctx, init);
      StatementCount(counting, ctx, n);
      TotalAppend(AllVisits(counting, ctx, init), Visits(counting, ctx, n));
    }
  }

  /** The three numbers of a function are the count of its body, whether or not error-returning ifs
      are counted. */
  method MeasureIsCount(counting: bool, results: seq<ResultKind>, body: seq<Node>, info: bool)
    returns (branches: int, statements: int, cyclomatic: int)
    ensures var c := CountAll(counting, ReturnContext(info, if info then results else []), body);
            branches == c.branches && statements == c.statements && cyclomatic == 1 + c.branches + c.bools
  {
    hide Total, AllVisits, CountAll;
    branches, statements, cyclomatic := Measure(counting, results, body, info);
    AllCount(counting, ReturnContext(info, if info then results else []), body);
  }
}
