/** WalkSignatureNamedTypes: the named types a signature mentions, over type graphs that may be
    cyclic, and the transaction rule that reports the forbidden ones. */
module TypeWalk {
  import opened Digraph

  /** A go/types object by identity; an ID outside the heap is a nil type. */
  type TypeId = nat

  /** `id` is the qualified name, "" without a package. `depth` bounds the aliases behind an alias;
      the type checker rejects endless ones. */
  datatype TypeNode =
    | Named(id: string, typeArgs: seq<TypeId>)
    | Pointer(elem: TypeId)
    | Slice(elem: TypeId)
    | Array(elem: TypeId)
    | Map(key: TypeId, elem: TypeId)
    | Chan(elem: TypeId)
    | Signature(params: TypeId, results: TypeId)
    | Tuple(vars: seq<TypeId>)
    | Struct(fields: seq<TypeId>)
    | Interface(methods: seq<TypeId>)
    | Alias(rhs: TypeId, depth: nat)
    | Basic

  type Heap = map<TypeId, TypeNode>

  predicate IsAlias(h: Heap, t: TypeId) {
    t in h && h[t].Alias?
  }

  ghost predicate AliasesEnd(h: Heap) {
    forall t :: IsAlias(h, t) && IsAlias(h, h[t].rhs) ==> h[h[t].rhs].depth < h[t].depth
  }

  /** types.Unalias. */
  function Unalias(h: Heap, t: TypeId): (u: TypeId)
    requires AliasesEnd(h)
    ensures !IsAlias(h, u)
    decreases if IsAlias(h, t) then 1 + h[t].depth else 0
  {
    if IsAlias(h, t) then Unalias(h, h[t].rhs) else t
  }

  /** Each type is an alias of the next. */
  ghost predicate AliasChain(h: Heap, p: seq<TypeId>) {
    |p| >= 1 && forall i :: 0 <= i < |p| - 1 ==> IsAlias(h, p[i]) && h[p[i]].rhs == p[i + 1]
  }

  /** It is the type at the end of the alias chain that starts at t, and the only one. */
  lemma {:induction false} UnaliasIff(h: Heap, t: TypeId, u: TypeId)
    requires AliasesEnd(h)
    ensures (exists p :: AliasChain(h, p) && p[0] == t && p[|p| - 1] == u && !IsAlias(h, u)) <==> u == Unalias(h, t)
    decreases if IsAlias(h, t) then 1 + h[t].depth else 0
  {
    if p :| AliasChain(h, p) && p[0] == t && p[|p| - 1] == u && !IsAlias(h, u) {
      ChainEnd(h, p);
    }
    if u == Unalias(h, t) {
      if IsAlias(h, t) {
        UnaliasIff(h, h[t].rhs, u);
        var q :| AliasChain(h, q) && q[0] == h[t].rhs && q[|q| - 1] == u && !IsAlias(h, u);
        var p := [t] + q;
        forall i | 0 <= i < |p| - 1
          ensures IsAlias(h, p[i]) && h[p[i]].rhs == p[i + 1]
        {
          assert i > 0 ==> p[i] == q[i - 1] && p[i + 1] == q[i - 1 + 1];
        }
        assert AliasChain(h, p);
      } else {
        assert AliasChain(h, [t]);
      }
    }
  }

  lemma {:induction false} ChainEnd(h: Heap, p: seq<TypeId>)
    requires AliasesEnd(h) && AliasChain(h, p) && !IsAlias(h, p[|p| - 1])
    ensures Unalias(h, p[0]) == p[|p| - 1]
    decreases |p|
  {
    if |p| > 1 {
      var q := p[1..];
      forall i | 0 <= i < |q| - 1
        ensures IsAlias(h, q[i]) && h[q[i]].rhs == q[i + 1]
      {
        assert IsAlias(h, p[i + 1]) && h[p[i + 1]].rhs == p[i + 1 + 1];
      }
      ChainEnd(h, q);
      assert IsAlias(h, p[0]) && h[p[0]].rhs == p[0 + 1];
    }
  }

  /** What the type switch descends into: a named type's arguments, not its underlying type. */
  function Parts(n: TypeNode): seq<TypeId> {
    match n
    case Named(_, args) => args
    case Pointer(e) => [e]
    case Slice(e) => [e]
    case Array(e) => [e]
    case Map(k, e) => [k, e]
    case Chan(e) => [e]
    case Signature(p, r) => [p, r]
    case Tuple(vs) => vs
    case Struct(fs) => fs
    case Interface(ms) => ms
    case Alias(_, _) | Basic => []
  }

  function PartsOf(h: Heap, t: TypeId): seq<TypeId> {
    if t in h then Parts(h[t]) else []
  }

  function NameOf(h: Heap, t: TypeId): string {
    if t in h && h[t].Named? then h[t].id else ""
  }

  // What is to be visited, without reference to the walk.

  /** An alias leads to its right-hand side, everything else to its parts. */
  ghost function TypeGraph(h: Heap): Graph<TypeId> {
    map t | t in h :: set c | c in (if h[t].Alias? then [h[t].rhs] else Parts(h[t])) && c in h
  }

  ghost predicate From(h: Heap, t: TypeId, n: TypeId) {
    n in h && (n == t || Reaches(TypeGraph(h), t, n))
  }

  /** id is the name of a named type that t mentions. */
  ghost predicate Mentions(h: Heap, t: TypeId, id: string) {
    id != "" && exists n :: From(h, t, n) && NameOf(h, n) == id
  }

  // What a type mentions, constructor by constructor.

  /** c is a type of which t is made: what it points at or holds, a map's key as well as its element,
      the parameters and the results of a function and the type of every variable among them, of
      every field and of every method, the arguments of a named type but nothing of what it stands
      for, and what an alias stands for. */
  predicate MadeOf(h: Heap, t: TypeId, c: TypeId) {
    t in h && c in h &&
    match h[t]
    case Named(_, args) => exists i :: 0 <= i < |args| && args[i] == c
    case Pointer(elem) => c == elem
    case Slice(elem) => c == elem
    case Array(elem) => c == elem
    case Map(key, elem) => c == key || c == elem
    case Chan(elem) => c == elem
    case Signature(params, results) => c == params || c == results
    case Tuple(vars) => exists i :: 0 <= i < |vars| && vars[i] == c
    case Struct(fields) => exists i :: 0 <= i < |fields| && fields[i] == c
    case Interface(methods) => exists i :: 0 <= i < |methods| && methods[i] == c
    case Alias(rhs, _) => c == rhs
    case Basic => false
  }

  /** Each type is made of the next. */
  ghost predicate MadeOfChain(h: Heap, p: seq<TypeId>) {
    |p| >= 1 && p[0] in h && forall i :: 0 <= i < |p| - 1 ==> MadeOf(h, p[i], p[i + 1])
  }

  /** Such a chain leads from t to a named type of this name. */
  ghost predicate Contains(h: Heap, t: TypeId, id: string) {
    id != "" && exists p :: MadeOfChain(h, p) && p[0] == t && IsNamed(h, p[|p| - 1], id)
  }

  predicate IsNamed(h: Heap, n: TypeId, id: string) {
    n in h && h[n].Named? && h[n].id == id
  }

  lemma EdgeIsMadeOf(h: Heap, t: TypeId, c: TypeId)
    ensures Edge(TypeGraph(h), t, c) <==> MadeOf(h, t, c)
  {
    if t in h {
      assert Succ(TypeGraph(h), t) == TypeGraph(h)[t];
    }
  }

  lemma {:induction false} ChainIsFrom(h: Heap, p: seq<TypeId>, k: nat)
    requires MadeOfChain(h, p) && k < |p|
    ensures From(h, p[0], p[k])
  {
    hide TypeGraph, Reaches, MadeOf;
    if k > 0 {
      ChainIsFrom(h, p, k - 1);
      assert MadeOf(h, p[k - 1], p[k - 1 + 1]);
      EdgeIsMadeOf(h, p[k - 1], p[k]);
      MadeOfInHeap(h, p[k - 1], p[k]);
      FromStep(h, p[0], p[k - 1], p[k]);
    }
  }

  lemma MadeOfInHeap(h: Heap, t: TypeId, c: TypeId)
    requires MadeOf(h, t, c)
    ensures t in h && c in h
  {
  }

  lemma WalkIsChain(h: Heap, p: seq<TypeId>, t: TypeId, n: TypeId)
    requires WalkBetween(TypeGraph(h), p, t, n)
    ensures MadeOfChain(h, p)
  {
    forall i | 0 <= i < |p| - 1
      ensures MadeOf(h, p[i], p[i + 1])
    {
      assert Edge(TypeGraph(h), p[i], p[i + 1]);
      EdgeIsMadeOf(h, p[i], p[i + 1]);
    }
    assert MadeOf(h, p[0], p[0 + 1]);
  }

  /** Reachability in the walk's graph is exactly that. */
  lemma MentionsIff(h: Heap, t: TypeId, id: string)
    ensures Mentions(h, t, id) <==> Contains(h, t, id)
  {
    hide TypeGraph, MadeOf;
    if Mentions(h, t, id) {
      var n :| From(h, t, n) && NameOf(h, n) == id;
      if n == t {
        assert MadeOfChain(h, [t]);
      } else {
        var p :| WalkBetween(TypeGraph(h), p, t, n);
        WalkIsChain(h, p, t, n);
      }
    }
    if Contains(h, t, id) {
      var p :| MadeOfChain(h, p) && p[0] == t && IsNamed(h, p[|p| - 1], id);
      ChainIsFrom(h, p, |p| - 1);
    }
  }

  lemma FromStep(h: Heap, t: TypeId, n: TypeId, c: TypeId)
    requires From(h, t, n) && Edge(TypeGraph(h), n, c)
    ensures From(h, t, c) && Reaches(TypeGraph(h), t, c)
  {
    EdgeReaches(TypeGraph(h), n, c);
    if n != t {
      ReachesTransitive(TypeGraph(h), t, n, c);
    }
  }

  lemma {:induction false} UnaliasFrom(h: Heap, t: TypeId, n: TypeId)
    requires AliasesEnd(h) && From(h, t, n) && Unalias(h, n) in h
    ensures From(h, t, Unalias(h, n))
    decreases if IsAlias(h, n) then 1 + h[n].depth else 0
  {
    if IsAlias(h, n) {
      AliasInHeap(h, h[n].rhs);
      assert Edge(TypeGraph(h), n, h[n].rhs);
      FromStep(h, t, n, h[n].rhs);
      UnaliasFrom(h, t, h[n].rhs);
    }
  }

  lemma AliasInHeap(h: Heap, t: TypeId)
    requires AliasesEnd(h) && Unalias(h, t) in h
    ensures t in h
  {
  }

  lemma PartFrom(h: Heap, t: TypeId, n: TypeId, c: TypeId)
    requires AliasesEnd(h) && From(h, t, n) && c in h && c in PartsOf(h, Unalias(h, n))
    ensures From(h, t, c)
  {
    UnaliasFrom(h, t, n);
    assert Edge(TypeGraph(h), Unalias(h, n), c);
    FromStep(h, t, Unalias(h, n), c);
  }

  // The walk.

  /** The marked types and the names visited, in order. */
  datatype Trail = Trail(seen: set<TypeId>, visited: seq<string>)

  /** Depth first, a type's name before its parts, parts in their order. */
  function WalkFrom(h: Heap, at: Trail, t: TypeId): (r: Trail)
    requires AliasesEnd(h) && at.seen <= h.Keys
    ensures at.seen <= r.seen <= h.Keys && at.visited <= r.visited
    decreases h.Keys - at.seen, 0
  {
    if t !in h || t in at.seen then at
    else
      assert t in h.Keys - at.seen;
      WalkParts(h, Marked(h, at, t), PartsOf(h, Unalias(h, t)))
  }

  function Marked(h: Heap, at: Trail, t: TypeId): Trail
    requires AliasesEnd(h)
  {
    var name := NameOf(h, Unalias(h, t));
    Trail(at.seen + {t}, if name != "" then at.visited + [name] else at.visited)
  }

  function WalkParts(h: Heap, at: Trail, parts: seq<TypeId>): (r: Trail)
    requires AliasesEnd(h) && at.seen <= h.Keys
    ensures at.seen <= r.seen <= h.Keys && at.visited <= r.visited
    decreases h.Keys - at.seen, 1 + |parts|
  {
    if parts == [] then at else WalkParts(h, WalkFrom(h, at, parts[0]), parts[1..])
  }

  /** The order of a walk that meets t for the first time: its own name, then what it is made of, a
      map's key before its element and the parameters before the results. */
  lemma WalkOrder(h: Heap, at: Trail, t: TypeId)
    requires AliasesEnd(h) && at.seen <= h.Keys && t in h && t !in at.seen && !IsAlias(h, t)
    ensures var m := Trail(at.seen + {t}, if h[t].Named? && h[t].id != "" then at.visited + [h[t].id] else at.visited);
            var r := WalkFrom(h, at, t);
            match h[t]
            case Named(_, args) => r == WalkParts(h, m, args)
            case Pointer(e) => r == WalkFrom(h, m, e)
            case Slice(e) => r == WalkFrom(h, m, e)
            case Array(e) => r == WalkFrom(h, m, e)
            case Map(k, e) => r == WalkFrom(h, WalkFrom(h, m, k), e)
            case Chan(e) => r == WalkFrom(h, m, e)
            case Signature(p, q) => r == WalkFrom(h, WalkFrom(h, m, p), q)
            case Tuple(vars) => r == WalkParts(h, m, vars)
            case Struct(fields) => r == WalkParts(h, m, fields)
            case Interface(methods) => r == WalkParts(h, m, methods)
            case Alias(_, _) => true
            case Basic => r == m
  {
    var m := Marked(h, at, t);
    assert Unalias(h, t) == t;
    forall e: TypeId
      ensures WalkParts(h, m, [e]) == WalkFrom(h, m, e)
    {
      OnePart(h, m, e);
    }
    forall k: TypeId, e: TypeId
      ensures WalkParts(h, m, [k, e]) == WalkFrom(h, WalkFrom(h, m, k), e)
    {
      assert [k, e][1..] == [e];
      OnePart(h, WalkFrom(h, m, k), e);
    }
  }

  lemma OnePart(h: Heap, at: Trail, e: TypeId)
    requires AliasesEnd(h) && at.seen <= h.Keys
    ensures WalkParts(h, at, [e]) == WalkFrom(h, at, e)
  {
    assert [e][1..] == [];
  }

  /** What holds between calls: the nodes marked `seen` have their names visited, and all their
      parts are marked too unless they are still being walked. */
  ghost predicate WalkInv(h: Heap, seen: set<TypeId>, visited: seq<string>, active: set<TypeId>)
    requires AliasesEnd(h)
  {
    && seen <= h.Keys
    && (forall n, c :: n in seen && n !in active && c in PartsOf(h, Unalias(h, n)) && c in h ==> c in seen)
    && (forall id :: id in visited ==> exists n :: n in seen && NameOf(h, Unalias(h, n)) == id != "")
    && (forall n :: n in seen && NameOf(h, Unalias(h, n)) != "" ==> NameOf(h, Unalias(h, n)) in visited)
    && (forall id :: id != "" ==> multiset(visited)[id] == |Bearers(h, seen, id)|)
  }

  /** The marked types that stand for a type of this name. */
  ghost function Bearers(h: Heap, seen: set<TypeId>, id: string): set<TypeId>
    requires AliasesEnd(h)
  {
    set n | n in seen && NameOf(h, Unalias(h, n)) == id
  }

  lemma BearersStep(h: Heap, seen: set<TypeId>, visited: seq<string>, t: TypeId)
    requires AliasesEnd(h) && t !in seen
    requires forall id :: id != "" ==> multiset(visited)[id] == |Bearers(h, seen, id)|
    ensures var name := NameOf(h, Unalias(h, t));
            forall id :: id != "" ==>
              multiset(if name != "" then visited + [name] else visited)[id] == |Bearers(h, seen + {t}, id)|
  {
    var name := NameOf(h, Unalias(h, t));
    forall id | id != ""
      ensures multiset(if name != "" then visited + [name] else visited)[id] == |Bearers(h, seen + {t}, id)|
    {
      OneMore(h, seen, t, id);
      hide NameOf, Unalias, Bearers;
      Occurrences(visited, name, id);
    }
  }

  lemma OneMore(h: Heap, seen: set<TypeId>, t: TypeId, id: string)
    requires AliasesEnd(h) && t !in seen
    ensures |Bearers(h, seen + {t}, id)| == |Bearers(h, seen, id)| + if NameOf(h, Unalias(h, t)) == id then 1 else 0
  {
    BearersSplit(h, seen, t, id);
    hide Bearers, NameOf, Unalias;
    assert t !in Bearers(h, seen, id) by {
      BearersSeen(h, seen, id);
    }
  }

  lemma BearersSplit(h: Heap, seen: set<TypeId>, t: TypeId, id: string)
    requires AliasesEnd(h)
    ensures Bearers(h, seen + {t}, id) == Bearers(h, seen, id) + if NameOf(h, Unalias(h, t)) == id then {t} else {}
  {
    hide NameOf, Unalias;
  }

  lemma BearersSeen(h: Heap, seen: set<TypeId>, id: string)
    requires AliasesEnd(h)
    ensures Bearers(h, seen, id) <= seen
  {
    hide NameOf, Unalias;
  }

  lemma Occurrences(visited: seq<string>, name: string, id: string)
    requires id != ""
    ensures multiset(if name != "" then visited + [name] else visited)[id] == multiset(visited)[id] + if name == id then 1 else 0
  {
  }

  class SignatureWalk {
    const h: Heap
    var seen: set<TypeId>
    var visited: seq<string>

    constructor (h: Heap)
      ensures this.h == h && seen == {} && visited == []
    {
      this.h := h;
      seen, visited := {}, [];
    }

    /** The recursive closure. `seen` is marked before unaliasing, so the alias is marked and its
        target is not. */
    method Walk(t: TypeId, ghost active: set<TypeId>, ghost root: TypeId)
      requires AliasesEnd(h) && WalkInv(h, seen, visited, active)
      requires t in h ==> From(h, root, t)
      requires forall n :: n in seen ==> From(h, root, n)
      modifies this
      ensures WalkInv(h, seen, visited, active)
      ensures forall n :: n in seen ==> From(h, root, n)
      ensures old(seen) <= seen && (t in h ==> t in seen)
      ensures Trail(seen, visited) == WalkFrom(h, Trail(old(seen), old(visited)), t)
      decreases h.Keys - seen
    {
      if t !in h || t in seen {
        return;
      }
      Mark(t, active);
      ghost var before, start := seen, Trail(seen, visited);
      var u := Unalias(h, t);
      var parts := PartsOf(h, u);
      for i := 0 to |parts|
        invariant WalkInv(h, seen, visited, active + {t})
        invariant forall n :: n in seen ==> From(h, root, n)
        invariant before <= seen
        invariant forall j :: 0 <= j < i && parts[j] in h ==> parts[j] in seen
        invariant WalkParts(h, start, parts) == WalkParts(h, Trail(seen, visited), parts[i..])
      {
        assert parts[i..][0] == parts[i] && parts[i..][1..] == parts[i + 1..];
        if parts[i] in h {
          PartFrom(h, root, t, parts[i]);
        }
        Walk(parts[i], active + {t}, root);
      }
      Finish(t, active);
    }

    method Mark(t: TypeId, ghost active: set<TypeId>)
      requires AliasesEnd(h) && WalkInv(h, seen, visited, active) && t in h && t !in seen
      modifies this
      ensures WalkInv(h, seen, visited, active + {t}) && seen == old(seen) + {t}
      ensures Trail(seen, visited) == Marked(h, Trail(old(seen), old(visited)), t)
    {
      ghost var was, names := seen, visited;
      BearersStep(h, seen, visited, t);
      seen := seen + {t};
      var name := NameOf(h, Unalias(h, t));
      if name != "" {
        visited := visited + [name];
      }
      forall id | id in visited
        ensures exists n :: n in seen && NameOf(h, Unalias(h, n)) == id != ""
      {
        if id in names {
          var n :| n in was && NameOf(h, Unalias(h, n)) == id != "";
          assert n in seen;
        } else {
          assert t in seen;
        }
      }
    }

    lemma Finish(t: TypeId, active: set<TypeId>)
      requires AliasesEnd(h) && WalkInv(h, seen, visited, active + {t})
      requires forall c :: c in PartsOf(h, Unalias(h, t)) && c in h ==> c in seen
      ensures WalkInv(h, seen, visited, active)
    {
    }
  }

  /** Nodes that stand for the same type as some marked node. */
  ghost function Covered(h: Heap, seen: set<TypeId>): set<TypeId>
    requires AliasesEnd(h)
  {
    set x, n | x in h && n in seen && Unalias(h, n) == Unalias(h, x) :: x
  }

  lemma CoveredClosed(h: Heap, seen: set<TypeId>, visited: seq<string>)
    requires AliasesEnd(h) && WalkInv(h, seen, visited, {})
    ensures Closed(TypeGraph(h), Covered(h, seen))
  {
    forall x, y | x in Covered(h, seen) && y in Succ(TypeGraph(h), x)
      ensures y in Covered(h, seen)
    {
      var n :| n in seen && Unalias(h, n) == Unalias(h, x);
      if IsAlias(h, x) {
        assert Unalias(h, x) == Unalias(h, y);
      } else {
        assert Unalias(h, x) == x && y in PartsOf(h, Unalias(h, n));
      }
    }
  }

  /** WalkSignatureNamedTypes visits exactly the names that the type contains, in depth-first order,
      each as often as there are marked types of that name: once per type object and per alias of it. */
  method WalkSignatureNamedTypes(h: Heap, t: TypeId) returns (visited: seq<string>)
    requires AliasesEnd(h)
    ensures forall id :: id in visited <==> Contains(h, t, id)
    ensures var r := WalkFrom(h, Trail({}, []), t);
            visited == r.visited && forall id :: id != "" ==> multiset(visited)[id] == |Bearers(h, r.seen, id)|
  {
    var walk := new SignatureWalk(h);
    walk.Walk(t, {}, t);
    visited := walk.visited;
    VisitedIsMentioned(h, t, walk.seen, visited);
    forall id
      ensures Mentions(h, t, id) <==> Contains(h, t, id)
    {
      MentionsIff(h, t, id);
    }
  }

  lemma VisitedIsMentioned(h: Heap, t: TypeId, seen: set<TypeId>, visited: seq<string>)
    requires AliasesEnd(h) && WalkInv(h, seen, visited, {})
    requires t in h ==> t in seen
    requires forall n :: n in seen ==> From(h, t, n)
    ensures forall id :: id in visited <==> Mentions(h, t, id)
  {
    CoveredClosed(h, seen, visited);
    forall id | id in visited
      ensures Mentions(h, t, id)
    {
      var n :| n in seen && NameOf(h, Unalias(h, n)) == id != "";
      UnaliasFrom(h, t, n);
    }
    forall id | Mentions(h, t, id)
      ensures id in visited
    {
      var n :| From(h, t, n) && NameOf(h, n) == id;
      MentionedIsCovered(h, t, seen, n);
      var m :| m in seen && Unalias(h, m) == Unalias(h, n);
      assert Unalias(h, n) == n;
    }
  }

  lemma MentionedIsCovered(h: Heap, t: TypeId, seen: set<TypeId>, n: TypeId)
    requires AliasesEnd(h) && Closed(TypeGraph(h), Covered(h, seen))
    requires (t in h ==> t in seen) && From(h, t, n)
    ensures n in Covered(h, seen)
  {
    if n != t {
      var c := ReachesFirstStep(TypeGraph(h), t, n);
      assert t in h;
      assert t in Covered(h, seen);
      ReachesStaysInside(TypeGraph(h), Covered(h, seen), t, n);
    }
  }

  /** The wanted names in the order of their first visit. */
  function FirstVisits(visited: seq<string>, wanted: set<string>): seq<string> {
    if visited == [] then []
    else
      var init, id := visited[..|visited| - 1], visited[|visited| - 1];
      FirstVisits(init, wanted) + if id in wanted && id !in init then [id] else []
  }

  lemma FirstVisitsNone(wanted: set<string>)
    ensures FirstVisits([], wanted) == []
  {
  }

  lemma FirstVisitsStep(visited: seq<string>, id: string, wanted: set<string>)
    ensures FirstVisits(visited + [id], wanted) == FirstVisits(visited, wanted) + if id in wanted && id !in visited then [id] else []
  {
    assert (visited + [id])[..|visited|] == visited;
  }

  /** checkSignatureField: one report per wanted name, in the order of first visit. */
  method CheckSignatureField(h: Heap, t: TypeId, wanted: set<string>) returns (reports: seq<string>)
    requires AliasesEnd(h)
    ensures forall id :: id in reports <==> id in wanted && Contains(h, t, id)
    ensures forall i, j :: 0 <= i < j < |reports| ==> reports[i] != reports[j]
    ensures reports == FirstVisits(WalkFrom(h, Trail({}, []), t).visited, wanted)
  {
    hide WalkFrom, Contains, FirstVisits, Bearers;
    var visited := WalkSignatureNamedTypes(h, t);
    reports := [];
    FirstVisitsNone(wanted);
    var seen: set<string> := {};
    for k := 0 to |visited|
      invariant forall id :: id in reports <==> id in wanted && id in visited[..k]
      invariant forall id :: id in seen <==> id in reports
      invariant reports == FirstVisits(visited[..k], wanted)
      invariant forall i, j :: 0 <= i < j < |reports| ==> reports[i] != reports[j]
    {
      var id := visited[k];
      assert visited[..k + 1] == visited[..k] + [id];
      FirstVisitsStep(visited[..k], id, wanted);
      if id !in wanted || id in seen {
        continue;
      }
      seen := seen + {id};
      reports := reports + [id];
    }
    assert visited[..|visited|] == visited;
  }
}
