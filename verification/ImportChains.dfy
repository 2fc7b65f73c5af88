/** What the two import rules imply together. */
module ImportChains {
  import opened Architecture
  import opened Classifiers
  import opened DependencyRules
  import opened Digraph
  import opened GoStrings
  import opened ProjectContext
  import Isolation
  import LayerDirection

  ghost predicate CleanUnderBoth(ctx: Context) {
    Isolation.Isolated(ctx) && forall f :: !LayerDirection.Reported(ctx, f)
  }

  /** No composition root and no domain root on the chain. */
  predicate AvoidsRoots(ctx: Context, p: seq<string>) {
    forall i :: 0 <= i < |p| ==> KindOf(ctx, p[i]).kind != App && KindOf(ctx, p[i]).kind != DomainRoot
  }

  lemma SubchainIsChain(ctx: Context, p: seq<string>, i: nat, j: nat)
    requires ImportChain(ctx, p) && i < j < |p|
    ensures ImportChain(ctx, p[i..j + 1])
  {
    hide InternalPrefix, Imports, ExcludedPackage, HasPrefix;
    var q := p[i..j + 1];
    assert forall k :: 0 <= k < |q| ==> q[k] == p[i + k];
    forall k | 0 <= k < |q| - 1
      ensures Imports(ctx, q[k], q[k + 1]) && !ExcludedPackage(ctx, q[k])
    {
      assert Imports(ctx, p[i + k], p[i + k + 1]);
    }
  }

  /** Between any two packages of such a chain, the second is not beyond the first. */
  lemma NothingBeyond(ctx: Context, p: seq<string>, i: nat, j: nat)
    requires Isolation.Isolated(ctx) && ImportChain(ctx, p) && AvoidsRoots(ctx, p) && i < j < |p|
    requires KindOf(ctx, p[i]).kind != Orchestration
    ensures !Isolation.Beyond(KindOf(ctx, p[i]), KindOf(ctx, p[j]))
  {
    hide KindOf, ImportChain, Isolation.Isolated;
    var q := p[i..j + 1];
    SubchainIsChain(ctx, p, i, j);
    assert forall k :: 0 <= k < |q| ==> q[k] == p[i + k];
    assert q[0] == p[i] && q[|q| - 1] == p[j];
    if Isolation.Beyond(KindOf(ctx, p[i]), KindOf(ctx, p[j])) {
      Isolation.EscapeNeedsApp(ctx, q);
    }
  }

  /** A chain of a project that is clean under both rules, between two sublayer packages of one
      domain, that avoids the roots. */
  ghost predicate EnclosedChain(ctx: Context, p: seq<string>) {
    && CleanUnderBoth(ctx) && ImportChain(ctx, p) && AvoidsRoots(ctx, p)
    && var a, b := KindOf(ctx, p[0]), KindOf(ctx, p[|p| - 1]);
       a.kind == b.kind == Domain && a.domain == b.domain
  }

  /** It never leaves the domain's sublayers, whatever the project's other packages import. */
  lemma ChainStaysInDomain(ctx: Context, p: seq<string>)
    ensures EnclosedChain(ctx, p) ==> LayerDirection.LayerChain(ctx, p)
  {
    hide KindOf, ImportChain, Isolation.RootOutsideCmd, Isolation.Reported, LayerDirection.Reported;
    if EnclosedChain(ctx, p) {
      var n := |p| - 1;
      ChainLength(ctx, p);
      forall i | 0 <= i <= n
        ensures KindOf(ctx, p[i]).kind == Domain && KindOf(ctx, p[i]).domain == KindOf(ctx, p[0]).domain
      {
        Isolation.KindIsProper(ctx, p[0]);
        Isolation.KindIsProper(ctx, p[i]);
        NeverCommand(ctx, p[i]);
        if 0 < i < n {
          NothingBeyond(ctx, p, 0, i);
          NothingBeyond(ctx, p, i, n);
        }
      }
      LayerChainOf(ctx, p);
    }
  }

  lemma ChainLength(ctx: Context, p: seq<string>)
    requires ImportChain(ctx, p)
    ensures |p| >= 2
  {
  }

  lemma NeverCommand(ctx: Context, pkgPath: string)
    ensures KindOf(ctx, pkgPath).kind != Cmd
  {
  }

  lemma LayerChainOf(ctx: Context, p: seq<string>)
    requires ImportChain(ctx, p)
    requires forall i :: 0 <= i < |p| ==> KindOf(ctx, p[i]).kind == Domain && KindOf(ctx, p[i]).domain == KindOf(ctx, p[0]).domain
    ensures LayerDirection.LayerChain(ctx, p)
  {
    hide KindOf;
  }

  /** So it descends: with a valid architecture no package on it ranks higher than an earlier one,
      and between two packages of one sublayer all are of that sublayer. */
  lemma ChainDescends(ctx: Context, p: seq<string>, i: nat, j: nat)
    ensures EnclosedChain(ctx, p) && ValidArch(ctx.arch) && i <= j < |p| ==>
              var rank := Height(Adjacency(ctx.arch.layers.direction));
              var a, b := KindOf(ctx, p[i]).sublayer, KindOf(ctx, p[j]).sublayer;
              && a in rank && b in rank && rank[b] <= rank[a]
              && (a == b ==> forall k :: i <= k <= j ==> KindOf(ctx, p[k]).sublayer == a)
  {
    if EnclosedChain(ctx, p) && ValidArch(ctx.arch) && i <= j < |p| {
      ChainStaysInDomain(ctx, p);
      assert forall f :: !LayerDirection.Reported(ctx, f);
      hide KindOf, EnclosedChain, ValidArch, LayerDirection.Reported, LayerDirection.LayerChain;
      LayerDirection.LayerDescent(ctx, p, i, j);
    }
  }
}
