/** What Go's `sort.SliceStable`, `sort.Strings` and `sort.Ints` promise. The library's own
    algorithm is not modelled: `Sort` is a reference whose result is shown to be the only
    sequence that is ordered and keeps equal elements in place. */
module Sorting {
  import opened GoStrings

  ghost predicate TotalPreorder<T(!new)>(le: (T, T) -> bool) {
    && (forall a, b :: le(a, b) || le(b, a))
    && (forall a, b, c :: le(a, b) && le(b, c) ==> le(a, c))
  }

  lemma Order<T(!new)>(le: (T, T) -> bool, a: T, b: T, c: T)
    requires TotalPreorder(le)
    ensures le(a, b) || le(b, a)
    ensures le(a, b) && le(b, c) ==> le(a, c)
  {
  }

  ghost predicate Ordered<T>(le: (T, T) -> bool, xs: seq<T>) {
    forall i, j :: 0 <= i < j < |xs| ==> le(xs[i], xs[j])
  }

  function Insert<T>(le: (T, T) -> bool, x: T, xs: seq<T>): (r: seq<T>)
    ensures multiset(r) == multiset{x} + multiset(xs)
  {
    if xs == [] then [x]
    else if le(x, xs[0]) then [x] + xs
    else
      assert xs == [xs[0]] + xs[1..];
      [xs[0]] + Insert(le, x, xs[1..])
  }

  /** Stable: an element is placed in front of the later ones that compare equal. */
  function Sort<T>(le: (T, T) -> bool, xs: seq<T>): (r: seq<T>)
    ensures multiset(r) == multiset(xs)
    ensures |r| == |xs|
  {
    if xs == [] then []
    else
      assert xs == [xs[0]] + xs[1..];
      var r := Insert(le, xs[0], Sort(le, xs[1..]));
      SameSize(r, xs);
      r
  }

  lemma SameSize<T>(a: seq<T>, b: seq<T>)
    requires multiset(a) == multiset(b)
    ensures |a| == |b|
  {
    assert |multiset(a)| == |a| && |multiset(b)| == |b|;
  }

  lemma RemoveAt<T>(xs: seq<T>, k: nat)
    requires k < |xs|
    ensures multiset(xs[..k] + xs[k + 1..]) == multiset(xs) - multiset{xs[k]}
  {
    assert xs == xs[..k] + [xs[k]] + xs[k + 1..];
  }

  lemma PullOut<T>(xs: seq<T>, x: T) returns (rest: seq<T>)
    requires x in xs
    ensures multiset([x] + rest) == multiset(xs)
    ensures forall y :: y in xs && y != x ==> y in rest
  {
    var i :| 0 <= i < |xs| && xs[i] == x;
    RemoveAt(xs, i);
    rest := xs[..i] + xs[i + 1..];
    assert x in multiset(xs);
    forall y | y in xs && y != x
      ensures y in rest
    {
      assert y in multiset(xs) && y in multiset(rest);
    }
  }

  /** Where the second of two permutations has the first element of the other. */
  lemma SharedElement<T>(a: seq<T>, b: seq<T>) returns (k: nat)
    requires multiset(a) == multiset(b) && a != []
    ensures k < |b| && b[k] == a[0]
    ensures multiset(a[..0] + a[1..]) == multiset(b[..k] + b[k + 1..])
    ensures |a[..0] + a[1..]| < |a|
  {
    assert a[0] in multiset(b);
    k :| 0 <= k < |b| && b[k] == a[0];
    RemoveAt(a, 0);
    RemoveAt(b, k);
  }

  /** The elements that compare equal to k, in order. */
  function Ties<T>(le: (T, T) -> bool, k: T, xs: seq<T>): seq<T> {
    if xs == [] then []
    else (if le(k, xs[0]) && le(xs[0], k) then [xs[0]] else []) + Ties(le, k, xs[1..])
  }

  lemma OrderedTail<T>(le: (T, T) -> bool, xs: seq<T>)
    requires Ordered(le, xs) && xs != []
    ensures Ordered(le, xs[1..])
  {
  }

  lemma TiesCons<T>(le: (T, T) -> bool, k: T, x: T, xs: seq<T>)
    ensures Ties(le, k, [x] + xs) == (if le(k, x) && le(x, k) then [x] else []) + Ties(le, k, xs)
  {
    assert ([x] + xs)[1..] == xs;
  }

  lemma {:induction false} InsertOrdered<T(!new)>(le: (T, T) -> bool, x: T, xs: seq<T>)
    requires TotalPreorder(le) && Ordered(le, xs)
    ensures Ordered(le, Insert(le, x, xs))
  {
    if xs != [] && !le(x, xs[0]) {
      var t := Insert(le, x, xs[1..]);
      InsertOrdered(le, x, xs[1..]);
      forall j | 0 <= j < |t|
        ensures le(xs[0], t[j])
      {
        assert t[j] in multiset(t);
        assert t[j] == x || t[j] in xs[1..];
      }
    }
  }

  lemma {:induction false} SortOrdered<T(!new)>(le: (T, T) -> bool, xs: seq<T>)
    requires TotalPreorder(le)
    ensures Ordered(le, Sort(le, xs))
  {
    if xs != [] {
      SortOrdered(le, xs[1..]);
      InsertOrdered(le, xs[0], Sort(le, xs[1..]));
    }
  }

  lemma {:induction false} InsertTies<T(!new)>(le: (T, T) -> bool, k: T, x: T, xs: seq<T>)
    requires TotalPreorder(le) && Ordered(le, xs)
    ensures Ties(le, k, Insert(le, x, xs)) == Ties(le, k, [x] + xs)
  {
    hide TotalPreorder, Ordered, Ties;
    if xs != [] && !le(x, xs[0]) {
      var y, t := xs[0], xs[1..];
      assert xs == [y] + t;
      assert Insert(le, x, xs) == [y] + Insert(le, x, t);
      hide Insert;
      TiesCons(le, k, x, xs);
      TiesCons(le, k, y, t);
      OrderedTail(le, xs);
      InsertTies(le, k, x, t);
      TiesCons(le, k, y, Insert(le, x, t));
      TiesCons(le, k, x, t);
      Order(le, x, k, y);
      Exchange(if le(k, x) && le(x, k) then [x] else [], if le(k, y) && le(y, k) then [y] else [], Ties(le, k, t));
    } else {
      assert xs == [] ==> [x] + xs == [x];
    }
  }

  lemma Exchange<T>(a: seq<T>, b: seq<T>, c: seq<T>)
    requires a == [] || b == []
    ensures a + (b + c) == b + (a + c)
  {
  }

  /** Stability: within each class of equal elements the order is the input's. */
  lemma {:induction false} SortIsStable<T(!new)>(le: (T, T) -> bool, k: T, xs: seq<T>)
    requires TotalPreorder(le)
    ensures Ties(le, k, Sort(le, xs)) == Ties(le, k, xs)
  {
    if xs != [] {
      var s := Sort(le, xs[1..]);
      SortIsStable(le, k, xs[1..]);
      SortOrdered(le, xs[1..]);
      InsertTies(le, k, xs[0], s);
      assert ([xs[0]] + s)[1..] == s;
    }
  }

  lemma {:induction false} TiesMember<T(!new)>(le: (T, T) -> bool, k: T, x: T, xs: seq<T>)
    requires TotalPreorder(le)
    ensures x in Ties(le, k, xs) <==> x in xs && le(k, x) && le(x, k)
  {
    if xs != [] {
      TiesMember(le, k, x, xs[1..]);
      assert xs == [xs[0]] + xs[1..];
    }
  }

  lemma SameHead<T(!new)>(le: (T, T) -> bool, a: seq<T>, b: seq<T>)
    requires TotalPreorder(le) && Ordered(le, a) && Ordered(le, b) && a != [] && b != []
    requires Ties(le, a[0], a) == Ties(le, a[0], b) && Ties(le, b[0], a) == Ties(le, b[0], b)
    ensures a[0] == b[0]
  {
    hide TotalPreorder, Ordered, Ties;
    var x, y := a[0], b[0];
    Order(le, x, x, x);
    Order(le, y, y, y);
    TiesMember(le, x, x, a);
    TiesMember(le, x, x, b);
    TiesMember(le, y, y, b);
    TiesMember(le, y, y, a);
    HeadIsLeast(le, b, x);
    HeadIsLeast(le, a, y);
    assert le(x, y) && le(y, x);
    TiesHead(le, x, a);
    TiesHead(le, x, b);
  }

  lemma TiesHead<T>(le: (T, T) -> bool, k: T, xs: seq<T>)
    requires xs != [] && le(k, xs[0]) && le(xs[0], k)
    ensures Ties(le, k, xs) != [] && Ties(le, k, xs)[0] == xs[0]
  {
  }

  lemma TailTies<T>(le: (T, T) -> bool, k: T, a: seq<T>, b: seq<T>)
    requires a != [] && b != [] && a[0] == b[0] && Ties(le, k, a) == Ties(le, k, b)
    ensures Ties(le, k, a[1..]) == Ties(le, k, b[1..])
  {
    hide Ties;
    var x, u, v := a[0], Ties(le, k, a[1..]), Ties(le, k, b[1..]);
    assert a == [x] + a[1..] && b == [x] + b[1..];
    TiesCons(le, k, x, a[1..]);
    TiesCons(le, k, x, b[1..]);
    var front := if le(k, x) && le(x, k) then [x] else [];
    assert (front + u)[|front|..] == u && (front + v)[|front|..] == v;
  }

  /** Two ordered sequences with the same tie classes are the same sequence, so "ordered and
      stable" determines the result. */
  lemma {:induction false} StableSortUnique<T(!new)>(le: (T, T) -> bool, a: seq<T>, b: seq<T>)
    requires TotalPreorder(le) && Ordered(le, a) && Ordered(le, b)
    requires |a| == |b|
    requires forall k :: Ties(le, k, a) == Ties(le, k, b)
    ensures a == b
  {
    if a != [] {
      assert Ties(le, a[0], a) == Ties(le, a[0], b) && Ties(le, b[0], a) == Ties(le, b[0], b);
      SameHead(le, a, b);
      forall k
        ensures Ties(le, k, a[1..]) == Ties(le, k, b[1..])
      {
        assert Ties(le, k, a) == Ties(le, k, b);
        TailTies(le, k, a, b);
      }
      StableSortUnique(le, a[1..], b[1..]);
      assert a == [a[0]] + a[1..] && b == [b[0]] + b[1..];
    }
  }

  /** Sorting again changes nothing. */
  lemma SortOfOrdered<T(!new)>(le: (T, T) -> bool, xs: seq<T>)
    requires TotalPreorder(le) && Ordered(le, xs)
    ensures Sort(le, xs) == xs
  {
    SortOrdered(le, xs);
    forall k
      ensures Ties(le, k, Sort(le, xs)) == Ties(le, k, xs)
    {
      SortIsStable(le, k, xs);
    }
    StableSortUnique(le, Sort(le, xs), xs);
  }

  /** Distinct elements never compare equal. */
  ghost predicate NoTies<T>(le: (T, T) -> bool, xs: seq<T>) {
    forall x, y :: x in xs && y in xs && le(x, y) && le(y, x) ==> x == y
  }

  lemma HeadIsLeast<T(!new)>(le: (T, T) -> bool, xs: seq<T>, x: T)
    requires TotalPreorder(le) && Ordered(le, xs) && x in xs
    ensures le(xs[0], x)
  {
    Order(le, x, x, x);
  }

  lemma TiedIsEqual<T>(le: (T, T) -> bool, xs: seq<T>, x: T, y: T)
    requires NoTies(le, xs) && x in xs && y in xs && le(x, y) && le(y, x)
    ensures x == y
  {
  }

  /** Without ties an ordered sequence is determined by its multiset. */
  lemma {:induction false} OrderedUnique<T(!new)>(le: (T, T) -> bool, a: seq<T>, b: seq<T>)
    requires TotalPreorder(le) && Ordered(le, a) && Ordered(le, b) && NoTies(le, a)
    requires multiset(a) == multiset(b)
    ensures a == b
  {
    hide TotalPreorder, Ordered, NoTies;
    SameSize(a, b);
    if a != [] {
      assert a[0] in multiset(b) && b[0] in multiset(a);
      HeadIsLeast(le, a, b[0]);
      HeadIsLeast(le, b, a[0]);
      assert a[0] == b[0] by {
        TiedIsEqual(le, a, a[0], b[0]);
      }
      Tail(le, a);
      Tail(le, b);
      OrderedUnique(le, a[1..], b[1..]);
      assert a == [a[0]] + a[1..] && b == [b[0]] + b[1..];
    }
  }

  lemma Tail<T>(le: (T, T) -> bool, a: seq<T>)
    requires a != [] && Ordered(le, a)
    ensures multiset(a[1..]) == multiset(a) - multiset{a[0]}
    ensures Ordered(le, a[1..])
    ensures NoTies(le, a) ==> NoTies(le, a[1..])
  {
    assert a == [a[0]] + a[1..];
  }

  lemma StringOrder()
    ensures TotalPreorder(LessEq)
  {
    forall a, b
      ensures LessEq(a, b) || LessEq(b, a)
    {
      LessTotal(a, b);
    }
    forall a, b, c | LessEq(a, b) && LessEq(b, c)
      ensures LessEq(a, c)
    {
      LessEqTransitive(a, b, c);
    }
  }

  lemma LessEqTransitive(a: string, b: string, c: string)
    requires LessEq(a, b) && LessEq(b, c)
    ensures LessEq(a, c)
  {
    LessTotal(a, b);
    LessTotal(b, c);
    if Less(c, a) && a != b && b != c {
      LessTransitive(b, c, a);
    }
  }

  predicate StrictlyIncreasing(xs: seq<string>) {
    forall i, j :: 0 <= i < j < |xs| ==> Less(xs[i], xs[j])
  }

  /** `sort.Strings` applied to the keys of a map, in whatever order they came. */
  method SortedKeys(keys: set<string>) returns (sorted: seq<string>)
    ensures StrictlyIncreasing(sorted)
    ensures forall k :: k in sorted <==> k in keys
  {
    var rest := keys;
    var xs: seq<string> := [];
    while rest != {}
      invariant rest <= keys
      invariant forall k :: k in keys <==> k in rest || k in xs
      invariant forall i :: 0 <= i < |xs| ==> xs[i] !in rest
      invariant forall i, j :: 0 <= i < j < |xs| ==> xs[i] != xs[j]
      decreases rest
    {
      var k :| k in rest;
      rest := rest - {k};
      xs := xs + [k];
    }
    sorted := Sort(LessEq, xs);
    SortDistinct(xs);
    forall k
      ensures k in sorted <==> k in keys
    {
      assert k in sorted <==> k in multiset(sorted);
      assert k in xs <==> k in multiset(xs);
    }
  }

  lemma {:induction false} DistinctCount<T>(xs: seq<T>)
    ensures (forall i, j :: 0 <= i < j < |xs| ==> xs[i] != xs[j]) <==> forall x :: x in xs ==> multiset(xs)[x] == 1
  {
    if xs != [] {
      var x, t := xs[0], xs[1..];
      assert xs == [x] + t;
      DistinctCount(t);
      DistinctHead(x, t);
      CountHead(x, t);
    }
  }

  lemma DistinctHead<T>(x: T, t: seq<T>)
    ensures var xs := [x] + t;
            (forall i, j :: 0 <= i < j < |xs| ==> xs[i] != xs[j]) <==> x !in t && forall i, j :: 0 <= i < j < |t| ==> t[i] != t[j]
  {
    var xs := [x] + t;
    if forall i, j :: 0 <= i < j < |xs| ==> xs[i] != xs[j] {
      forall i, j | 0 <= i < j < |t|
        ensures t[i] != t[j]
      {
        assert xs[i + 1] != xs[j + 1];
      }
      forall j | 0 <= j < |t|
        ensures t[j] != x
      {
        assert xs[0] != xs[j + 1];
      }
    }
  }

  lemma CountHead<T>(x: T, t: seq<T>)
    ensures var xs := [x] + t;
            (forall y :: y in xs ==> multiset(xs)[y] == 1) <==> x !in t && forall y :: y in t ==> multiset(t)[y] == 1
  {
    var xs := [x] + t;
    assert multiset(xs) == multiset{x} + multiset(t);
    assert forall y :: y in t <==> multiset(t)[y] > 0;
    assert forall y :: y in xs <==> y == x || y in t;
  }

  /** Elements that are all different stay so when they are reordered. */
  lemma DistinctReordered<T>(a: seq<T>, b: seq<T>)
    requires multiset(a) == multiset(b) && forall i, j :: 0 <= i < j < |a| ==> a[i] != a[j]
    ensures forall i, j :: 0 <= i < j < |b| ==> b[i] != b[j]
  {
    DistinctCount(a);
    forall x | x in b
      ensures multiset(b)[x] == 1
    {
      assert x in multiset(b) && x in multiset(a) && x in a;
    }
    DistinctCount(b);
  }

  lemma SortDistinct(xs: seq<string>)
    requires forall i, j :: 0 <= i < j < |xs| ==> xs[i] != xs[j]
    ensures StrictlyIncreasing(Sort(LessEq, xs))
  {
    hide TotalPreorder, Sort, Less;
    var s := Sort(LessEq, xs);
    StringOrder();
    SortOrdered(LessEq, xs);
    DistinctReordered(xs, s);
    forall i, j | 0 <= i < j < |s|
      ensures Less(s[i], s[j])
    {
      LessTotal(s[i], s[j]);
      assert LessEq(s[i], s[j]);
    }
  }

  lemma Member<T>(b: seq<T>) returns (x: T)
    requires b != []
    ensures x in b
  {
    x := b[0];
  }

  /** A strictly increasing list is determined by its members. */
  lemma {:induction false} StrictlyIncreasingUnique(a: seq<string>, b: seq<string>)
    requires StrictlyIncreasing(a) && StrictlyIncreasing(b)
    requires forall k :: k in a <==> k in b
    ensures a == b
  {
    if a != [] {
      assert a[0] in b && b[0] in a;
      LessTotal(a[0], b[0]);
      assert a[0] == b[0];
      forall k
        ensures k in a[1..] <==> k in b[1..]
      {
        LessTotal(a[0], a[0]);
        if k in a[1..] { assert k in a && k != a[0]; }
        if k in b[1..] { assert k in b && k != b[0]; }
      }
      StrictlyIncreasingUnique(a[1..], b[1..]);
      assert a == [a[0]] + a[1..] && b == [b[0]] + b[1..];
    } else if b != [] {
      var x := Member(b);
    }
  }
}
