/**
 Breadth-first listings of a directed graph, without queue or visited set.

 A graph is its successor function; it may have cycles. `IsClosure` is an equation between a list and
 the successors of that same list, and the lemmas say what its one solution looks like.
 */
module BreadthFirst {
  import opened Sequences

  type Graph<!T> = T -> seq<T>

  function AllSuccessors<T>(g: Graph<T>, l: seq<T>): seq<T> {
    if l == [] then [] else g(l[0]) + AllSuccessors(g, l[1..])
  }

  /** At most `n` edges lead from a root to `x`. */
  ghost predicate Within<T(!new)>(g: Graph<T>, roots: seq<T>, x: T, n: nat)
    decreases n
  {
    if n == 0 then x in roots
    else
      || Within(g, roots, x, n - 1)
      || exists y :: Within(g, roots, y, n - 1) && x in g(y)
  }

  ghost predicate Reachable<T(!new)>(g: Graph<T>, roots: seq<T>, x: T) {
    exists n: nat :: Within(g, roots, x, n)
  }

  /** `l` is the roots followed, entry by entry, by whatever that entry leads to and is not listed yet. */
  ghost predicate Solves<T(!new)>(g: Graph<T>, roots: seq<T>, l: seq<T>) {
    l == Extend(roots, AllSuccessors(g, l))
  }

  /** Every entry but a root is a successor of an earlier one; no cycle vouches for itself. */
  ghost predicate Grounded<T>(g: Graph<T>, roots: seq<T>, l: seq<T>) {
    forall k {:trigger l[..k]} :: 0 <= k < |l| ==> l[k] in roots || l[k] in AllSuccessors(g, l[..k])
  }

  ghost predicate IsClosure<T(!new)>(g: Graph<T>, roots: seq<T>, l: seq<T>) {
    Solves(g, roots, l) && Grounded(g, roots, l)
  }

  lemma {:induction false} AllSuccessorsConcat<T>(g: Graph<T>, a: seq<T>, b: seq<T>)
    ensures AllSuccessors(g, a + b) == AllSuccessors(g, a) + AllSuccessors(g, b)
  {
    if a == [] {
      assert a + b == b;
    } else {
      assert (a + b)[1..] == a[1..] + b;
      AllSuccessorsConcat(g, a[1..], b);
    }
  }

  lemma {:induction false} AllSuccessorsOf<T(!new)>(g: Graph<T>, l: seq<T>, x: T)
    ensures x in AllSuccessors(g, l) <==> exists y :: y in l && x in g(y)
  {
    if l != [] {
      AllSuccessorsOf(g, l[1..], x);
      assert l == [l[0]] + l[1..];
    }
  }

  /** Two graphs that agree on a list agree on its successors. */
  lemma {:induction false} AllSuccessorsAgree<T(!new)>(g: Graph<T>, h: Graph<T>, l: seq<T>)
    requires forall x :: x in l ==> g(x) == h(x)
    ensures AllSuccessors(g, l) == AllSuccessors(h, l)
  {
    if l != [] {
      AllSuccessorsAgree(g, h, l[1..]);
    }
  }

  /** Listing a node that the list already leads to keeps the list grounded ... */
  lemma AppendGrounded<T(!new)>(g: Graph<T>, roots: seq<T>, l: seq<T>, x: T)
    requires Grounded(g, roots, l)
    requires x in Extend(roots, AllSuccessors(g, l))
    ensures Grounded(g, roots, l + [x])
  {
    forall k | 0 <= k < |l + [x]| ensures (l + [x])[k] in roots || (l + [x])[k] in AllSuccessors(g, (l + [x])[..k]) {
      assert (l + [x])[..k] == l[..k];
      assert l[..|l|] == l;
    }
  }

  /** ... and makes its own successors known, behind those known before. */
  lemma {:induction false} AppendSuccessors<T(!new)>(g: Graph<T>, roots: seq<T>, l: seq<T>, x: T)
    ensures Extend(roots, AllSuccessors(g, l + [x])) == Extend(Extend(roots, AllSuccessors(g, l)), g(x))
  {
    AllSuccessorsConcat(g, l, [x]);
    assert AllSuccessors(g, [x]) == g(x);
    ExtendConcat(roots, AllSuccessors(g, l), g(x));
  }

  // ---------------------------------------------------------------------------------------------
  // Exactly the reachable nodes
  // ---------------------------------------------------------------------------------------------

  lemma ReachableStep<T(!new)>(g: Graph<T>, roots: seq<T>, y: T, x: T)
    requires Reachable(g, roots, y) && x in g(y)
    ensures Reachable(g, roots, x)
  {
    var n: nat :| Within(g, roots, y, n);
    assert Within(g, roots, x, n + 1);
  }

  lemma {:induction false} WithinMonotone<T(!new)>(g: Graph<T>, roots: seq<T>, x: T, m: nat, n: nat)
    requires Within(g, roots, x, m) && m <= n
    ensures Within(g, roots, x, n)
    decreases n - m
  {
    if m < n {
      WithinMonotone(g, roots, x, m + 1, n);
    }
  }

  lemma {:induction false} EntryIsReachable<T(!new)>(g: Graph<T>, roots: seq<T>, l: seq<T>, k: nat)
    requires Grounded(g, roots, l) && k < |l|
    ensures Reachable(g, roots, l[k])
  {
    if l[k] in roots {
      assert Within(g, roots, l[k], 0);
    } else {
      AllSuccessorsOf(g, l[..k], l[k]);
      var y :| y in l[..k] && l[k] in g(y);
      var j :| 0 <= j < k && l[j] == y;
      EntryIsReachable(g, roots, l, j);
      ReachableStep(g, roots, y, l[k]);
    }
  }

  /** A set that holds the roots and leads nowhere else holds everything reachable. */
  lemma {:induction false} ReachableIsLeast<T(!new)>(g: Graph<T>, roots: seq<T>, s: set<T>, x: T, n: nat)
    requires forall y :: y in roots ==> y in s
    requires forall y, z :: y in s && z in g(y) ==> z in s
    requires Within(g, roots, x, n)
    ensures x in s
    decreases n
  {
    if n > 0 {
      if Within(g, roots, x, n - 1) {
        ReachableIsLeast(g, roots, s, x, n - 1);
      } else {
        var y :| Within(g, roots, y, n - 1) && x in g(y);
        ReachableIsLeast(g, roots, s, y, n - 1);
      }
    }
  }

  /** A closure lists exactly the nodes reachable from the roots, and repeats none unless a root is repeated. */
  lemma ClosureIsReachable<T(!new)>(g: Graph<T>, roots: seq<T>, l: seq<T>)
    requires IsClosure(g, roots, l)
    ensures forall x :: x in l <==> Reachable(g, roots, x)
    ensures NoDup(l) <==> NoDup(roots)
  {
    var s := set x | x in l;
    forall y, z | y in s && z in g(y) ensures z in s {
      AllSuccessorsOf(g, l, z);
    }
    forall x ensures x in l <==> Reachable(g, roots, x) {
      if x in l {
        var k :| 0 <= k < |l| && l[k] == x;
        EntryIsReachable(g, roots, l, k);
      }
      if Reachable(g, roots, x) {
        var n: nat :| Within(g, roots, x, n);
        ReachableIsLeast(g, roots, s, x, n);
      }
    }
    ExtendNoDup(roots, AllSuccessors(g, l));
  }

  // ---------------------------------------------------------------------------------------------
  // Exactly one order
  // ---------------------------------------------------------------------------------------------

  /** The first `k` entries already determine a longer piece of a closure, if there is more to come. */
  lemma Discovered<T(!new)>(g: Graph<T>, roots: seq<T>, l: seq<T>, k: nat) returns (known: seq<T>)
    requires IsClosure(g, roots, l) && k <= |l|
    ensures known == Extend(roots, AllSuccessors(g, l[..k]))
    ensures known <= l
    ensures k < |l| ==> k < |known|
    ensures k == |l| ==> known == l
  {
    known := Extend(roots, AllSuccessors(g, l[..k]));
    AllSuccessorsConcat(g, l[..k], l[k..]);
    assert l[..k] + l[k..] == l;
    ExtendPrefix(roots, AllSuccessors(g, l[..k]), AllSuccessors(g, l));
    if k < |l| {
      ExtendTailFresh(roots, AllSuccessors(g, l));
      assert l[k] in known;
      var i :| 0 <= i < |known| && known[i] == l[k];
      assert l[i] == l[k] && |roots| <= |known|;
    } else {
      assert l[..k] == l;
    }
  }

  lemma {:induction false} SameNext<T(!new)>(g: Graph<T>, roots: seq<T>, l: seq<T>, m: seq<T>, k: nat)
    requires IsClosure(g, roots, l) && IsClosure(g, roots, m)
    requires k < |l| && k <= |m| && l[..k] == m[..k]
    ensures k < |m| && l[k] == m[k]
  {
    var known := Discovered(g, roots, l, k);
    var known' := Discovered(g, roots, m, k);
    assert k < |known| && known == known';
  }

  lemma {:induction false} ClosurePrefix<T(!new)>(g: Graph<T>, roots: seq<T>, l: seq<T>, m: seq<T>, k: nat)
    requires IsClosure(g, roots, l) && IsClosure(g, roots, m)
    requires k <= |l|
    ensures k <= |m| && l[..k] == m[..k]
  {
    if k > 0 {
      ClosurePrefix(g, roots, l, m, k - 1);
      SameNext(g, roots, l, m, k - 1);
      PrefixOneMore(l, m, k - 1);
    }
  }

  /** A graph and its roots have one closure: the order is fixed, not only the elements. */
  lemma {:induction false} ClosureIsUnique<T(!new)>(g: Graph<T>, roots: seq<T>, l: seq<T>, m: seq<T>)
    requires IsClosure(g, roots, l) && IsClosure(g, roots, m)
    ensures l == m
  {
    ClosurePrefix(g, roots, l, m, |l|);
    ClosurePrefix(g, roots, m, l, |m|);
    assert l == l[..|l|] && m == m[..|m|];
  }

  // ---------------------------------------------------------------------------------------------
  // By distance
  // ---------------------------------------------------------------------------------------------

  lemma BallStep<T(!new)>(g: Graph<T>, roots: seq<T>, ball: seq<T>, n: nat, x: T)
    requires forall y :: y in ball <==> Within(g, roots, y, n)
    requires forall y :: y in roots ==> y in ball
    requires forall y :: y in ball ==> y in Extend(roots, AllSuccessors(g, ball))
    ensures x in Extend(roots, AllSuccessors(g, ball)) <==> Within(g, roots, x, n + 1)
  {
    AllSuccessorsOf(g, ball, x);
  }

  /** An initial piece of a closure that holds the roots is kept by what it leads to. */
  lemma {:induction false} PieceIsKept<T(!new)>(g: Graph<T>, roots: seq<T>, l: seq<T>, k: nat) returns (known: seq<T>)
    requires IsClosure(g, roots, l) && |roots| <= k <= |l|
    ensures known == Extend(roots, AllSuccessors(g, l[..k])) && known <= l && k <= |known|
    ensures forall y :: y in roots ==> y in l[..k]
    ensures forall y :: y in l[..k] ==> y in known
  {
    known := Discovered(g, roots, l, k);
    assert roots == l[..k][..|roots|];
    assert l[..k] == known[..k];
  }

  /** For every `n`, the nodes within `n` edges of the roots are exactly an initial piece of the closure. */
  lemma {:induction false} BallIsPrefix<T(!new)>(g: Graph<T>, roots: seq<T>, l: seq<T>, n: nat) returns (size: nat)
    requires IsClosure(g, roots, l)
    ensures |roots| <= size <= |l|
    ensures forall x :: x in l[..size] <==> Within(g, roots, x, n)
  {
    if n == 0 {
      size := |roots|;
      assert l[..size] == roots;
    } else {
      var inner := BallIsPrefix(g, roots, l, n - 1);
      var known := PieceIsKept(g, roots, l, inner);
      size := |known|;
      assert l[..size] == known;
      forall x ensures x in known <==> Within(g, roots, x, n) {
        BallStep(g, roots, l[..inner], n - 1, x);
      }
    }
  }

  /** No entry of a closure is further from the roots than a later one. */
  lemma ClosureByDistance<T(!new)>(g: Graph<T>, roots: seq<T>, l: seq<T>, i: nat, j: nat, n: nat)
    requires IsClosure(g, roots, l) && i <= j < |l|
    requires Within(g, roots, l[j], n)
    ensures Within(g, roots, l[i], n)
  {
    var size := BallIsPrefix(g, roots, l, n);
    ExtendTailFresh(roots, AllSuccessors(g, l));
    var k :| 0 <= k < size && l[..size][k] == l[j];
    assert l[k] == l[j] && i < size;
    assert l[..size][i] == l[i];
  }
}
