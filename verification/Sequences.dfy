/** Lists without repetition: the shape that every insertion-ordered `Set` and `Map` of the scripts keeps. */
module Sequences {

  datatype Option<+T> = None | Some(value: T)

  ghost predicate NoDup<T>(s: seq<T>) {
    forall i, j :: 0 <= i < j < |s| ==> s[i] != s[j]
  }

  lemma NothingIn<T(!new)>(s: seq<T>)
    ensures s == [] <==> forall x :: x !in s
  {
    assert s != [] ==> s[0] in s;
  }

  /** No element clashes with a later one. */
  ghost predicate Apart<T>(clash: (T, T) -> bool, s: seq<T>) {
    forall i, j :: 0 <= i < j < |s| ==> !clash(s[i], s[j])
  }

  lemma ApartNext<T(!new)>(clash: (T, T) -> bool, s: seq<T>, x: T)
    ensures Apart(clash, s + [x]) <==> Apart(clash, s) && forall y :: y in s ==> !clash(y, x)
  {
    var all := s + [x];
    if Apart(clash, all) {
      forall i, j | 0 <= i < j < |s| ensures !clash(s[i], s[j]) { assert !clash(all[i], all[j]); }
      forall i | 0 <= i < |s| ensures !clash(s[i], x) { assert !clash(all[i], all[|s|]); }
    }
  }

  /** The length of a list without repetition is the number of its elements. */
  lemma {:induction false} NoDupSize<T>(s: seq<T>)
    requires NoDup(s)
    ensures |s| == |set x | x in s|
  {
    if s != [] {
      var init, last := s[..|s| - 1], s[|s| - 1];
      NoDupSize(init);
      assert s == init + [last];
      assert last !in init;
      assert (set x | x in s) == (set x | x in init) + {last};
    }
  }

  lemma {:induction false} ExtendNothing<T(!new)>(xs: seq<T>)
    requires NoDup(xs)
    ensures Extend([], xs) == xs
  {
    if xs != [] {
      var init, last := xs[..|xs| - 1], xs[|xs| - 1];
      assert xs == init + [last] && last !in init;
      ExtendNothing(init);
      ExtendConcat([], init, [last]);
      assert Extend(init, [last]) == Extend(init + [last], []);
    }
  }

  /** `x` stands in `s` before `y`. */
  ghost predicate Precedes<T>(s: seq<T>, x: T, y: T) {
    exists a, b :: 0 <= a < b < |s| && s[a] == x && s[b] == y
  }

  /** Extending keeps the order of what it adds. */
  lemma {:induction false} ExtendOrder<T(!new)>(s: seq<T>, xs: seq<T>, i: nat, j: nat)
    requires i < j < |xs| && xs[j] !in s && xs[j] !in xs[..j]
    ensures Precedes(Extend(s, xs), xs[i], xs[j])
  {
    var early, all := Extend(s, xs[..j]), Extend(s, xs);
    ExtendPrefix(s, xs[..j], xs);
    assert xs[i] == xs[..j][i] && xs[i] in xs[..j];
    assert xs[i] in early && xs[j] in all;
    var a :| 0 <= a < |early| && early[a] == xs[i];
    var b :| 0 <= b < |all| && all[b] == xs[j];
    assert early == all[..|early|];
    assert all[a] == xs[i];
  }

  lemma PrefixOneMore<T>(s: seq<T>, t: seq<T>, k: nat)
    requires k < |s| && k < |t| && s[..k] == t[..k] && s[k] == t[k]
    ensures s[..k + 1] == t[..k + 1]
  {
    assert s[..k + 1] == s[..k] + [s[k]];
  }

  lemma ConcatAssoc<T>(a: seq<T>, b: seq<T>, c: seq<T>)
    ensures a + (b + c) == (a + b) + c
  {
  }

  /** Moving the head of a queue to the end of the list in front of it changes nothing. */
  lemma ShiftHead<T>(a: seq<T>, b: seq<T>)
    requires b != []
    ensures (a + [b[0]]) + b[1..] == a + b && (a + b)[|a|] == b[0]
  {
  }

  lemma FewerLeft<T>(all: set<T>, a: set<T>, b: set<T>)
    requires a < b <= all
    ensures all - b < all - a
  {
    var x :| x in b && x !in a;
    assert x in all - a && x !in all - b;
  }

  /** `s`, then each element of `xs` that is not there yet, at its first occurrence. */
  function Extend<T(==,!new)>(s: seq<T>, xs: seq<T>): (r: seq<T>)
    ensures s <= r
    ensures forall x :: x in r <==> x in s || x in xs
    decreases |xs|
  {
    if xs == [] then s
    else
      var r := Extend(if xs[0] in s then s else s + [xs[0]], xs[1..]);
      assert forall x :: x in xs <==> x == xs[0] || x in xs[1..];
      r
  }

  /** Extending is done from left to right. */
  lemma {:induction false} ExtendConcat<T(!new)>(s: seq<T>, xs: seq<T>, ys: seq<T>)
    ensures Extend(s, xs + ys) == Extend(Extend(s, xs), ys)
    decreases |xs|
  {
    if xs == [] {
      assert xs + ys == ys;
    } else {
      assert (xs + ys)[1..] == xs[1..] + ys;
      ExtendConcat(if xs[0] in s then s else s + [xs[0]], xs[1..], ys);
    }
  }

  lemma ExtendPrefix<T(!new)>(s: seq<T>, xs: seq<T>, ys: seq<T>)
    requires xs <= ys
    ensures Extend(s, xs) <= Extend(s, ys)
  {
    assert ys == xs + ys[|xs|..];
    ExtendConcat(s, xs, ys[|xs|..]);
  }

  /** What `Extend` adds behind `s` is new to everything before it. */
  lemma {:induction false} ExtendTailFresh<T(!new)>(s: seq<T>, xs: seq<T>)
    ensures forall i, k :: |s| <= k < |Extend(s, xs)| && 0 <= i < k ==> Extend(s, xs)[i] != Extend(s, xs)[k]
    decreases |xs|
  {
    if xs != [] {
      ExtendTailFresh(if xs[0] in s then s else s + [xs[0]], xs[1..]);
    }
  }

  lemma ExtendNoDup<T(!new)>(s: seq<T>, xs: seq<T>)
    ensures NoDup(Extend(s, xs)) <==> NoDup(s)
  {
    ExtendTailFresh(s, xs);
    var r := Extend(s, xs);
    if NoDup(r) {
      forall i, j | 0 <= i < j < |s| ensures s[i] != s[j] {
        assert s[i] == r[i] && s[j] == r[j];
      }
    }
    if NoDup(s) {
      forall i, j | 0 <= i < j < |r| ensures r[i] != r[j] {
        if j < |s| {
          assert s[i] == r[i] && s[j] == r[j];
        }
      }
    }
  }

  /** Extending by nothing new changes nothing. */
  lemma {:induction false} ExtendKnown<T(!new)>(s: seq<T>, xs: seq<T>)
    requires forall x :: x in xs ==> x in s
    ensures Extend(s, xs) == s
    decreases |xs|
  {
    if xs != [] {
      ExtendKnown(s, xs[1..]);
    }
  }

  /** A list without repetition drawn from a finite set is no longer than the set. */
  lemma {:induction false} NoDupBound<T(!new)>(s: seq<T>, universe: set<T>)
    requires NoDup(s)
    requires forall x :: x in s ==> x in universe
    ensures |s| <= |universe|
    decreases |s|
  {
    if s != [] {
      var x := s[0];
      forall y | y in s[1..] ensures y in universe - {x} {
        var i :| 0 <= i < |s[1..]| && s[1..][i] == y;
        assert s[i + 1] == y && s[0] != s[i + 1];
      }
      assert s[0] in universe;
      NoDupBound(s[1..], universe - {x});
    }
  }

  /** What `f` makes of the elements of `l`, in order; elements it makes nothing of are skipped. */
  function FilterMap<A, B>(f: A -> Option<B>, l: seq<A>): seq<B> {
    if l == [] then []
    else (match f(l[0]) case None => [] case Some(b) => [b]) + FilterMap(f, l[1..])
  }

  lemma {:induction false} FilterMapConcat<A, B>(f: A -> Option<B>, a: seq<A>, b: seq<A>)
    ensures FilterMap(f, a + b) == FilterMap(f, a) + FilterMap(f, b)
  {
    if a == [] {
      assert a + b == b;
    } else {
      assert (a + b)[1..] == a[1..] + b;
      FilterMapConcat(f, a[1..], b);
    }
  }

  lemma FilterMapNext<A, B>(f: A -> Option<B>, l: seq<A>, i: nat)
    requires i < |l|
    ensures FilterMap(f, l[..i + 1])
         == match f(l[i]) case None => FilterMap(f, l[..i]) case Some(b) => FilterMap(f, l[..i]) + [b]
  {
    FilterMapConcat(f, l[..i], [l[i]]);
    assert l[..i + 1] == l[..i] + [l[i]];
  }

  lemma {:induction false} FilterMapOrigin<A(!new), B(!new)>(f: A -> Option<B>, l: seq<A>, b: B)
    ensures b in FilterMap(f, l) <==> exists a :: a in l && f(a) == Some(b)
  {
    if l != [] {
      FilterMapOrigin(f, l[1..], b);
      assert l == [l[0]] + l[1..];
    }
  }

  /** Index of the first `c` in `s`, or `|s|` when there is none. */
  function Find<T(==)>(s: seq<T>, c: T): (i: nat)
    ensures i <= |s| && c !in s[..i]
    ensures i < |s| ==> s[i] == c
  {
    if s == [] || s[0] == c then 0
    else
      var i := 1 + Find(s[1..], c);
      assert s[..i] == [s[0]] + s[1..][..i - 1];
      i
  }

  lemma {:induction false} FindAt<T>(s: seq<T>, c: T, i: nat)
    requires i < |s| && s[i] == c && c !in s[..i]
    ensures Find(s, c) == i
  {
    if i > 0 {
      assert s[0] == s[..i][0] && s[1..][..i - 1] == s[..i][1..];
      FindAt(s[1..], c, i - 1);
    }
  }
}
