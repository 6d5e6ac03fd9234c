/** Lists of ids, and lists that together hold every id once. */
module Lists {

  lemma SplitAt<T>(s: seq<T>, p: nat)
    requires p < |s|
    ensures s == s[..p] + [s[p]] + s[p + 1..]
  {
  }

  lemma DropInPrefix<T>(xs: seq<T>, ys: seq<T>, k: nat)
    requires k < |xs|
    ensures (xs + ys)[..k] + (xs + ys)[k + 1..] == (xs[..k] + xs[k + 1..]) + ys
  {
  }

  /** The ids below `n`, once each. */
  function Ids(n: nat): (r: seq<nat>)
    ensures |r| == n && forall i :: 0 <= i < n ==> r[i] == i
  {
    if n == 0 then [] else Ids(n - 1) + [n - 1]
  }

  lemma IdsNone()
    ensures Ids(0) == []
  {
  }

  lemma IdsLast(n: nat)
    requires n > 0
    ensures Ids(n) == Ids(n - 1) + [n - 1]
  {
  }

  lemma MultisetPush(xs: seq<nat>, x: nat)
    ensures multiset(xs + [x]) == multiset(xs) + multiset{x}
  {
  }

  lemma {:induction false} IdsOnce(n: nat, x: nat)
    ensures multiset(Ids(n))[x] == if x < n then 1 else 0
  {
    hide Ids;
    if n == 0 {
      IdsNone();
    } else {
      IdsOnce(n - 1, x);
      IdsLast(n);
      MultisetPush(Ids(n - 1), n - 1);
    }
  }

  lemma MultisetLast(vs: seq<nat>)
    requires |vs| > 0
    ensures multiset(vs) == multiset(vs[..|vs| - 1]) + multiset{vs[|vs| - 1]}
  {
    assert vs == vs[..|vs| - 1] + [vs[|vs| - 1]];
  }

  lemma PartsIn(xs: seq<nat>, ys: seq<nat>, zs: seq<nat>)
    requires multiset(xs) + multiset(ys) == multiset(zs)
    ensures forall i :: 0 <= i < |xs| ==> xs[i] in zs
    ensures forall i :: 0 <= i < |ys| ==> ys[i] in zs
    ensures multiset(xs) <= multiset(zs) && multiset(ys) <= multiset(zs)
  {
    forall i | 0 <= i < |xs|
      ensures xs[i] in zs
    {
      assert xs[i] in multiset(xs);
      assert xs[i] in multiset(zs);
    }
    forall i | 0 <= i < |ys|
      ensures ys[i] in zs
    {
      assert ys[i] in multiset(ys);
      assert ys[i] in multiset(zs);
    }
  }

  /** A list drawn from the ids has no repetition. */
  lemma OnceEach(xs: seq<nat>, n: nat)
    requires multiset(xs) <= multiset(Ids(n))
    ensures forall i, j :: 0 <= i < j < |xs| ==> xs[i] != xs[j]
  {
    forall i, j | 0 <= i < j < |xs|
      ensures xs[i] != xs[j]
    {
      if xs[i] == xs[j] {
        TwiceIn(xs, i, j);
        IdsOnce(n, xs[i]);
      }
    }
  }

  lemma TwiceIn(xs: seq<nat>, i: nat, j: nat)
    requires i < j < |xs| && xs[i] == xs[j]
    ensures multiset(xs)[xs[i]] >= 2
  {
    SplitAt(xs, j);
    var rest := xs[..j] + xs[j + 1..];
    assert multiset(xs) == multiset(xs[..j]) + multiset{xs[j]} + multiset(xs[j + 1..]) by {
      assert multiset(xs) == multiset(xs[..j] + [xs[j]] + xs[j + 1..]);
    }
    assert xs[..j][i] == xs[i];
    assert xs[i] in multiset(xs[..j]);
  }

  /** Lists drawn together from the ids share no member. */
  lemma Apart(xs: seq<nat>, ys: seq<nat>, n: nat)
    requires multiset(xs) + multiset(ys) <= multiset(Ids(n))
    ensures forall i :: 0 <= i < |xs| ==> xs[i] !in ys
  {
    forall i | 0 <= i < |xs|
      ensures xs[i] !in ys
    {
      var x := xs[i];
      IdsOnce(n, x);
      assert x in multiset(xs) && (x in ys ==> x in multiset(ys));
      assert (multiset(xs) + multiset(ys))[x] == multiset(xs)[x] + multiset(ys)[x] <= multiset(Ids(n))[x];
    }
  }

  /** The members of a list. */
  ghost function Members(xs: seq<nat>): set<nat>
  {
    set x | x in xs
  }

  lemma MembersLast(xs: seq<nat>)
    requires |xs| > 0
    ensures Members(xs) == Members(xs[..|xs| - 1]) + {xs[|xs| - 1]}
  {
    assert xs == xs[..|xs| - 1] + [xs[|xs| - 1]];
  }

  /** The list without the given blocks, in order. */
  function Without(xs: seq<nat>, gone: set<nat>): (r: seq<nat>)
    ensures forall i :: 0 <= i < |r| ==> r[i] in xs && r[i] !in gone
    ensures forall x :: x in xs && x !in gone ==> x in r
  {
    if |xs| == 0 then []
    else
      var n := |xs| - 1;
      var r := Without(xs[..n], gone) + if xs[n] in gone then [] else [xs[n]];
      assert forall x :: x in xs ==> x in xs[..n] || x == xs[n];
      r
  }

  ghost predicate Distinct(xs: seq<nat>)
  {
    forall i, j :: 0 <= i < j < |xs| ==> xs[i] != xs[j]
  }

  lemma WithoutLast(xs: seq<nat>, x: nat, gone: set<nat>)
    ensures Without(xs + [x], gone) == Without(xs, gone) + if x in gone then [] else [x]
  {
    assert (xs + [x])[..|xs|] == xs;
  }

  lemma ConcatLast<T>(xs: seq<T>, ys: seq<T>)
    requires |ys| > 0
    ensures var init, y := ys[..|ys| - 1], ys[|ys| - 1];
            ys == init + [y] && xs + ys == xs + init + [y]
  {
  }

  lemma ConcatAssoc<T>(a: seq<T>, b: seq<T>, c: seq<T>)
    ensures (a + b) + c == a + (b + c)
  {
  }

  lemma {:induction false} WithoutConcat(xs: seq<nat>, ys: seq<nat>, gone: set<nat>)
    ensures Without(xs + ys, gone) == Without(xs, gone) + Without(ys, gone)
  {
    if |ys| == 0 {
      assert xs + ys == xs;
    } else {
      hide Without;
      var init, y := ys[..|ys| - 1], ys[|ys| - 1];
      WithoutConcat(xs, init, gone);
      WithoutLast(xs + init, y, gone);
      WithoutLast(init, y, gone);
      ConcatLast(xs, ys);
      ConcatAssoc(Without(xs, gone), Without(init, gone), if y in gone then [] else [y]);
    }
  }

  lemma WithoutEmpty(gone: set<nat>)
    ensures Without([], gone) == []
  {
  }

  lemma {:induction false} WithoutNone(xs: seq<nat>, gone: set<nat>)
    requires forall i :: 0 <= i < |xs| ==> xs[i] !in gone
    ensures Without(xs, gone) == xs
  {
    hide Without;
    if |xs| == 0 {
      WithoutEmpty(gone);
    } else {
      var n := |xs| - 1;
      assert xs == xs[..n] + [xs[n]];
      WithoutNone(xs[..n], gone);
      WithoutLast(xs[..n], xs[n], gone);
    }
  }

  lemma WithoutOne(x: nat, gone: set<nat>)
    ensures Without([x], gone) == if x in gone then [] else [x]
  {
    var one: seq<nat> := [x];
    assert one[..0] == [];
  }

  /** Dropping one more block. */
  lemma WithoutDrop(xs: seq<nat>, k: nat, gone: set<nat>)
    requires k < |xs| && xs[k] in gone
    ensures Without(xs[..k] + xs[k + 1..], gone) == Without(xs, gone)
  {
    hide Without;
    SplitAt(xs, k);
    WithoutConcat(xs[..k] + [xs[k]], xs[k + 1..], gone);
    WithoutConcat(xs[..k], [xs[k]], gone);
    WithoutConcat(xs[..k], xs[k + 1..], gone);
    WithoutOne(xs[k], gone);
  }

  /** Dropping in two steps is dropping all at once. */
  lemma {:induction false} WithoutTwice(xs: seq<nat>, gone: set<nat>, more: set<nat>)
    ensures Without(Without(xs, gone), more) == Without(xs, gone + more)
  {
    if |xs| == 0 {
    } else {
      var n := |xs| - 1;
      WithoutTwice(xs[..n], gone, more);
      WithoutConcat(Without(xs[..n], gone), if xs[n] in gone then [] else [xs[n]], more);
      if xs[n] !in gone {
        WithoutOne(xs[n], more);
      }
    }
  }

  lemma {:induction false} WithoutDistinct(xs: seq<nat>, gone: set<nat>)
    requires Distinct(xs)
    ensures Distinct(Without(xs, gone))
  {
    if |xs| == 0 {
    } else {
      var n := |xs| - 1;
      WithoutDistinct(xs[..n], gone);
      assert forall i :: 0 <= i < |Without(xs[..n], gone)| ==> Without(xs[..n], gone)[i] != xs[n];
    }
  }
}
