/** What the collectors share: picks from a list of blocks, and where a host write
    leaves its page. */
module BlockLists {
  import opened Options
  import opened Flash

  predicate InRange(d: Ftl, xs: seq<nat>)
  {
    forall i :: 0 <= i < |xs| ==> xs[i] < |d.blocks|
  }

  /** The first block of the list with the fewest valid pages. */
  function MinValid(d: Ftl, xs: seq<nat>): (v: nat)
    requires |xs| > 0 && InRange(d, xs)
    ensures v in xs && v < |d.blocks|
    ensures forall i :: 0 <= i < |xs| ==> d.blocks[v].validCnt <= d.blocks[xs[i]].validCnt
  {
    var n := |xs| - 1;
    if n == 0 then xs[0]
    else
      assert InRange(d, xs[..n]);
      var best := MinValid(d, xs[..n]);
      if d.blocks[xs[n]].validCnt < d.blocks[best].validCnt then xs[n] else best
  }

  lemma MinValidOne(d: Ftl, xs: seq<nat>)
    requires |xs| > 0 && InRange(d, xs)
    ensures InRange(d, xs[..1]) && MinValid(d, xs[..1]) == xs[0]
  {
  }

  lemma MinValidNext(d: Ftl, xs: seq<nat>, n: nat)
    requires 0 < n < |xs| && InRange(d, xs)
    ensures InRange(d, xs[..n]) && InRange(d, xs[..n + 1])
    ensures var best := MinValid(d, xs[..n]);
      MinValid(d, xs[..n + 1]) == if d.blocks[xs[n]].validCnt < d.blocks[best].validCnt then xs[n] else best
  {
    assert xs[..n + 1][..n] == xs[..n];
  }

  /** Place `k` of the list holds a block with fewer valid pages than all before it and no
      more than any after it. */
  ghost predicate FirstLeast(d: Ftl, xs: seq<nat>, k: nat)
    requires InRange(d, xs)
  {
    && k < |xs|
    && (forall i :: 0 <= i < k ==> d.blocks[xs[k]].validCnt < d.blocks[xs[i]].validCnt)
    && (forall i :: k <= i < |xs| ==> d.blocks[xs[k]].validCnt <= d.blocks[xs[i]].validCnt)
  }

  lemma FirstLeastNext(d: Ftl, xs: seq<nat>, k: nat)
    requires InRange(d, xs) && |xs| > 1 && InRange(d, xs[..|xs| - 1]) && FirstLeast(d, xs[..|xs| - 1], k)
    ensures var n := |xs| - 1;
            FirstLeast(d, xs, if d.blocks[xs[n]].validCnt < d.blocks[xs[k]].validCnt then n else k)
  {
    var n := |xs| - 1;
    forall i | 0 <= i < n
      ensures d.blocks[xs[k]].validCnt <= d.blocks[xs[i]].validCnt
      ensures i < k ==> d.blocks[xs[k]].validCnt < d.blocks[xs[i]].validCnt
    {
      assert xs[..n][i] == xs[i] && xs[..n][k] == xs[k];
    }
  }

  /** Of several blocks with the fewest valid pages the first in the list is taken. */
  lemma {:induction false} MinValidFirst(d: Ftl, xs: seq<nat>) returns (k: nat)
    requires |xs| > 0 && InRange(d, xs)
    ensures FirstLeast(d, xs, k) && xs[k] == MinValid(d, xs)
  {
    hide FirstLeast;
    var n := |xs| - 1;
    if n == 0 {
      k := 0;
      FirstLeastOne(d, xs);
    } else {
      k := MinValidFirst(d, xs[..n]);
      FirstLeastNext(d, xs, k);
      LeastIndex(d, xs[..n], k);
      if d.blocks[xs[n]].validCnt < d.blocks[xs[k]].validCnt {
        k := n;
      }
    }
  }

  lemma FirstLeastOne(d: Ftl, xs: seq<nat>)
    requires |xs| == 1 && InRange(d, xs)
    ensures FirstLeast(d, xs, 0)
  {
  }

  lemma LeastIndex(d: Ftl, xs: seq<nat>, k: nat)
    requires InRange(d, xs) && FirstLeast(d, xs, k)
    ensures k < |xs|
  {
  }

  /** Page `l` lies in the last written slot of block `b`. */
  predicate PageWritten(d: Ftl, l: nat, b: nat)
  {
    && l < |d.ltp| && b < |d.blocks| && d.blocks[b].writePos > 0
    && d.ltp[l] == Some(Loc(b, d.blocks[b].writePos - 1))
  }

  /** No page but `l` has another place than before. */
  ghost predicate OnlyMoves(d: Ftl, r: Ftl, l: nat)
  {
    |r.ltp| == |d.ltp| && forall k :: 0 <= k < |d.ltp| && k != l ==> r.ltp[k] == d.ltp[k]
  }
}
