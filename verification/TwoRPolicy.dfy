/** 2R-greedy: blocks live in a normal or a cold region; collection picks a region,
    then victims greedily until they hold a block's worth of invalid pages. */
module TwoRPolicy {
  import opened Options
  import opened Lists
  import opened Flash
  import opened BlockLists
  import opened Chain
  import Counting
  import Migration
  import Sums

  datatype TwoR = TwoR(d: Ftl, current: nat, free: seq<nat>, normal: seq<nat>, cold: seq<nat>)

  /* ---------- region lists ---------- */

  /** The list without any occurrence of `v`. */
  function Remove(xs: seq<nat>, v: nat): (r: seq<nat>)
    ensures |r| <= |xs|
    ensures v in xs ==> |r| < |xs|
    ensures multiset(r) == multiset(xs)[v := 0]
  {
    if |xs| == 0 then []
    else
      var n := |xs| - 1;
      assert xs == xs[..n] + [xs[n]];
      if xs[n] == v then Remove(xs[..n], v) else Remove(xs[..n], v) + [xs[n]]
  }

  lemma {:induction false} InvalidSumConcat(d: Ftl, xs: seq<nat>, ys: seq<nat>)
    ensures InvalidSum(d, xs + ys) == InvalidSum(d, xs) + InvalidSum(d, ys)
  {
    InvalidSumSplit(d, xs + ys, |xs|);
    assert (xs + ys)[..|xs|] == xs && (xs + ys)[|xs|..] == ys;
  }

  lemma InvalidSumDrop(d: Ftl, xs: seq<nat>, i: nat)
    requires i < |xs|
    ensures InvalidSum(d, xs) == InvalidCnt(d, xs[i]) + InvalidSum(d, xs[..i] + xs[i + 1..])
    ensures multiset(xs[..i] + xs[i + 1..]) == multiset(xs) - multiset{xs[i]}
  {
    SplitAt(xs, i);
    InvalidSumConcat(d, xs[..i] + [xs[i]], xs[i + 1..]);
    InvalidSumConcat(d, xs[..i], [xs[i]]);
    InvalidSumOne(d, xs[i]);
    InvalidSumConcat(d, xs[..i], xs[i + 1..]);
    assert multiset(xs) == multiset(xs[..i] + [xs[i]] + xs[i + 1..]);
  }

  /** The invalid total depends only on which blocks are listed. */
  lemma {:induction false} InvalidSumPerm(d: Ftl, xs: seq<nat>, ys: seq<nat>)
    requires multiset(xs) == multiset(ys)
    ensures InvalidSum(d, xs) == InvalidSum(d, ys)
    decreases |xs|
  {
    if |xs| == 0 {
      assert |multiset(ys)| == 0;
    } else {
      var x := xs[0];
      assert x in multiset(ys);
      var i :| 0 <= i < |ys| && ys[i] == x;
      InvalidSumDrop(d, xs, 0);
      InvalidSumDrop(d, ys, i);
      InvalidSumPerm(d, xs[..0] + xs[1..], ys[..i] + ys[i + 1..]);
    }
  }

  lemma {:induction false} InvalidSumIds(d: Ftl, n: nat)
    requires n <= |d.blocks|
    ensures InvalidSum(d, Ids(n)) + Sums.Sum(ValidOf, d.blocks[..n]) == d.ppb * n
  {
    assert InvalidSum(d, []) == 0 && Sums.Sum(ValidOf, d.blocks[..0]) == 0;
    if n == 0 {
    } else {
      hide Sums.Sum, InvalidSum;
      InvalidSumIds(d, n - 1);
      InvalidSumLast(d, Ids(n - 1), n - 1);
      Sums.SumPrefix(ValidOf, d.blocks, n);
      assert d.ppb * n == d.ppb * (n - 1) + d.ppb;
    }
  }

  /** Over all blocks the invalid total is capacity less valid pages. */
  lemma InvalidSumAll(d: Ftl, xs: seq<nat>)
    requires multiset(xs) == multiset(Ids(|d.blocks|))
    ensures InvalidSum(d, xs) == d.Capacity() - d.Valid()
  {
    InvalidSumPerm(d, xs, Ids(|d.blocks|));
    InvalidSumIds(d, |d.blocks|);
    assert d.blocks[..|d.blocks|] == d.blocks;
  }

  /* ---------- victim selection ---------- */

  /** Whether the cold region is collected. */
  predicate CollectCold(d: Ftl, normal: seq<nat>, cold: seq<nat>)
    requires Good(d) && InRange(d, normal) && InRange(d, cold)
  {
    if InvalidSum(d, cold) < d.ppb then false
    else if InvalidSum(d, normal) < d.ppb then true
    else
      assert d.ppb > 0;
      d.blocks[MinValid(d, cold)].validCnt <= d.blocks[MinValid(d, normal)].validCnt
  }

  /** When both regions hold a block's worth of invalid pages, the region with the
      block of fewest valid pages is collected, the cold one on a tie. */
  lemma BetterRegion(d: Ftl, normal: seq<nat>, cold: seq<nat>, n: nat, c: nat)
    requires Good(d) && InRange(d, normal) && InRange(d, cold)
    requires d.ppb <= InvalidSum(d, normal) && d.ppb <= InvalidSum(d, cold)
    requires n in normal && forall i :: 0 <= i < |normal| ==> d.blocks[n].validCnt <= d.blocks[normal[i]].validCnt
    requires c in cold && forall i :: 0 <= i < |cold| ==> d.blocks[c].validCnt <= d.blocks[cold[i]].validCnt
    ensures CollectCold(d, normal, cold) <==> d.blocks[c].validCnt <= d.blocks[n].validCnt
  {
    assert d.ppb > 0;
    hide Good, InvalidSum;
    InvalidSumEmpty(d);
    MinUnique(d, normal, n);
    MinUnique(d, cold, c);
  }

  lemma MinUnique(d: Ftl, xs: seq<nat>, m: nat)
    requires |xs| > 0 && InRange(d, xs) && m in xs
    requires forall i :: 0 <= i < |xs| ==> d.blocks[m].validCnt <= d.blocks[xs[i]].validCnt
    ensures d.blocks[MinValid(d, xs)].validCnt == d.blocks[m].validCnt
  {
    hide MinValid;
    var v := MinValid(d, xs);
    var i :| 0 <= i < |xs| && xs[i] == v;
    var j :| 0 <= j < |xs| && xs[j] == m;
  }

  datatype Selection = Selection(victims: seq<nat>, rest: seq<nat>)

  /** Takes minima from the region until a block's worth of invalid pages is picked. */
  function Select(d: Ftl, region: seq<nat>, picked: seq<nat>): (s: Selection)
    requires InRange(d, region)
    ensures multiset(region) <= multiset(Ids(|d.blocks|)) ==>
      multiset(s.victims) + multiset(s.rest) == multiset(picked) + multiset(region)
    decreases |region|
  {
    if InvalidSum(d, picked) < d.ppb && |region| > 0 then
      var v := MinValid(d, region);
      RemoveOnce(d, region, v);
      RemoveInRange(d, region, v);
      Select(d, Remove(region, v), picked + [v])
    else Selection(picked, region)
  }

  lemma RemoveOnce(d: Ftl, region: seq<nat>, v: nat)
    requires v in region
    ensures multiset(region) <= multiset(Ids(|d.blocks|)) ==>
      && multiset(Remove(region, v)) == multiset(region) - multiset{v}
      && multiset(Remove(region, v)) <= multiset(Ids(|d.blocks|))
  {
    IdsOnce(|d.blocks|, v);
  }

  lemma {:induction false} RemoveInRange(d: Ftl, region: seq<nat>, v: nat)
    requires InRange(d, region)
    ensures InRange(d, Remove(region, v))
  {
    forall i | 0 <= i < |Remove(region, v)|
      ensures Remove(region, v)[i] < |d.blocks|
    {
      assert Remove(region, v)[i] in multiset(Remove(region, v));
      assert Remove(region, v)[i] in region;
    }
  }

  /** The picks so far are in greedy order and precede everything left. */
  ghost predicate Picking(d: Ftl, region: seq<nat>, picked: seq<nat>)
  {
    && (forall i, j :: 0 <= i <= j < |picked| ==> InvalidCnt(d, picked[j]) <= InvalidCnt(d, picked[i]))
    && (forall i, j :: 0 <= i < |picked| && 0 <= j < |region| ==> InvalidCnt(d, region[j]) <= InvalidCnt(d, picked[i]))
    && (|picked| > 0 ==> InvalidSum(d, picked[..|picked| - 1]) < d.ppb)
  }

  lemma RemoveFrom(xs: seq<nat>, v: nat)
    ensures forall j :: 0 <= j < |Remove(xs, v)| ==> Remove(xs, v)[j] in xs
  {
    forall j | 0 <= j < |Remove(xs, v)|
      ensures Remove(xs, v)[j] in xs
    {
      assert Remove(xs, v)[j] in multiset(Remove(xs, v));
    }
  }

  lemma MinValidInvalid(d: Ftl, region: seq<nat>, x: nat)
    requires |region| > 0 && InRange(d, region) && x in region
    ensures InvalidCnt(d, x) <= InvalidCnt(d, MinValid(d, region))
  {
    var i :| 0 <= i < |region| && region[i] == x;
    assert d.blocks[MinValid(d, region)].validCnt <= d.blocks[region[i]].validCnt;
  }

  lemma PickStep(d: Ftl, region: seq<nat>, picked: seq<nat>)
    requires Picking(d, region, picked) && |region| > 0 && InRange(d, region) && InvalidSum(d, picked) < d.ppb
    ensures var v := MinValid(d, region); Picking(d, Remove(region, v), picked + [v])
  {
    hide InvalidSum, InvalidCnt, Remove, MinValid;
    var v := MinValid(d, region);
    var rest := Remove(region, v);
    RemoveFrom(region, v);
    assert (picked + [v])[..|picked|] == picked;
    forall j | 0 <= j < |rest|
      ensures InvalidCnt(d, rest[j]) <= InvalidCnt(d, v)
      ensures forall i :: 0 <= i < |picked| ==> InvalidCnt(d, rest[j]) <= InvalidCnt(d, picked[i])
    {
      MinValidInvalid(d, region, rest[j]);
    }
  }

  /** Selection reaches a block's worth exactly when the region holds one, and then
      in greedy order with no more victims than needed. */
  lemma {:induction false} SelectGreedy(d: Ftl, region: seq<nat>, picked: seq<nat>)
    requires Good(d) && InRange(d, region) && Picking(d, region, picked)
    requires multiset(region) <= multiset(Ids(|d.blocks|))
    ensures var vs := Select(d, region, picked).victims;
      if d.ppb <= InvalidSum(d, picked) + InvalidSum(d, region) then GreedyOrder(d, vs)
      else InvalidSum(d, vs) < d.ppb
    decreases |region|
  {
    assert d.ppb > 0;
    hide Good, InvalidSum, InvalidCnt, Picking, Remove;
    InvalidSumEmpty(d);
    if InvalidSum(d, picked) < d.ppb && |region| > 0 {
      var v := MinValid(d, region);
      RemoveOnce(d, region, v);
      RemoveInRange(d, region, v);
      PickStep(d, region, picked);
      InvalidSumLast(d, picked, v);
      InvalidSumRemove(d, region, v);
      SelectGreedy(d, Remove(region, v), picked + [v]);
    } else {
      InvalidSumNat(d, region);
      PickingOrder(d, region, picked);
    }
  }

  /** Picks are never dropped again. */
  lemma {:induction false} SelectPrefix(d: Ftl, region: seq<nat>, picked: seq<nat>)
    requires InRange(d, region)
    ensures picked <= Select(d, region, picked).victims
    decreases |region|
  {
    hide InvalidSum, MinValid, Remove;
    if InvalidSum(d, picked) < d.ppb && |region| > 0 {
      var v := MinValid(d, region);
      RemoveInRange(d, region, v);
      SelectPrefix(d, Remove(region, v), picked + [v]);
    }
  }

  /** The first victim is the region's block of fewest valid pages. */
  lemma SelectFirst(d: Ftl, region: seq<nat>)
    requires InRange(d, region) && |region| > 0 && d.ppb > 0
    ensures var vs := Select(d, region, []).victims; |vs| > 0 && vs[0] == MinValid(d, region)
  {
    InvalidSumEmpty(d);
    hide InvalidSum, MinValid, Remove;
    var v := MinValid(d, region);
    RemoveInRange(d, region, v);
    SelectPrefix(d, Remove(region, v), [] + [v]);
  }

  lemma InvalidSumEmpty(d: Ftl)
    ensures InvalidSum(d, []) == 0
  {
  }

  lemma PickingOrder(d: Ftl, region: seq<nat>, picked: seq<nat>)
    requires Picking(d, region, picked) && d.ppb > 0
    ensures d.ppb <= InvalidSum(d, picked) ==> GreedyOrder(d, picked)
  {
  }

  lemma InvalidSumRemove(d: Ftl, region: seq<nat>, v: nat)
    requires v in region && multiset(region) <= multiset(Ids(|d.blocks|))
    ensures InvalidSum(d, Remove(region, v)) + InvalidCnt(d, v) == InvalidSum(d, region)
  {
    var i :| 0 <= i < |region| && region[i] == v;
    InvalidSumDrop(d, region, i);
    RemoveOnce(d, region, v);
    InvalidSumPerm(d, Remove(region, v), region[..i] + region[i + 1..]);
  }

  /** Selection only takes blocks of the region, each at most once. */
  lemma SelectParts(d: Ftl, region: seq<nat>)
    requires InRange(d, region) && multiset(region) <= multiset(Ids(|d.blocks|))
    ensures var s := Select(d, region, []);
      && multiset(s.victims) + multiset(s.rest) == multiset(region)
      && (forall i :: 0 <= i < |s.victims| ==> s.victims[i] in region)
      && (forall i :: 0 <= i < |s.rest| ==> s.rest[i] in region)
      && (forall i, j :: 0 <= i < j < |s.victims| ==> s.victims[i] != s.victims[j])
  {
    hide Select;
    var s := Select(d, region, []);
    assert multiset([]) + multiset(region) == multiset(region);
    PartsIn(s.victims, s.rest, region);
    OnceEach(s.victims, |d.blocks|);
  }

  /** Removing a block keeps the order of the others. */
  lemma {:induction false} RemoveIsWithout(xs: seq<nat>, v: nat)
    ensures Remove(xs, v) == Without(xs, {v})
  {
    if |xs| == 0 {
    } else {
      RemoveIsWithout(xs[..|xs| - 1], v);
    }
  }

  lemma MembersPrefix(xs: seq<nat>, ys: seq<nat>)
    requires xs <= ys
    ensures Members(xs) <= Members(ys)
  {
    assert forall i :: 0 <= i < |xs| ==> xs[i] == ys[i];
  }

  lemma {:induction false} SelectRestFrom(d: Ftl, region: seq<nat>, picked: seq<nat>)
    requires InRange(d, region) && forall x :: x in region ==> x !in picked
    ensures var s := Select(d, region, picked); s.rest == Without(region, Members(s.victims))
    decreases |region|
  {
    hide InvalidSum, MinValid, Remove, Without, Members;
    var s := Select(d, region, picked);
    if InvalidSum(d, picked) < d.ppb && |region| > 0 {
      var v := MinValid(d, region);
      RemoveInRange(d, region, v);
      RemoveIsWithout(region, v);
      SelectRestFrom(d, Remove(region, v), picked + [v]);
      SelectPrefix(d, Remove(region, v), picked + [v]);
      WithoutTwo(region, v, s.victims, picked + [v]);
    } else {
      WithoutNone(region, Members(picked)) by { NotMember(picked, region); }
    }
  }

  lemma NotMember(picked: seq<nat>, region: seq<nat>)
    requires forall x :: x in region ==> x !in picked
    ensures forall i :: 0 <= i < |region| ==> region[i] !in Members(picked)
  {
  }

  lemma WithoutTwo(region: seq<nat>, v: nat, victims: seq<nat>, first: seq<nat>)
    requires first <= victims && v in first
    ensures Without(Without(region, {v}), Members(victims)) == Without(region, Members(victims))
  {
    WithoutTwice(region, {v}, Members(victims));
    assert v in Members(victims) by { MembersPrefix(first, victims); }
    assert {v} + Members(victims) == Members(victims);
  }

  lemma DrawnInRange(d: Ftl, xs: seq<nat>)
    requires multiset(xs) <= multiset(Ids(|d.blocks|))
    ensures InRange(d, xs)
  {
    forall i | 0 <= i < |xs|
      ensures xs[i] < |d.blocks|
    {
      assert xs[i] in multiset(xs);
      IdsOnce(|d.blocks|, xs[i]);
    }
  }

  /* ---------- the collector's state ---------- */

  /** The listed blocks that are full, in order; the program returns them to the
      cold region. */
  function FullOf(d: Ftl, vs: seq<nat>): (r: seq<nat>)
    requires InRange(d, vs)
    ensures forall i :: 0 <= i < |r| ==> r[i] < |d.blocks| && !d.blocks[r[i]].CanWrite()
  {
    if |vs| == 0 then []
    else
      var n := |vs| - 1;
      FullOf(d, vs[..n]) + if d.blocks[vs[n]].CanWrite() then [] else [vs[n]]
  }

  /** The listed blocks that can be written, in order; they become free blocks. */
  function OpenOf(d: Ftl, vs: seq<nat>): (r: seq<nat>)
    requires InRange(d, vs)
    ensures forall i :: 0 <= i < |r| ==> r[i] < |d.blocks| && d.blocks[r[i]].CanWrite()
  {
    if |vs| == 0 then []
    else
      var n := |vs| - 1;
      OpenOf(d, vs[..n]) + if d.blocks[vs[n]].CanWrite() then [vs[n]] else []
  }

  lemma {:induction false} SortedOut(d: Ftl, vs: seq<nat>)
    requires InRange(d, vs)
    ensures multiset(FullOf(d, vs)) + multiset(OpenOf(d, vs)) == multiset(vs)
  {
    if |vs| == 0 {
    } else {
      SortedOut(d, vs[..|vs| - 1]);
      MultisetLast(vs);
    }
  }

  lemma {:induction false} FirstOpen(d: Ftl, vs: seq<nat>)
    requires InRange(d, vs) && |vs| > 0 && d.blocks[vs[0]].CanWrite()
    ensures |OpenOf(d, vs)| > 0 && OpenOf(d, vs)[0] == vs[0]
  {
    if |vs| > 1 {
      FirstOpen(d, vs[..|vs| - 1]);
    } else {
      assert vs[..0] == [];
    }
  }

  ghost predicate AllFullIn(d: Ftl, xs: seq<nat>)
  {
    forall i :: 0 <= i < |xs| ==> xs[i] < |d.blocks| && d.blocks[xs[i]].FullyWritten()
  }

  ghost predicate AllOpenIn(d: Ftl, xs: seq<nat>)
  {
    forall i :: 0 <= i < |xs| ==> xs[i] < |d.blocks| && d.blocks[xs[i]].CanWrite()
  }

  /** Together the lists hold every block id exactly once. */
  ghost predicate Covers(n: nat, held: seq<nat>, free: seq<nat>, normal: seq<nat>, cold: seq<nat>)
  {
    multiset(held) + multiset(free) + multiset(normal) + multiset(cold) == multiset(Ids(n))
  }

  /** The lists partition the block ids: what is held, the writable free blocks, and
      the two regions of full blocks. */
  ghost predicate Shelved(d: Ftl, held: seq<nat>, free: seq<nat>, normal: seq<nat>, cold: seq<nat>)
  {
    && Good(d) && Conserved(d)
    && Covers(|d.blocks|, held, free, normal, cold)
    && AllOpenIn(d, free) && AllFullIn(d, normal) && AllFullIn(d, cold)
  }

  ghost predicate Ready2R(t: TwoR)
  {
    Shelved(t.d, [t.current], t.free, t.normal, t.cold) && t.current < |t.d.blocks|
  }

  /* ---------- one collection ---------- */

  /** What a collection of one region yields: the device, the blocks freed, the
      region's blocks not picked, and the picked blocks that ended full. */
  datatype Harvest = Harvest(d: Ftl, freed: seq<nat>, rest: seq<nat>, refilled: seq<nat>)

  /** Collects one region; None stands for the check that the picked victims hold a
      block's worth of invalid pages. */
  function Reap(d: Ftl, region: seq<nat>): (r: Option<Harvest>)
    requires Good(d) && AllFullIn(d, region) && multiset(region) <= multiset(Ids(|d.blocks|))
  {
    hide Good, Select, CompactList, Conserved, Mapped, InvalidSum;
    SelectFull(d, region);
    var s := Select(d, region, []);
    if InvalidSum(d, s.victims) < d.ppb then None
    else
      var e := CompactList(d, s.victims);
      if e.None? then None
      else Some(Harvest(e.value, OpenOf(e.value, s.victims), s.rest, FullOf(e.value, s.victims)))
  }

  lemma SelectFull(d: Ftl, region: seq<nat>)
    requires AllFullIn(d, region) && multiset(region) <= multiset(Ids(|d.blocks|))
    ensures FullVictims(d, Select(d, region, []).victims)
  {
    SelectParts(d, region);
    hide Select;
  }

  /** Collecting a region works exactly when it holds a block's worth of invalid
      pages; the first freed block is then an erased one. */
  lemma ReapWorks(d: Ftl, region: seq<nat>)
    requires Good(d) && AllFullIn(d, region) && multiset(region) <= multiset(Ids(|d.blocks|))
    ensures Reap(d, region).Some? <==> d.ppb <= InvalidSum(d, region)
    ensures Reap(d, region).Some? ==>
      var r := Reap(d, region).value;
      && |r.freed| > 0 && r.freed[0] < |r.d.blocks| && r.d.blocks[r.freed[0]].IsErased()
  {
    SelectFull(d, region);
    assert d.ppb > 0;
    hide Good, Conserved, Mapped, Select, CompactList, InvalidSum, GreedyOrder, FullVictims;
    InvalidSumEmpty(d);
    PickingStart(d, region);
    SelectGreedy(d, region, []);
    var vs := Select(d, region, []).victims;
    CompactListFrees(d, vs);
    if d.ppb <= InvalidSum(d, region) {
      GreedyOrderParts(d, vs);
      GreedyOrderOutcome(d, vs);
      var e := CompactList(d, vs).value;
      BlockFacts(e, vs[0]);
      FirstOpen(e, vs);
    }
  }

  lemma PickingStart(d: Ftl, region: seq<nat>)
    ensures Picking(d, region, [])
  {
  }

  lemma GreedyOrderParts(d: Ftl, vs: seq<nat>)
    requires GreedyOrder(d, vs)
    ensures |vs| > 0 && d.ppb <= InvalidSum(d, vs)
  {
  }

  lemma Regroup(freed: multiset<nat>, keep: multiset<nat>, rest: multiset<nat>, refilled: multiset<nat>,
                victims: multiset<nat>, region: multiset<nat>)
    requires refilled + freed == victims && victims + rest == region
    ensures freed + keep + rest + refilled == region + keep
  {
    assert freed + keep + rest + refilled == (refilled + freed) + rest + keep;
  }

  lemma MultisetPart(a: multiset<nat>, b: multiset<nat>)
    ensures a <= a + b && b <= a + b
  {
  }

  /** What a collection of `region` does to the device and to every list. */
  ghost predicate Reaped(d: Ftl, r: Harvest, keep: seq<nat>)
  {
    && Good(r.d) && Conserved(r.d) && Mapped(r.d) == Mapped(d)
    && |r.d.blocks| == |d.blocks| && |r.d.ltp| == |d.ltp| && r.d.ppb == d.ppb
    && multiset(r.freed) + multiset(keep) + multiset(r.rest) + multiset(r.refilled) == multiset(Ids(|d.blocks|))
    && AllOpenIn(r.d, r.freed) && AllFullIn(r.d, keep) && AllFullIn(r.d, r.rest) && AllFullIn(r.d, r.refilled)
  }

  /** After a collection the lists still partition the block ids: the other region
      is untouched, picked blocks are freed or refilled. */
  lemma ReapShelves(d: Ftl, region: seq<nat>, keep: seq<nat>)
    requires Good(d) && Conserved(d) && AllFullIn(d, region) && AllFullIn(d, keep)
    requires multiset(region) + multiset(keep) == multiset(Ids(|d.blocks|))
    requires Reap(d, region).Some?
    ensures Reaped(d, Reap(d, region).value, keep)
  {
    hide Good, Conserved, Mapped, Select, CompactList, InvalidSum, Ids,
         FullOf, OpenOf, AllFullIn, AllOpenIn, Surplus, Migration.Free;
    MultisetPart(multiset(region), multiset(keep));
    DrawnInRange(d, region);
    SelectFull(d, region);
    SelectParts(d, region);
    var s := Select(d, region, []);
    var e := CompactList(d, s.victims).value;
    CompactListEffect(d, s.victims);
    SortedOut(e, s.victims);
    FullSorted(e, s.victims);
    var r := Reap(d, region).value;
    Regroup(multiset(r.freed), multiset(keep), multiset(r.rest), multiset(r.refilled), multiset(s.victims), multiset(region));
    Apart(keep, s.victims, |d.blocks|);
    Apart(s.rest, s.victims, |d.blocks|);
    AllFullSub(d, s.rest, region);
    FullStays(d, e, keep, s.victims);
    FullStays(d, e, s.rest, s.victims);
  }

  lemma AllFullSub(d: Ftl, xs: seq<nat>, ys: seq<nat>)
    requires AllFullIn(d, ys) && forall i :: 0 <= i < |xs| ==> xs[i] in ys
    ensures AllFullIn(d, xs)
  {
  }

  lemma FullSorted(e: Ftl, vs: seq<nat>)
    requires Good(e) && InRange(e, vs)
    ensures AllFullIn(e, FullOf(e, vs)) && AllOpenIn(e, OpenOf(e, vs))
  {
    forall i | 0 <= i < |FullOf(e, vs)|
      ensures e.blocks[FullOf(e, vs)[i]].FullyWritten()
    {
      BlockFacts(e, FullOf(e, vs)[i]);
    }
  }

  lemma FullStays(d: Ftl, e: Ftl, xs: seq<nat>, vs: seq<nat>)
    requires AllFullIn(d, xs) && |e.blocks| == |d.blocks|
    requires forall i :: 0 <= i < |xs| ==> xs[i] !in vs
    requires forall b :: 0 <= b < |d.blocks| && b !in vs ==> e.blocks[b] == d.blocks[b]
    ensures AllFullIn(e, xs)
  {
  }

  /** A full current block is filed under the normal region. */
  function Retire(t: TwoR): (r: TwoR)
  {
    t.(normal := t.normal + [t.current])
  }

  /** One collection; no block is current while it runs. */
  function Gc2R(t: TwoR): (r: Option<TwoR>)
    requires Shelved(t.d, [], [], t.normal, t.cold)
  {
    ShelvedParts(t.d, t.normal, t.cold);
    if CollectCold(t.d, t.normal, t.cold) then
      var h := Reap(t.d, t.cold);
      if h.None? then None
      else Some(TwoR(h.value.d, t.current, t.free + h.value.freed, t.normal, h.value.rest + h.value.refilled))
    else
      var h := Reap(t.d, t.normal);
      if h.None? then None
      else Some(TwoR(h.value.d, t.current, t.free + h.value.freed, h.value.rest, t.cold + h.value.refilled))
  }

  lemma ShelvedParts(d: Ftl, normal: seq<nat>, cold: seq<nat>)
    requires Shelved(d, [], [], normal, cold)
    ensures multiset(normal) + multiset(cold) == multiset(Ids(|d.blocks|))
    ensures multiset(normal) <= multiset(Ids(|d.blocks|)) && multiset(cold) <= multiset(Ids(|d.blocks|))
    ensures InRange(d, normal) && InRange(d, cold)
  {
    assert multiset([]) + multiset([]) + multiset(normal) + multiset(cold) == multiset(normal) + multiset(cold);
  }

  /** Collection fails exactly when neither region holds a block's worth of invalid
      pages; in particular the region choice never picks a poor one needlessly. */
  lemma Gc2RFails(t: TwoR)
    requires Shelved(t.d, [], [], t.normal, t.cold)
    ensures Gc2R(t).None? <==> InvalidSum(t.d, t.normal) < t.d.ppb && InvalidSum(t.d, t.cold) < t.d.ppb
  {
    ShelvedParts(t.d, t.normal, t.cold);
    ReapWorks(t.d, t.normal);
    ReapWorks(t.d, t.cold);
    hide Reap, Good, Conserved, InvalidSum;
  }

  lemma ReapedDevice(d: Ftl, h: Harvest, keep: seq<nat>)
    requires Reaped(d, h, keep)
    ensures Mapped(h.d) == Mapped(d) && |h.d.blocks| == |d.blocks| && |h.d.ltp| == |d.ltp| && h.d.ppb == d.ppb
  {
  }

  lemma RefileCold(d: Ftl, h: Harvest, normal: seq<nat>)
    requires Reaped(d, h, normal)
    ensures Shelved(h.d, [], h.freed, normal, h.rest + h.refilled)
  {
    Refile(h.d, h.rest, h.refilled);
    hide Good, Conserved, Ids, AllFullIn, AllOpenIn, Mapped;
    var f, n, r, c := multiset(h.freed), multiset(normal), multiset(h.rest), multiset(h.refilled);
    assert multiset([]) + f + n + (r + c) == f + n + r + c;
  }

  lemma RefileNormal(d: Ftl, h: Harvest, cold: seq<nat>)
    requires Reaped(d, h, cold)
    ensures Shelved(h.d, [], h.freed, h.rest, cold + h.refilled)
  {
    Refile(h.d, cold, h.refilled);
    hide Good, Conserved, Ids, AllFullIn, AllOpenIn, Mapped;
    var f, n, r, c := multiset(h.freed), multiset(cold), multiset(h.rest), multiset(h.refilled);
    assert multiset([]) + f + r + (n + c) == f + n + r + c;
  }

  /** A collection keeps the partition and delivers an erased block. */
  lemma Gc2RKeeps(t: TwoR)
    requires Shelved(t.d, [], [], t.normal, t.cold) && t.free == [] && Gc2R(t).Some?
    ensures var r := Gc2R(t).value;
      && Shelved(r.d, [], r.free, r.normal, r.cold) && Mapped(r.d) == Mapped(t.d)
      && |r.d.blocks| == |t.d.blocks| && |r.d.ltp| == |t.d.ltp| && r.d.ppb == t.d.ppb
      && |r.free| > 0 && r.free[0] < |r.d.blocks| && r.d.blocks[r.free[0]].IsErased()
  {
    hide Reap, Good, Conserved, InvalidSum, CollectCold, Mapped, Covers, AllFullIn, AllOpenIn, Ids, Reaped;
    ShelvedParts(t.d, t.normal, t.cold);
    if CollectCold(t.d, t.normal, t.cold) {
      ReapWorks(t.d, t.cold);
      ReapShelves(t.d, t.cold, t.normal);
      assert t.free + Reap(t.d, t.cold).value.freed == Reap(t.d, t.cold).value.freed;
      RefileCold(t.d, Reap(t.d, t.cold).value, t.normal);
      ReapedDevice(t.d, Reap(t.d, t.cold).value, t.normal);
    } else {
      ReapWorks(t.d, t.normal);
      ReapShelves(t.d, t.normal, t.cold);
      assert t.free + Reap(t.d, t.normal).value.freed == Reap(t.d, t.normal).value.freed;
      RefileNormal(t.d, Reap(t.d, t.normal).value, t.cold);
      ReapedDevice(t.d, Reap(t.d, t.normal).value, t.cold);
    }
  }

  lemma Refile(d: Ftl, xs: seq<nat>, ys: seq<nat>)
    requires AllFullIn(d, xs) && AllFullIn(d, ys)
    ensures AllFullIn(d, xs + ys) && multiset(xs + ys) == multiset(xs) + multiset(ys)
  {
  }

  lemma SelectRest(d: Ftl, region: seq<nat>)
    requires InRange(d, region)
    ensures var s := Select(d, region, []); s.rest == Without(region, Members(s.victims))
  {
    SelectRestFrom(d, region, []);
  }

  /** What is left of a region once the first `j` victims are out. */
  ghost function Left(region: seq<nat>, vs: seq<nat>, j: nat): (rest: seq<nat>)
    requires j <= |vs|
  {
    Without(region, Members(vs[..j]))
  }

  lemma LeftNext(region: seq<nat>, picked: seq<nat>, v: nat)
    ensures Remove(Without(region, Members(picked)), v) == Without(region, Members(picked + [v]))
  {
    RemoveIsWithout(Without(region, Members(picked)), v);
    WithoutTwice(region, Members(picked), {v});
    assert (picked + [v])[..|picked|] == picked;
    MembersLast(picked + [v]);
  }

  lemma {:induction false} SelectEachFrom(d: Ftl, region: seq<nat>, picked: seq<nat>, j: nat)
    requires InRange(d, region) && InRange(d, Without(region, Members(picked)))
    requires |picked| <= j < |Select(d, Without(region, Members(picked)), picked).victims|
    ensures var vs := Select(d, Without(region, Members(picked)), picked).victims;
      && InRange(d, Left(region, vs, j)) && |Left(region, vs, j)| > 0
      && vs[j] == MinValid(d, Left(region, vs, j))
    decreases |Without(region, Members(picked))|
  {
    hide InvalidSum, MinValid, Remove, Without, Members;
    var rest := Without(region, Members(picked));
    var v := MinValid(d, rest);
    RemoveInRange(d, rest, v);
    LeftNext(region, picked, v);
    SelectPrefix(d, Remove(rest, v), picked + [v]);
    var vs := Select(d, rest, picked).victims;
    if j == |picked| {
      assert vs[..j] == picked;
    } else {
      SelectEachFrom(d, region, picked + [v], j);
    }
  }

  /** Every victim is the first block of fewest valid pages among those of the region not
      picked before it. */
  lemma SelectEach(d: Ftl, region: seq<nat>, j: nat)
    requires InRange(d, region) && j < |Select(d, region, []).victims|
    ensures var vs := Select(d, region, []).victims;
      InRange(d, Left(region, vs, j)) && |Left(region, vs, j)| > 0 && vs[j] == MinValid(d, Left(region, vs, j))
  {
    WithoutNone(region, Members([]));
    hide Select, MinValid, Without;
    SelectEachFrom(d, region, [], j);
  }

  /** The region a collection takes its victims from, and the victims. */
  function Region(t: TwoR): (region: seq<nat>)
    requires Good(t.d) && InRange(t.d, t.normal) && InRange(t.d, t.cold)
  {
    if CollectCold(t.d, t.normal, t.cold) then t.cold else t.normal
  }

  lemma RegionParts(t: TwoR)
    requires Shelved(t.d, [], [], t.normal, t.cold)
    ensures InRange(t.d, t.normal) && InRange(t.d, t.cold) && InRange(t.d, Region(t)) && Good(t.d)
    ensures AllFullIn(t.d, Region(t)) && multiset(Region(t)) <= multiset(Ids(|t.d.blocks|))
    ensures FullVictims(t.d, Select(t.d, Region(t), []).victims)
  {
    ShelvedParts(t.d, t.normal, t.cold);
    ShelvedFull(t.d, t.normal, t.cold);
    hide Shelved, Select, Ids, CollectCold, Good;
    SelectFull(t.d, Region(t));
  }

  /** The lists after a collection, in order. The victims are compacted; those that can be
      written are free, in victim order; those that are full follow the blocks of the cold
      region, in victim order; all others stay where they were, in order. */
  lemma Gc2RLists(t: TwoR)
    requires Shelved(t.d, [], [], t.normal, t.cold) && t.free == [] && Gc2R(t).Some?
    ensures InRange(t.d, t.normal) && InRange(t.d, t.cold) && InRange(t.d, Region(t))
    ensures FullVictims(t.d, Select(t.d, Region(t), []).victims)
    ensures var r, vs := Gc2R(t).value, Select(t.d, Region(t), []).victims;
      && CompactList(t.d, vs) == Some(r.d) && InRange(r.d, vs)
      && r.free == OpenOf(r.d, vs)
      && r.normal == Without(t.normal, Members(vs))
      && r.cold == Without(t.cold, Members(vs)) + FullOf(r.d, vs)
  {
    hide Shelved, Good, Conserved, Mapped, Select, CompactList, InvalidSum, CollectCold, Ids, FullOf, OpenOf, Without,
         Members, AllFullIn;
    RegionParts(t);
    var vs := Select(t.d, Region(t), []).victims;
    SelectRest(t.d, Region(t));
    SelectParts(t.d, Region(t));
    OtherKept(t, vs);
    var e := CompactList(t.d, vs).value;
    assert [] + OpenOf(e, vs) == OpenOf(e, vs);
  }

  /** The region that is not collected loses no block. */
  lemma OtherKept(t: TwoR, vs: seq<nat>)
    requires Shelved(t.d, [], [], t.normal, t.cold) && InRange(t.d, t.normal) && InRange(t.d, t.cold)
    requires multiset(vs) <= multiset(Region(t))
    ensures var other := if CollectCold(t.d, t.normal, t.cold) then t.normal else t.cold;
            Without(other, Members(vs)) == other
  {
    ShelvedParts(t.d, t.normal, t.cold);
    hide Shelved, Good, Ids, CollectCold, Without;
    var other := if CollectCold(t.d, t.normal, t.cold) then t.normal else t.cold;
    assert multiset(other) + multiset(vs) <= multiset(other) + multiset(Region(t));
    Apart(other, vs, |t.d.blocks|);
    WithoutNone(other, Members(vs));
  }

  /** Where blocks are filed: a block still in the normal region was not touched; every
      block that was compacted and is full is cold; no block is lost. */
  lemma Gc2RFiling(t: TwoR, b: nat)
    requires Shelved(t.d, [], [], t.normal, t.cold) && t.free == [] && Gc2R(t).Some?
    ensures var r := Gc2R(t).value;
      && |r.d.blocks| == |t.d.blocks|
      && (b in r.normal ==> b in t.normal && b < |t.d.blocks| && r.d.blocks[b] == t.d.blocks[b])
      && (b < |t.d.blocks| && r.d.blocks[b] != t.d.blocks[b] && !r.d.blocks[b].CanWrite() ==> b in r.cold)
      && (b in t.normal ==> b in r.normal || b in r.free || b in r.cold)
      && (b in t.cold ==> b in r.cold || b in r.free)
  {
    hide Shelved, Good, Conserved, Mapped, Select, CompactList, InvalidSum, Ids, FullOf, OpenOf, Without, Surplus,
         Migration.Free, Region, Gc2R;
    RegionParts(t);
    Gc2RLists(t);
    var r, vs := Gc2R(t).value, Select(t.d, Region(t), []).victims;
    CompactListEffect(t.d, vs);
    SortedOut(r.d, vs);
    assert multiset(vs) + multiset([]) == multiset(vs);
    SortedMember(vs, [], FullOf(r.d, vs), OpenOf(r.d, vs), vs, b);
    if b in OpenOf(r.d, vs) {
      OpenWritable(r.d, vs, b);
    }
  }

  lemma OpenWritable(d: Ftl, vs: seq<nat>, b: nat)
    requires InRange(d, vs) && b in OpenOf(d, vs)
    ensures d.blocks[b].CanWrite()
  {
  }

  lemma SortedMember(victims: seq<nat>, rest: seq<nat>, full: seq<nat>, open: seq<nat>, region: seq<nat>, b: nat)
    requires multiset(victims) + multiset(rest) == multiset(region)
    requires multiset(full) + multiset(open) == multiset(victims)
    ensures b in region <==> b in rest || b in full || b in open
  {
    var v, r, f, o, g := multiset(victims), multiset(rest), multiset(full), multiset(open), multiset(region);
    assert g[b] == f[b] + o[b] + r[b];
    assert (b in region <==> g[b] > 0) && (b in rest <==> r[b] > 0);
    assert (b in full <==> f[b] > 0) && (b in open <==> o[b] > 0);
  }

  lemma ReapFirst(d: Ftl, region: seq<nat>)
    requires Good(d) && AllFullIn(d, region) && multiset(region) <= multiset(Ids(|d.blocks|))
    requires InRange(d, region) && d.ppb <= InvalidSum(d, region)
    ensures |region| > 0 && Reap(d, region).Some?
    ensures var h := Reap(d, region).value; |h.freed| > 0 && h.freed[0] == MinValid(d, region)
  {
    BlocksHavePages(d);
    InvalidSumEmpty(d);
    ReapWorks(d, region);
    SelectFull(d, region);
    hide Good, Conserved, Mapped, Select, CompactList, InvalidSum, MinValid, OpenOf, GreedyOrder, FullVictims;
    SelectFirst(d, region);
    var vs := Select(d, region, []).victims;
    PickingStart(d, region);
    SelectGreedy(d, region, []);
    GreedyOrderOutcome(d, vs);
    var e := CompactList(d, vs).value;
    BlockFacts(e, vs[0]);
    FirstOpen(e, vs);
  }

  lemma BlocksHavePages(d: Ftl)
    requires Good(d)
    ensures d.ppb > 0
  {
  }

  lemma InSomeRegion(d: Ftl, normal: seq<nat>, cold: seq<nat>, b: nat)
    requires Shelved(d, [], [], normal, cold) && b < |d.blocks|
    ensures b in normal || b in cold
  {
    ShelvedParts(d, normal, cold);
    IdsOnce(|d.blocks|, b);
    assert (multiset(normal) + multiset(cold))[b] == 1;
    assert b in multiset(normal) || b in multiset(cold);
  }

  /** When both regions hold a block's worth of invalid pages, the block freed first
      is one of fewest valid pages on the whole device. */
  lemma CollectsEmptiest(t: TwoR, b: nat)
    requires Shelved(t.d, [], [], t.normal, t.cold) && t.free == [] && b < |t.d.blocks|
    requires t.d.ppb <= InvalidSum(t.d, t.normal) && t.d.ppb <= InvalidSum(t.d, t.cold)
    ensures Gc2R(t).Some? && |Gc2R(t).value.free| > 0
    ensures var v := Gc2R(t).value.free[0];
            v < |t.d.blocks| && t.d.blocks[v].validCnt <= t.d.blocks[b].validCnt
  {
    hide Shelved, Reap, Good, InvalidSum, MinValid, Ids, CollectCold, Conserved, Mapped, Gc2R, AllFullIn;
    ShelvedParts(t.d, t.normal, t.cold);
    InSomeRegion(t.d, t.normal, t.cold, b);
    ShelvedFull(t.d, t.normal, t.cold);
    ReapFirst(t.d, t.normal);
    ReapFirst(t.d, t.cold);
    MinBelow(t.d, t.normal);
    MinBelow(t.d, t.cold);
    BetterRegion(t.d, t.normal, t.cold, MinValid(t.d, t.normal), MinValid(t.d, t.cold));
    Gc2RFreed(t);
  }

  lemma ShelvedFull(d: Ftl, normal: seq<nat>, cold: seq<nat>)
    requires Shelved(d, [], [], normal, cold)
    ensures AllFullIn(d, normal) && AllFullIn(d, cold) && Good(d)
  {
  }

  /** The collected region's harvest is what collection frees. */
  lemma Gc2RFreed(t: TwoR)
    requires Shelved(t.d, [], [], t.normal, t.cold) && t.free == []
    ensures InRange(t.d, t.normal) && InRange(t.d, t.cold)
    ensures var region := if CollectCold(t.d, t.normal, t.cold) then t.cold else t.normal;
      && AllFullIn(t.d, region) && multiset(region) <= multiset(Ids(|t.d.blocks|))
      && (Reap(t.d, region).Some? ==> Gc2R(t).Some? && Gc2R(t).value.free == Reap(t.d, region).value.freed)
  {
    hide Shelved, Reap, Good, Conserved, InvalidSum, CollectCold, Ids, AllFullIn;
    ShelvedParts(t.d, t.normal, t.cold);
    ShelvedFull(t.d, t.normal, t.cold);
    var h := Reap(t.d, if CollectCold(t.d, t.normal, t.cold) then t.cold else t.normal);
    if h.Some? {
      assert t.free + h.value.freed == h.value.freed;
    }
  }

  lemma MinBelow(d: Ftl, xs: seq<nat>)
    requires |xs| > 0 && InRange(d, xs)
    ensures var v := MinValid(d, xs);
      v in xs && v < |d.blocks| && forall x :: x in xs ==> x < |d.blocks| && d.blocks[v].validCnt <= d.blocks[x].validCnt
  {
    hide MinValid;
    forall x | x in xs
      ensures x < |d.blocks| && d.blocks[MinValid(d, xs)].validCnt <= d.blocks[x].validCnt
    {
      var i :| 0 <= i < |xs| && xs[i] == x;
    }
  }

  /** Spare capacity of two blocks less one page makes collection succeed. */
  lemma SpareGivesRegion(t: TwoR)
    requires Shelved(t.d, [], [], t.normal, t.cold)
    requires |t.d.ltp| + 2 * t.d.ppb - 1 <= t.d.Capacity()
    ensures Gc2R(t).Some?
  {
    Gc2RFails(t);
    ShelvedParts(t.d, t.normal, t.cold);
    Counting.ValidAtMostLogical(t.d);
    hide Shelved, Gc2R, Good, InvalidSum, Mapped, Ftl.Valid, Ftl.Capacity;
    assert multiset(t.normal + t.cold) == multiset(Ids(|t.d.blocks|));
    InvalidSumAll(t.d, t.normal + t.cold);
    InvalidSumConcat(t.d, t.normal, t.cold);
  }

  /* ---------- host writes and runs ---------- */

  function Start2R(ppb: nat, blockCount: nat, logicalPages: nat): (t: TwoR)
    requires ppb > 0 && blockCount > 0
    ensures Ready2R(t) && Mapped(t.d) == {} && t.d.phys == 0 && t.d.Erases() == 0
    ensures |t.d.blocks| == blockCount && |t.d.ltp| == logicalPages && t.d.ppb == ppb
  {
    var t := TwoR(Fresh(ppb, blockCount, logicalPages), 0, Ids(blockCount)[1..], [], []);
    FreshGood(ppb, blockCount, logicalPages);
    assert Ids(blockCount) == [0] + Ids(blockCount)[1..];
    assert multiset([0]) + multiset(Ids(blockCount)[1..]) + multiset([]) + multiset([]) == multiset(Ids(blockCount));
    t
  }

  predicate CurrentFull2R(t: TwoR)
    requires t.current < |t.d.blocks|
  {
    !t.d.blocks[t.current].CanWrite()
  }

  predicate NeedsGc2R(t: TwoR)
    requires t.current < |t.d.blocks|
  {
    CurrentFull2R(t) && |t.free| == 0
  }

  lemma RetireShelves(t: TwoR)
    requires Ready2R(t) && CurrentFull2R(t)
    ensures Shelved(t.d, [], t.free, Retire(t).normal, t.cold)
  {
    BlockFacts(t.d, t.current);
    hide Good, Conserved, Ids;
    assert multiset(t.normal + [t.current]) == multiset(t.normal) + multiset([t.current]);
    var f, n, c, h := multiset(t.free), multiset(t.normal), multiset(t.cold), multiset([t.current]);
    assert multiset([]) + f + (n + h) + c == h + f + n + c;
  }

  function NextFree(t: TwoR): (r: TwoR)
    requires |t.free| > 0
  {
    t.(current := t.free[0], free := t.free[1..])
  }

  lemma NextFreeReady(t: TwoR)
    requires Shelved(t.d, [], t.free, t.normal, t.cold) && |t.free| > 0
    ensures Ready2R(NextFree(t)) && !CurrentFull2R(NextFree(t))
  {
    hide Good, Conserved, Ids;
    assert t.free == [t.free[0]] + t.free[1..];
    var h, f, n, c := multiset([t.free[0]]), multiset(t.free[1..]), multiset(t.normal), multiset(t.cold);
    assert multiset(t.free) == h + f;
    assert multiset([]) + (h + f) + n + c == h + f + n + c;
  }

  /** The state the write goes to; None if collection fails. */
  function Provided2R(t: TwoR): (r: Option<TwoR>)
    requires Ready2R(t)
    ensures r.Some? ==> Ready2R(r.value) && !CurrentFull2R(r.value) && Mapped(r.value.d) == Mapped(t.d)
    ensures r.Some? ==> |r.value.d.blocks| == |t.d.blocks| && |r.value.d.ltp| == |t.d.ltp| && r.value.d.ppb == t.d.ppb
    ensures r.None? ==> NeedsGc2R(t)
  {
    hide Shelved, Mapped, Gc2R;
    if !CurrentFull2R(t) then Some(t)
    else
      RetireShelves(t);
      if |t.free| > 0 then
        NextFreeReady(Retire(t));
        Some(NextFree(Retire(t)))
      else
        var c := Gc2R(Retire(t));
        if c.None? then None
        else
          Gc2RKeeps(Retire(t));
          NextFreeReady(c.value);
          Some(NextFree(c.value))
  }

  lemma Ready2RParts(t: TwoR)
    requires Ready2R(t)
    ensures Good(t.d) && Conserved(t.d) && t.current < |t.d.blocks|
  {
  }

  /** One host write under 2R-greedy. */
  function HostWrite2R(t: TwoR, l: nat): (r: Option<TwoR>)
    requires Ready2R(t) && l < |t.d.ltp|
    ensures r.Some? ==> Ready2R(r.value) && Mapped(r.value.d) == Mapped(t.d) + {l}
    ensures r.Some? ==> |r.value.d.blocks| == |t.d.blocks| && |r.value.d.ltp| == |t.d.ltp| && r.value.d.ppb == t.d.ppb
  {
    hide Ready2R, Provided2R, CurrentFull2R, Mapped, Good, Conserved, WritePage;
    var p := Provided2R(t);
    if p.None? then None
    else
      Ready2RParts(p.value);
      PutReady2R(p.value, l);
      WritePageEffect(p.value.d, l, p.value.current);
      Some(Put2R(p.value, l))
  }

  function Put2R(t: TwoR, l: nat): (r: TwoR)
    requires Good(t.d) && t.current < |t.d.blocks| && l < |t.d.ltp| && !CurrentFull2R(t)
  {
    t.(d := WritePage(t.d, l, t.current))
  }

  lemma PutReady2R(t: TwoR, l: nat)
    requires Ready2R(t) && l < |t.d.ltp| && !CurrentFull2R(t)
    ensures Ready2R(Put2R(t, l))
  {
    hide Conserved, Ids, WritePage, Mapped, Consistent;
    WritePageEffect(t.d, l, t.current);
    var r := Put2R(t, l);
    HeldApart(t);
    StaysShelved(t.d, r.d, t.current, t.free, t.normal, t.cold);
  }

  lemma HeldApart(t: TwoR)
    requires Ready2R(t)
    ensures t.current !in t.free && t.current !in t.normal && t.current !in t.cold
  {
    var h, f, n, c := multiset([t.current]), multiset(t.free), multiset(t.normal), multiset(t.cold);
    assert h + f <= multiset(Ids(|t.d.blocks|)) && h + n <= multiset(Ids(|t.d.blocks|)) && h + c <= multiset(Ids(|t.d.blocks|));
    hide Shelved, Ids;
    Apart([t.current], t.free, |t.d.blocks|);
    Apart([t.current], t.normal, |t.d.blocks|);
    Apart([t.current], t.cold, |t.d.blocks|);
    assert [t.current][0] == t.current;
  }

  /** Lists keep their status when only the held block's write position moves. */
  lemma StaysShelved(d: Ftl, r: Ftl, held: nat, free: seq<nat>, normal: seq<nat>, cold: seq<nat>)
    requires Good(d) && Good(r) && |r.blocks| == |d.blocks| && r.ppb == d.ppb
    requires held !in free && held !in normal && held !in cold
    requires forall b :: 0 <= b < |d.blocks| && b != held ==> r.blocks[b].writePos == d.blocks[b].writePos
    requires AllOpenIn(d, free) && AllFullIn(d, normal) && AllFullIn(d, cold)
    ensures AllOpenIn(r, free) && AllFullIn(r, normal) && AllFullIn(r, cold)
  {
    forall b | 0 <= b < |d.blocks|
      ensures |d.blocks[b].ptl| == |r.blocks[b].ptl|
    {
      BlockFacts(d, b);
      BlockFacts(r, b);
    }
    hide Good;
  }

  /** A host write fails exactly when collection is needed and neither region, the
      retired block included, holds a block's worth of invalid pages. */
  lemma HostWrite2RFails(t: TwoR, l: nat)
    requires Ready2R(t) && l < |t.d.ltp|
    ensures HostWrite2R(t, l).None? <==>
      && NeedsGc2R(t)
      && InvalidSum(t.d, t.normal + [t.current]) < t.d.ppb
      && InvalidSum(t.d, t.cold) < t.d.ppb
  {
    if NeedsGc2R(t) {
      RetireShelves(t);
      Gc2RFails(Retire(t));
    }
    hide Shelved, Gc2R, InvalidSum, WritePage;
  }

  /** With spare capacity of two blocks less one page no host write fails. */
  lemma HostWrite2RWorks(t: TwoR, l: nat)
    requires Ready2R(t) && l < |t.d.ltp| && |t.d.ltp| + 2 * t.d.ppb - 1 <= t.d.Capacity()
    ensures HostWrite2R(t, l).Some?
  {
    if NeedsGc2R(t) {
      RetireShelves(t);
      SpareGivesRegion(Retire(t));
    }
    hide Shelved, Gc2R, WritePage, Mapped;
  }

  lemma SortedLast(d: Ftl, vs: seq<nat>, v: nat)
    requires InRange(d, vs) && v < |d.blocks|
    ensures InRange(d, vs + [v])
    ensures FullOf(d, vs + [v]) == FullOf(d, vs) + if d.blocks[v].CanWrite() then [] else [v]
    ensures OpenOf(d, vs + [v]) == OpenOf(d, vs) + if d.blocks[v].CanWrite() then [v] else []
  {
    assert (vs + [v])[..|vs|] == vs;
  }

  /** Sorting keeps the order of the victims. */
  lemma {:induction false} SortedConcat(d: Ftl, xs: seq<nat>, ys: seq<nat>)
    requires InRange(d, xs) && InRange(d, ys)
    ensures InRange(d, xs + ys)
    ensures FullOf(d, xs + ys) == FullOf(d, xs) + FullOf(d, ys)
    ensures OpenOf(d, xs + ys) == OpenOf(d, xs) + OpenOf(d, ys)
  {
    hide FullOf, OpenOf;
    if |ys| == 0 {
      assert xs + ys == xs;
      SortedNone(d);
    } else {
      var n, v := |ys| - 1, ys[|ys| - 1];
      ConcatLast(xs, ys);
      SortedConcat(d, xs, ys[..n]);
      SortedLast(d, xs + ys[..n], v);
      SortedLast(d, ys[..n], v);
      ConcatAssoc(FullOf(d, xs), FullOf(d, ys[..n]), if d.blocks[v].CanWrite() then [] else [v]);
      ConcatAssoc(OpenOf(d, xs), OpenOf(d, ys[..n]), if d.blocks[v].CanWrite() then [v] else []);
    }
  }

  lemma SortedNone(d: Ftl)
    ensures FullOf(d, []) == [] && OpenOf(d, []) == []
  {
  }

  /** Which blocks a host write uses, and where the full current block goes. The page goes
      to the last written slot of the current block. A current block with room is kept; a
      full one joins the end of the normal region, before any collection, and the front of
      the free list takes its place. */
  lemma HostWrite2RBlocks(t: TwoR, l: nat)
    requires Ready2R(t) && l < |t.d.ltp| && HostWrite2R(t, l).Some?
    ensures var r, n := HostWrite2R(t, l).value, t.normal + [t.current];
      && PageWritten(r.d, l, r.current)
      && (!CurrentFull2R(t) ==> r == t.(d := r.d) && OnlyMoves(t.d, r.d, l))
      && (CurrentFull2R(t) && |t.free| > 0 ==>
            r == t.(d := r.d, current := t.free[0], free := t.free[1..], normal := n) && OnlyMoves(t.d, r.d, l))
      && (NeedsGc2R(t) ==>
            && Shelved(t.d, [], [], n, t.cold) && Gc2R(t.(normal := n)).Some?
            && var c := Gc2R(t.(normal := n)).value;
               && |c.free| > 0 && r.d.phys == c.d.phys + 1
               && r == c.(d := r.d, current := c.free[0], free := c.free[1..]))
  {
    hide Shelved, Good, Conserved, Mapped, WritePage, Gc2R, Ftl.Erases, Ftl.Written;
    var p := Provided2R(t).value;
    Ready2RParts(p);
    WritePageEffect(p.d, l, p.current);
    WritePagePlaces(p.d, l, p.current);
    if NeedsGc2R(t) {
      RetireShelves(t);
      Gc2RKeeps(Retire(t));
    }
  }
}
