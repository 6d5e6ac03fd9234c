/** The spare capacity 2R-greedy asks for cannot be lowered: on two blocks of two pages
    with two logical pages, one page short of it, a run of host writes leads to one that
    fails. */
module TwoRSpare {
  import opened Options
  import opened Flash
  import opened BlockLists
  import opened TwoRPolicy
  import opened Chain
  import Lists
  import Migration

  /** A block of two slots. */
  function B(s0: Slot, s1: Slot, writePos: nat, validCnt: nat, eraseCount: nat): (b: Blk)
  {
    Blk([s0, s1], writePos, validCnt, eraseCount)
  }

  /** A device of two such blocks with two logical pages. */
  function D(a: Blk, b: Blk, l0: Option<Loc>, l1: Option<Loc>, phys: nat): (d: Ftl)
  {
    Ftl(2, [a, b], [l0, l1], phys)
  }

  function At(b: nat, p: nat): (l: Option<Loc>)
  {
    Some(Loc(b, p))
  }

  /* ---------- the states of the run ---------- */

  function D0(): (d: Ftl) { D(B(None, None, 0, 0, 0), B(None, None, 0, 0, 0), None, None, 0) }
  function D1(): (d: Ftl) { D(B(Some(0), None, 1, 1, 0), B(None, None, 0, 0, 0), At(0, 0), None, 1) }
  function D2(): (d: Ftl) { D(B(Some(0), Some(1), 2, 2, 0), B(None, None, 0, 0, 0), At(0, 0), At(0, 1), 2) }
  function D3(): (d: Ftl) { D(B(None, Some(1), 2, 1, 0), B(Some(0), None, 1, 1, 0), At(1, 0), At(0, 1), 3) }
  function D4(): (d: Ftl) { D(B(None, Some(1), 2, 1, 0), B(None, Some(0), 2, 1, 0), At(1, 1), At(0, 1), 4) }
  /** Block 1 compacted. */
  function D5(): (d: Ftl) { D(B(None, Some(1), 2, 1, 0), B(Some(0), None, 1, 1, 1), At(1, 0), At(0, 1), 5) }
  /** Page 1 moved behind it. */
  function D6(): (d: Ftl) { D(B(None, None, 2, 0, 0), B(Some(0), Some(1), 2, 2, 1), At(1, 0), At(1, 1), 6) }
  /** Block 0 erased. */
  function D7(): (d: Ftl) { D(B(None, None, 0, 0, 1), B(Some(0), Some(1), 2, 2, 1), At(1, 0), At(1, 1), 6) }
  function D8(): (d: Ftl) { D(B(Some(0), None, 1, 1, 1), B(None, Some(1), 2, 1, 1), At(0, 0), At(1, 1), 7) }
  function D9(): (d: Ftl) { D(B(None, Some(0), 2, 1, 1), B(None, Some(1), 2, 1, 1), At(0, 1), At(1, 1), 8) }

  lemma Slots2(s: seq<Slot>, t: seq<Slot>)
    requires |s| == 2 && |t| == 2 && s[0] == t[0] && s[1] == t[1]
    ensures s == t
  {
  }

  lemma SameBlock(b: Blk, c: Blk)
    requires |b.ptl| == 2 && |c.ptl| == 2 && b.ptl[0] == c.ptl[0] && b.ptl[1] == c.ptl[1]
    requires b.writePos == c.writePos && b.validCnt == c.validCnt && b.eraseCount == c.eraseCount
    ensures b == c
  {
    Slots2(b.ptl, c.ptl);
  }

  lemma SameDevice(d: Ftl, e: Ftl)
    requires d.ppb == e.ppb && d.phys == e.phys && |d.blocks| == 2 && |e.blocks| == 2 && |d.ltp| == 2 && |e.ltp| == 2
    requires d.ltp[0] == e.ltp[0] && d.ltp[1] == e.ltp[1]
    requires d.blocks[0] == e.blocks[0] && d.blocks[1] == e.blocks[1]
    ensures d == e
  {
    assert d.blocks == e.blocks && d.ltp == e.ltp;
  }

  lemma StartIs()
    ensures Start2R(2, 2, 2) == TwoR(D0(), 0, [1], [], [])
  {
    hide Good, Conserved, Ready2R, Mapped, Ftl.Erases;
    var t := Start2R(2, 2, 2);
    Slots2(Pack([], 2), [None, None]);
    assert Fresh(2, 2, 2).blocks == D0().blocks;
    assert Fresh(2, 2, 2).ltp == D0().ltp;
    assert Lists.Ids(2)[1..] == [1];
  }

  /** Writing a page that is not mapped. */
  lemma NewPage(d: Ftl, l: nat, b: nat)
    requires Good(d) && l < |d.ltp| && b < |d.blocks| && d.blocks[b].CanWrite() && d.ltp[l].None?
    ensures WritePage(d, l, b) ==
      Ftl(d.ppb, d.blocks[b := BlkWrite(d.blocks[b], l)], d.ltp[l := At(b, d.blocks[b].writePos)], d.phys + 1)
  {
  }

  /** Writing a page again. */
  lemma SamePage(d: Ftl, l: nat, b: nat)
    requires Good(d) && l < |d.ltp| && b < |d.blocks| && d.blocks[b].CanWrite() && d.ltp[l].Some?
    requires d.ltp[l].value.blk < |d.blocks| && d.ltp[l].value.pos < |d.blocks[d.ltp[l].value.blk].ptl|
    requires d.blocks[d.ltp[l].value.blk].ptl[d.ltp[l].value.pos].Some? && d.blocks[d.ltp[l].value.blk].validCnt > 0
    ensures var c := d.blocks[d.ltp[l].value.blk := BlkSetUnused(d.blocks[d.ltp[l].value.blk], d.ltp[l].value.pos)];
      c[b].CanWrite() &&
      WritePage(d, l, b) == Ftl(d.ppb, c[b := BlkWrite(c[b], l)], d.ltp[l := At(b, c[b].writePos)], d.phys + 1)
  {
  }

  lemma Writes1()
    requires Good(D0())
    ensures WritePage(D0(), 0, 0) == D1()
  {
    hide Good, WritePage;
    NewPage(D0(), 0, 0);
    var r := WritePage(D0(), 0, 0);
    SameBlock(r.blocks[0], D1().blocks[0]);
    SameBlock(r.blocks[1], D1().blocks[1]);
    SameDevice(r, D1());
  }

  lemma Writes2()
    requires Good(D1())
    ensures WritePage(D1(), 1, 0) == D2()
  {
    hide Good, WritePage;
    NewPage(D1(), 1, 0);
    var r := WritePage(D1(), 1, 0);
    SameBlock(r.blocks[0], D2().blocks[0]);
    SameBlock(r.blocks[1], D2().blocks[1]);
    SameDevice(r, D2());
  }

  lemma Writes3()
    requires Good(D2())
    ensures WritePage(D2(), 0, 1) == D3()
  {
    hide Good, WritePage;
    SamePage(D2(), 0, 1);
    var r := WritePage(D2(), 0, 1);
    SameBlock(r.blocks[0], D3().blocks[0]);
    SameBlock(r.blocks[1], D3().blocks[1]);
    SameDevice(r, D3());
  }

  lemma Writes4()
    requires Good(D3())
    ensures WritePage(D3(), 0, 1) == D4()
  {
    hide Good, WritePage;
    SamePage(D3(), 0, 1);
    var r := WritePage(D3(), 0, 1);
    SameBlock(r.blocks[0], D4().blocks[0]);
    SameBlock(r.blocks[1], D4().blocks[1]);
    SameDevice(r, D4());
  }

  lemma UsedTwo(s: seq<Slot>)
    requires |s| == 2
    ensures Used(s) == (if s[0].Some? then [s[0].value] else []) + (if s[1].Some? then [s[1].value] else [])
    ensures Rank(s, 0) == 0 && Rank(s, 1) == if s[0].Some? then 1 else 0
  {
    assert s[..1][..0] == [];
  }

  lemma Compacts()
    requires Good(D4())
    ensures CompactBlock(D4(), 1) == D5()
  {
    hide Good;
    UsedTwo(D4().blocks[1].ptl);
    Slots2(Pack([0], 2), [Some(0), None]);
    var r := CompactBlock(D4(), 1);
    SameBlock(r.blocks[0], D5().blocks[0]);
    SameBlock(r.blocks[1], D5().blocks[1]);
    SameDevice(r, D5());
  }

  lemma Moves()
    requires Good(D5())
    ensures Migration.MoveValidPages(D5(), 0, 1) == D6()
  {
    hide Good, Mapped, Conserved, Ftl.Erases, WritePage;
    assert Migration.MoveStep(D5(), 0, 1, 0) == D5();
    SamePage(D5(), 1, 1);
    var r := WritePage(D5(), 1, 1);
    SameBlock(r.blocks[0], D6().blocks[0]);
    SameBlock(r.blocks[1], D6().blocks[1]);
    SameDevice(r, D6());
    assert Migration.MoveStep(D5(), 0, 1, 1) == D6();
    assert Migration.MoveFrom(D6(), 0, 1, 2) == D6();
    assert Migration.MoveFrom(D5(), 0, 1, 1) == D6();
  }

  lemma Erases7()
    ensures EraseBlock(D6(), 0) == D7()
  {
    var r := EraseBlock(D6(), 0);
    SameBlock(r.blocks[0], D7().blocks[0]);
    SameDevice(r, D7());
  }

  lemma Writes8()
    requires Good(D7())
    ensures WritePage(D7(), 0, 0) == D8()
  {
    hide Good, WritePage;
    SamePage(D7(), 0, 0);
    var r := WritePage(D7(), 0, 0);
    SameBlock(r.blocks[0], D8().blocks[0]);
    SameBlock(r.blocks[1], D8().blocks[1]);
    SameDevice(r, D8());
  }

  lemma Writes9()
    requires Good(D8())
    ensures WritePage(D8(), 0, 0) == D9()
  {
    hide Good, WritePage;
    SamePage(D8(), 0, 0);
    var r := WritePage(D8(), 0, 0);
    SameBlock(r.blocks[0], D9().blocks[0]);
    SameBlock(r.blocks[1], D9().blocks[1]);
    SameDevice(r, D9());
  }

  /* ---------- the collection ---------- */

  lemma Regions4()
    requires Good(D4())
    ensures InvalidSum(D4(), []) == 0 && InvalidSum(D4(), [0]) == 1 && InvalidSum(D4(), [0, 1]) == 2
    ensures MinValid(D4(), [0, 1]) == 0 && Remove([0, 1], 0) == [1]
    ensures MinValid(D4(), [1]) == 1 && Remove([1], 1) == []
  {
    InvalidSumEmpty(D4());
    InvalidSumLast(D4(), [], 0);
    assert [] + [0] == [0];
    InvalidSumLast(D4(), [0], 1);
    assert [0] + [1] == [0, 1];
    assert [0, 1][..1] == [0] && [0][..0] == [] && [1][..0] == [];
    assert Remove([0, 1][..1], 0) == [];
  }

  lemma SelectStep(d: Ftl, region: seq<nat>, picked: seq<nat>, rest: seq<nat>, next: seq<nat>)
    requires InRange(d, region) && |region| > 0 && InvalidSum(d, picked) < d.ppb
    requires rest == Remove(region, MinValid(d, region)) && next == picked + [MinValid(d, region)]
    ensures InRange(d, rest) && Select(d, region, picked) == Select(d, rest, next)
  {
    hide InvalidSum, MinValid, Remove;
    RemoveInRange(d, region, MinValid(d, region));
  }

  lemma SelectDone(d: Ftl, picked: seq<nat>)
    ensures Select(d, [], picked) == Selection(picked, [])
  {
  }

  /** Two picks exhaust the region. */
  lemma SelectBoth(d: Ftl, region: seq<nat>, rest: seq<nat>, first: seq<nat>, both: seq<nat>)
    requires InRange(d, region) && |region| > 0 && InvalidSum(d, []) < d.ppb
    requires rest == Remove(region, MinValid(d, region)) && first == [] + [MinValid(d, region)]
    requires InRange(d, rest) && |rest| > 0 && InvalidSum(d, first) < d.ppb
    requires [] == Remove(rest, MinValid(d, rest)) && both == first + [MinValid(d, rest)]
    ensures Select(d, region, []) == Selection(both, [])
  {
    hide InvalidSum, MinValid, Remove, Select, InRange;
    SelectStep(d, region, [], rest, first);
    SelectStep(d, rest, first, [], both);
    SelectDone(d, both);
  }

  lemma Selects()
    requires Good(D4()) && InRange(D4(), [0, 1])
    ensures Select(D4(), [0, 1], []) == Selection([0, 1], [])
  {
    hide Good, InvalidSum, MinValid, Remove, Select, D4;
    FourBlocks();
    Regions4();
    SelectBoth(D4(), [0, 1], [1], [0], [0, 1]);
  }

  lemma Frees()
    requires Good(D4()) && FullVictims(D4(), [0, 1])
    ensures CompactList(D4(), [0, 1]) == Some(D7())
  {
    hide Good, CompactBlock, Migration.MoveValidPages, EraseBlock, Mapped, Conserved, Link, Links;
    LinkIs(D4(), 0, 1);
    Compacts();
    Moves();
    Erases7();
    LinksStep(D4(), [0, 1]);
    assert [0, 1][..1] == [0];
    LinksOne(Link(D4(), 0, 1), [0]);
  }

  lemma Sorted()
    ensures InRange(D7(), [0, 1]) && OpenOf(D7(), [0, 1]) == [0] && FullOf(D7(), [0, 1]) == [1]
  {
    assert [0, 1][..1] == [0] && [0][..0] == [];
  }

  lemma Reaps()
    requires Good(D4()) && AllFullIn(D4(), [0, 1]) && multiset([0, 1]) <= multiset(Lists.Ids(2))
    ensures Reap(D4(), [0, 1]) == Some(Harvest(D7(), [0], [], [1]))
  {
    hide Good, Select, CompactList, InvalidSum, OpenOf, FullOf, Lists.Ids, FullVictims, AllFullIn, D4, D7;
    FourBlocks();
    Regions4();
    ListInRange(D4(), [0, 1]);
    Selects();
    SelectFull(D4(), [0, 1]);
    Frees();
    Sorted();
  }

  lemma FourBlocks()
    ensures |D4().blocks| == 2 && D4().ppb == 2
  {
  }

  lemma ListInRange(d: Ftl, xs: seq<nat>)
    requires AllFullIn(d, xs)
    ensures InRange(d, xs)
  {
  }

  lemma Collects(t: TwoR)
    requires t == TwoR(D4(), 1, [], [0, 1], []) && Shelved(t.d, [], [], t.normal, t.cold)
    ensures Gc2R(t) == Some(TwoR(D7(), 1, [0], [], [1]))
  {
    hide Good, Conserved, Shelved, Reap, InvalidSum, Mapped, Lists.Ids, AllFullIn, D4, D7;
    FourBlocks();
    ShelvedFull(t.d, t.normal, t.cold);
    ShelvedParts(t.d, t.normal, t.cold);
    Regions4();
    Reaps();
    assert [] + [0] == [0] && [] + [1] == [1];
  }

  /* ---------- the run ---------- */

  /** A host write that needs no collection. */
  lemma Plain(t: TwoR, l: nat)
    requires Ready2R(t) && l < |t.d.ltp| && !CurrentFull2R(t)
    ensures Good(t.d) && t.current < |t.d.blocks| && t.d.blocks[t.current].CanWrite()
    ensures HostWrite2R(t, l) == Some(t.(d := WritePage(t.d, l, t.current)))
  {
    hide Shelved, WritePage, Mapped, Gc2R;
    Ready2RParts(t);
  }

  lemma Taken(t: TwoR, l: nat)
    requires Ready2R(t) && l < |t.d.ltp| && CurrentFull2R(t) && |t.free| > 0
    ensures var n := NextFree(Retire(t));
      Ready2R(n) && !CurrentFull2R(n) && HostWrite2R(t, l) == HostWrite2R(n, l)
  {
    hide Shelved, WritePage, Mapped, Gc2R;
    RetireShelves(t);
    NextFreeReady(Retire(t));
  }

  lemma Gathered(t: TwoR, l: nat, c: TwoR)
    requires Ready2R(t) && l < |t.d.ltp| && NeedsGc2R(t)
    requires Shelved(t.d, [], [], Retire(t).normal, t.cold) && Gc2R(Retire(t)) == Some(c)
    ensures |c.free| > 0 && |c.d.ltp| == |t.d.ltp|
    ensures Ready2R(NextFree(c)) && !CurrentFull2R(NextFree(c))
    ensures HostWrite2R(t, l) == HostWrite2R(NextFree(c), l)
  {
    hide Shelved, WritePage, Mapped, Gc2R;
    RetireShelves(t);
    Gc2RKeeps(Retire(t));
    NextFreeReady(c);
  }

  /** The run's collector states. */
  function T0(): (t: TwoR) { TwoR(D0(), 0, [1], [], []) }
  function T1(): (t: TwoR) { TwoR(D1(), 0, [1], [], []) }
  function T2(): (t: TwoR) { TwoR(D2(), 0, [1], [], []) }
  function T3(): (t: TwoR) { TwoR(D3(), 1, [], [0], []) }
  function T4(): (t: TwoR) { TwoR(D4(), 1, [], [0], []) }
  function T8(): (t: TwoR) { TwoR(D8(), 0, [], [], [1]) }
  function T9(): (t: TwoR) { TwoR(D9(), 0, [], [], [1]) }

  lemma Step1()
    requires Ready2R(T0())
    ensures HostWrite2R(T0(), 0) == Some(T1())
  {
    hide Ready2R, Good, HostWrite2R, WritePage;
    Plain(T0(), 0);
    Writes1();
  }

  lemma Step2()
    requires Ready2R(T1())
    ensures HostWrite2R(T1(), 1) == Some(T2())
  {
    hide Ready2R, Good, HostWrite2R, WritePage;
    Plain(T1(), 1);
    Writes2();
  }

  lemma Step3()
    requires Ready2R(T2())
    ensures HostWrite2R(T2(), 0) == Some(T3())
  {
    hide Ready2R, Good, HostWrite2R, WritePage;
    Taken(T2(), 0);
    var n := NextFree(Retire(T2()));
    assert n == TwoR(D2(), 1, [], [0], []);
    Plain(n, 0);
    Writes3();
  }

  lemma Step4()
    requires Ready2R(T3())
    ensures HostWrite2R(T3(), 0) == Some(T4())
  {
    hide Ready2R, Good, HostWrite2R, WritePage;
    Plain(T3(), 0);
    Writes4();
  }

  lemma Step5()
    requires Ready2R(T4())
    ensures HostWrite2R(T4(), 0) == Some(T8())
  {
    hide Ready2R, Good, HostWrite2R, WritePage, Shelved, Gc2R;
    RetireShelves(T4());
    assert Retire(T4()) == TwoR(D4(), 1, [], [0, 1], []);
    Collects(Retire(T4()));
    var c := TwoR(D7(), 1, [0], [], [1]);
    Gathered(T4(), 0, c);
    var n := NextFree(c);
    assert n == TwoR(D7(), 0, [], [], [1]);
    Plain(n, 0);
    Writes8();
  }

  lemma Step6()
    requires Ready2R(T8())
    ensures HostWrite2R(T8(), 0) == Some(T9())
  {
    hide Ready2R, Good, HostWrite2R, WritePage;
    Plain(T8(), 0);
    Writes9();
  }

  /** Now each region holds one invalid page, and none can be collected. */
  lemma Step7()
    requires Ready2R(T9())
    ensures HostWrite2R(T9(), 0) == None
  {
    hide Ready2R, HostWrite2R, InvalidSum;
    HostWrite2RFails(T9(), 0);
    InvalidSumOne(D9(), 0);
    InvalidSumOne(D9(), 1);
    assert [] + [0] == [0];
  }

  /** A run of host writes under 2R-greedy leads from `t` to a write that fails. */
  ghost predicate Breaks(t: TwoR, ws: seq<nat>)
    requires Ready2R(t)
    decreases |ws|
  {
    |ws| > 0 && ws[0] < |t.d.ltp| && (HostWrite2R(t, ws[0]).None? || Breaks(HostWrite2R(t, ws[0]).value, ws[1..]))
  }

  /** One page short of the spare capacity of two blocks less a page, a run of host
      writes from the empty device fails. */
  lemma SpareIsTight()
    ensures var t := Start2R(2, 2, 2);
      |t.d.ltp| + 2 * t.d.ppb - 2 == t.d.Capacity() && Breaks(t, [0, 1, 0, 0, 0, 0, 0])
  {
    hide Ready2R, HostWrite2R;
    StartIs();
    Step1();
    Step2();
    Step3();
    Step4();
    Step5();
    Step6();
    Step7();
    assert Breaks(T9(), [0]);
    assert Breaks(T8(), [0, 0]) by { assert [0, 0][1..] == [0]; }
    assert Breaks(T4(), [0, 0, 0]) by { assert [0, 0, 0][1..] == [0, 0]; }
    assert Breaks(T3(), [0, 0, 0, 0]) by { assert [0, 0, 0, 0][1..] == [0, 0, 0]; }
    assert Breaks(T2(), [0, 0, 0, 0, 0]) by { assert [0, 0, 0, 0, 0][1..] == [0, 0, 0, 0]; }
    assert Breaks(T1(), [1, 0, 0, 0, 0, 0]) by { assert [1, 0, 0, 0, 0, 0][1..] == [0, 0, 0, 0, 0]; }
    assert [0, 1, 0, 0, 0, 0, 0][1..] == [1, 0, 0, 0, 0, 0];
  }
}
