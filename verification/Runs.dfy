/** Runs of host writes under every collection policy: what each run keeps, when a run
    can fail, the fill that precedes the first collection, and write amplification. */
module Runs {
  import opened Options
  import opened Flash
  import opened BlockLists
  import opened GreedyPolicy
  import opened S2RPolicy
  import opened TwoRPolicy
  import opened FifoPolicy
  import Amortization
  import Chain
  import Counting
  import Lists
  import MergeLoop
  import Sums

  datatype Policy = ByGreedy | ByKGreedy | ByS2R | By2RGreedy | By2RFifo

  /** A collector's state, by policy. */
  datatype Collector = Greedy(g: Gc) | KGreedy(g: Gc) | S2R(g: Gc) | Regions(t: TwoR) | Queued(f: Fifo)

  /** One host write: its page, the random block ids or scanned victims a collection
      would use, and the scan position it would leave. */
  datatype Step = Step(page: nat, draws: seq<nat>, scan: nat)

  function Device(c: Collector): (d: Ftl)
  {
    match c
    case Greedy(g) => g.d
    case KGreedy(g) => g.d
    case S2R(g) => g.d
    case Regions(t) => t.d
    case Queued(f) => f.d
  }

  ghost predicate Usable(c: Collector)
  {
    match c
    case Greedy(g) => Ready(g) && g.gcBlock.None?
    case KGreedy(g) => Ready(g) && g.gcBlock.None?
    case S2R(g) => ReadyS2R(g)
    case Regions(t) => Ready2R(t)
    case Queued(f) => ReadyFifo(f)
  }

  /** Whether the next host write collects. */
  predicate Needs(c: Collector)
    requires Usable(c)
  {
    match c
    case Greedy(g) => NeedsGc(g)
    case KGreedy(g) => NeedsGc(g)
    case S2R(g) => NeedsGc(g)
    case Regions(t) => NeedsGc2R(t)
    case Queued(f) => NeedsGcFifo(f)
  }

  ghost predicate Can(c: Collector, s: Step)
    requires Usable(c)
  {
    && s.page < |Device(c).ltp|
    && (c.KGreedy? && Needs(c) ==> Drawn(c.g.d, s.draws))
    && (c.Queued? ==> Delivers(c.f, s.draws, s.scan))
  }

  function PolicyOf(c: Collector): (p: Policy)
  {
    match c
    case Greedy(_) => ByGreedy
    case KGreedy(_) => ByKGreedy
    case S2R(_) => ByS2R
    case Regions(_) => By2RGreedy
    case Queued(_) => By2RFifo
  }

  /** The shape of a device. */
  ghost predicate Alike(d: Ftl, e: Ftl)
  {
    |e.blocks| == |d.blocks| && |e.ltp| == |d.ltp| && e.ppb == d.ppb
  }

  ghost predicate SameShape(c: Collector, r: Collector)
  {
    Alike(Device(c), Device(r)) && PolicyOf(r) == PolicyOf(c)
  }

  /** `r` is `c` after a completed host write of `page`. */
  ghost predicate Wrote(c: Collector, r: Collector, page: nat)
  {
    Usable(r) && SameShape(c, r) && Mapped(Device(r)) == Mapped(Device(c)) + {page}
  }

  lemma WroteGc(c: Collector, r: Collector, page: nat)
    requires c.Greedy? || c.KGreedy? || c.S2R?
    requires PolicyOf(r) == PolicyOf(c) && Alike(c.g.d, r.g.d)
    requires (if c.S2R? then ReadyS2R(r.g) else Ready(r.g) && r.g.gcBlock.None?)
    requires Mapped(r.g.d) == Mapped(c.g.d) + {page}
    ensures Wrote(c, r, page)
  {
    hide Ready, ReadyS2R, Mapped, Alike;
  }

  lemma WroteRegions(t: TwoR, r: TwoR, page: nat)
    requires Ready2R(r) && Alike(t.d, r.d) && Mapped(r.d) == Mapped(t.d) + {page}
    ensures Wrote(Regions(t), Regions(r), page)
  {
    hide Ready2R, Mapped, Alike;
  }

  lemma WroteQueued(f: Fifo, r: Fifo, page: nat)
    requires ReadyFifo(r) && Alike(f.d, r.d) && Mapped(r.d) == Mapped(f.d) + {page}
    ensures Wrote(Queued(f), Queued(r), page)
  {
    hide ReadyFifo, Mapped, Alike;
  }

  /** One host write; None where the program throws or never returns. */
  function Write(c: Collector, s: Step): (r: Option<Collector>)
    requires Usable(c) && Can(c, s)
    ensures r.Some? ==> Wrote(c, r.value, s.page)
  {
    hide Ready, ReadyS2R, Ready2R, ReadyFifo, Mapped, HostWrite, HostWriteS2R,
         HostWrite2R, HostWriteFifo, Pick, Wrote, Delivers, Drawn;
    match c
    case Greedy(g) =>
      var o := HostWrite(g, s.page, Pick(g, false, []));
      if o.None? then None else WroteGc(c, Greedy(o.value), s.page); Some(Greedy(o.value))
    case KGreedy(g) =>
      var o := HostWrite(g, s.page, Pick(g, true, s.draws));
      if o.None? then None else WroteGc(c, KGreedy(o.value), s.page); Some(KGreedy(o.value))
    case S2R(g) =>
      var o := HostWriteS2R(g, s.page);
      if o.None? then None else WroteGc(c, S2R(o.value), s.page); Some(S2R(o.value))
    case Regions(t) =>
      var o := HostWrite2R(t, s.page);
      if o.None? then None else WroteRegions(t, o.value, s.page); Some(Regions(o.value))
    case Queued(f) =>
      var o := HostWriteFifo(f, s.page, s.draws, s.scan);
      if o.None? then None else WroteQueued(f, o.value, s.page); Some(Queued(o.value))
  }

  /** What makes a collection fail, policy by policy. */
  predicate Stuck(c: Collector, s: Step)
    requires Usable(c) && Needs(c) && Can(c, s)
  {
    match c
    case Greedy(g) => g.d.Valid() == g.d.Capacity()
    case KGreedy(g) => forall i :: 0 <= i < |s.draws| ==> g.d.blocks[s.draws[i]].AllValid()
    case S2R(g) => g.d.Valid() + g.d.ppb > g.d.Capacity()
    case Regions(t) =>
      Chain.InvalidSum(t.d, t.normal + [t.current]) < t.d.ppb && Chain.InvalidSum(t.d, t.cold) < t.d.ppb
    case Queued(f) => s.draws == [] || Chain.InvalidSum(f.d, s.draws) < f.d.ppb
  }

  /** A host write fails exactly when it must collect and the policy is stuck. */
  lemma WriteFails(c: Collector, s: Step)
    requires Usable(c) && Can(c, s)
    ensures Write(c, s).None? <==> Needs(c) && Stuck(c, s)
  {
    hide Mapped, HostWrite, HostWriteS2R, HostWrite2R, HostWriteFifo, Chain.InvalidSum, Pick;
    match c
    case Greedy(g) => Amortization.GreedyProgress(g, s.page);
    case KGreedy(g) => KGreedyFails(g, s);
    case S2R(g) => HostWriteS2RFails(g, s.page);
    case Regions(t) => HostWrite2RFails(t, s.page);
    case Queued(f) =>
  }

  lemma KGreedyFails(g: Gc, s: Step)
    requires Usable(KGreedy(g)) && Can(KGreedy(g), s)
    ensures HostWrite(g, s.page, Pick(g, true, s.draws)).None? <==>
      NeedsGc(g) && forall i :: 0 <= i < |s.draws| ==> g.d.blocks[s.draws[i]].AllValid()
  {
    if NeedsGc(g) {
      SampledWriteFails(g, s.page, s.draws);
    } else {
      HostWriteFails(g, s.page, Pick(g, true, s.draws));
    }
  }

  /** A host write that returns, be it with a failed check: only a collection of
      greedy-s2r can go on for ever. */
  predicate Returns(c: Collector)
    requires Usable(c)
  {
    c.S2R? && Needs(c) ==> !Endless(c.g.d)
  }

  lemma UsableParts(c: Collector)
    requires Usable(c)
    ensures Good(Device(c)) && Conserved(Device(c))
  {
  }

  /* ---------- which blocks a host write uses ---------- */

  function Current(c: Collector): (b: nat)
  {
    match c
    case Greedy(g) => g.current
    case KGreedy(g) => g.current
    case S2R(g) => g.current
    case Regions(t) => t.current
    case Queued(f) => f.current
  }

  function FreeOf(c: Collector): (free: seq<nat>)
  {
    match c
    case Greedy(g) => g.free
    case KGreedy(g) => g.free
    case S2R(g) => g.free
    case Regions(t) => t.free
    case Queued(f) => f.free
  }

  /** The lists of full blocks, where the policy keeps some, agree with `full`. */
  ghost predicate Filed(c: Collector, full: seq<nat>)
  {
    && (c.Regions? ==> c.t.normal == full && c.t.cold == [])
    && (c.Queued? ==> c.f.queue == Queue(full, |full|))
  }

  predicate CurrentIsFull(c: Collector)
    requires Usable(c)
  {
    match c
    case Greedy(g) => CurrentFull(g)
    case KGreedy(g) => CurrentFull(g)
    case S2R(g) => CurrentFull(g)
    case Regions(t) => CurrentFull2R(t)
    case Queued(f) => CurrentFullFifo(f)
  }

  /** Under every policy the page goes to the last written slot of the current block. */
  lemma WritePlaced(c: Collector, s: Step)
    requires Usable(c) && Can(c, s) && Write(c, s).Some?
    ensures PageWritten(Device(Write(c, s).value), s.page, Current(Write(c, s).value))
  {
    hide Ready, ReadyS2R, Ready2R, ReadyFifo, Mapped, HostWrite, HostWriteS2R, HostWrite2R, HostWriteFifo, Pick,
         PageWritten, NoCollection, Refiled, Starved, Shelved, Delivers;
    match c
    case Greedy(g) => HostWriteBlocks(g, s.page, Pick(g, false, []));
    case KGreedy(g) => HostWriteBlocks(g, s.page, Pick(g, true, s.draws));
    case S2R(g) => HostWriteS2RBlocks(g, s.page);
    case Regions(t) => HostWrite2RBlocks(t, s.page);
    case Queued(f) => HostWriteFifoBlocks(f, s.page, s.draws, s.scan);
  }

  /** Without a collection no other page moves. A current block with room is kept; a full
      one joins the end of the policy's list of full blocks, and the front of the free
      list takes its place. */
  ghost predicate PlainBlocks(c: Collector, r: Collector, page: nat)
    requires Usable(c)
  {
    && OnlyMoves(Device(c), Device(r), page) && PolicyOf(r) == PolicyOf(c)
    && if CurrentIsFull(c)
       then |FreeOf(c)| > 0 && Current(r) == FreeOf(c)[0] && FreeOf(r) == FreeOf(c)[1..]
            && forall full :: Filed(c, full) ==> Filed(r, full + [Current(c)])
       else Current(r) == Current(c) && FreeOf(r) == FreeOf(c) && forall full :: Filed(c, full) ==> Filed(r, full)
  }

  lemma PlainWriteBlocks(c: Collector, s: Step)
    requires Usable(c) && Can(c, s) && Write(c, s).Some? && !Needs(c)
    ensures PlainBlocks(c, Write(c, s).value, s.page)
  {
    hide Ready, ReadyS2R, Ready2R, ReadyFifo, Mapped, HostWrite, HostWriteS2R, HostWrite2R, HostWriteFifo, Pick,
         PageWritten, OnlyMoves, Refiled, Starved, Shelved, Delivers;
    match c
    case Greedy(g) => HostWriteBlocks(g, s.page, Pick(g, false, []));
    case KGreedy(g) => HostWriteBlocks(g, s.page, Pick(g, true, s.draws));
    case S2R(g) => HostWriteS2RBlocks(g, s.page);
    case Regions(t) => HostWrite2RBlocks(t, s.page);
    case Queued(f) => HostWriteFifoBlocks(f, s.page, s.draws, s.scan);
  }

  /* ---------- whole runs ---------- */

  /** Every step of the run is possible in the state it meets. */
  ghost predicate Feasible(c: Collector, ss: seq<Step>)
    requires Usable(c)
    decreases |ss|, 0
  {
    if |ss| == 0 then true
    else
      var n := |ss| - 1;
      Feasible(c, ss[..n]) && (Run(c, ss[..n]).Some? ==> Can(Run(c, ss[..n]).value, ss[n]))
  }

  function Run(c: Collector, ss: seq<Step>): (r: Option<Collector>)
    requires Usable(c) && Feasible(c, ss)
    ensures r.Some? ==> Usable(r.value) && SameShape(c, r.value)
    decreases |ss|, 1
  {
    hide Usable, Can, Write, Needs, Mapped;
    if |ss| == 0 then Some(c)
    else
      var n := |ss| - 1;
      var before := Run(c, ss[..n]);
      if before.None? then None else Write(before.value, ss[n])
  }

  /** Every step of the run returns. */
  ghost predicate AllReturn(c: Collector, ss: seq<Step>)
    requires Usable(c) && Feasible(c, ss)
  {
    forall n: nat :: n < |ss| && Feasible(c, ss[..n]) && Run(c, ss[..n]).Some? ==> Returns(Run(c, ss[..n]).value)
  }

  /** A run can be cut short; once it has failed it has failed. */
  lemma {:induction false} RunPrefix(c: Collector, xs: seq<Step>, ys: seq<Step>)
    requires Usable(c) && Feasible(c, xs + ys)
    ensures Feasible(c, xs)
    ensures Run(c, xs).None? ==> Run(c, xs + ys).None?
    decreases |ys|
  {
    hide Usable, Can, Write;
    if |ys| == 0 {
      assert xs + ys == xs;
    } else {
      var n := |ys| - 1;
      assert (xs + ys)[..|xs + ys| - 1] == xs + ys[..n];
      RunPrefix(c, xs, ys[..n]);
    }
  }

  lemma ReturnPrefix(c: Collector, xs: seq<Step>, ys: seq<Step>)
    requires Usable(c) && Feasible(c, xs + ys) && AllReturn(c, xs + ys)
    ensures Feasible(c, xs) && AllReturn(c, xs)
  {
    hide Usable, Returns, Run, Feasible;
    RunPrefix(c, xs, ys);
    forall n: nat | n < |xs| && Feasible(c, xs[..n]) && Run(c, xs[..n]).Some?
      ensures Returns(Run(c, xs[..n]).value)
    {
      assert (xs + ys)[..n] == xs[..n];
    }
  }

  ghost function Written(ss: seq<Step>): set<nat>
  {
    set s | s in ss :: s.page
  }

  lemma WrittenLast(ss: seq<Step>)
    requires |ss| > 0
    ensures Written(ss) == Written(ss[..|ss| - 1]) + {ss[|ss| - 1].page}
  {
    var n := |ss| - 1;
    assert ss == ss[..n] + [ss[n]];
  }

  /** Under every policy the mapped pages are those mapped before and those the host
      wrote: no page is lost or invented. */
  lemma {:induction false} RunKeepsPages(c: Collector, ss: seq<Step>)
    requires Usable(c) && Feasible(c, ss) && Run(c, ss).Some?
    ensures Mapped(Device(Run(c, ss).value)) == Mapped(Device(c)) + Written(ss)
  {
    hide Usable, Can, Write, Mapped, Device, Written, SameShape;
    if |ss| == 0 {
      assert Written([]) == {} by { NothingWritten(); }
    } else {
      RunKeepsPages(c, ss[..|ss| - 1]);
      WrittenLast(ss);
    }
  }

  lemma NothingWritten()
    ensures Written([]) == {}
  {
  }

  function Initial(p: Policy, ppb: nat, blockCount: nat, logicalPages: nat): (c: Collector)
    requires ppb > 0 && blockCount > 0
    ensures Usable(c) && Mapped(Device(c)) == {} && Device(c).phys == 0 && Device(c).Erases() == 0
    ensures |Device(c).blocks| == blockCount && |Device(c).ltp| == logicalPages && Device(c).ppb == ppb
  {
    hide Ready2R, ReadyFifo, Mapped, FreeList, RestFull, Conserved;
    FreshGood(ppb, blockCount, logicalPages);
    match p
    case ByGreedy => Greedy(Start(ppb, blockCount, logicalPages))
    case ByKGreedy => KGreedy(Start(ppb, blockCount, logicalPages))
    case ByS2R =>
      BlockFacts(Fresh(ppb, blockCount, logicalPages), 0);
      S2R(Start(ppb, blockCount, logicalPages))
    case By2RGreedy => Regions(Start2R(ppb, blockCount, logicalPages))
    case By2RFifo => Queued(StartFifo(ppb, blockCount, logicalPages))
  }

  /** From an empty device, under every policy: the tables are inverse, flash is
      conserved, the mapped pages are exactly those ever written, and the valid
      counters add up to their number. */
  lemma RunFromStart(p: Policy, ppb: nat, blockCount: nat, logicalPages: nat, ss: seq<Step>)
    requires ppb > 0 && blockCount > 0 && Feasible(Initial(p, ppb, blockCount, logicalPages), ss)
    ensures var r := Run(Initial(p, ppb, blockCount, logicalPages), ss);
      r.Some? ==>
        && Good(Device(r.value)) && Conserved(Device(r.value))
        && Mapped(Device(r.value)) == Written(ss)
        && Device(r.value).Valid() == |Written(ss)|
  {
    var c := Initial(p, ppb, blockCount, logicalPages);
    hide Initial, Usable, Feasible, Run, Good, Conserved, Mapped, Device, Written, Ftl.Valid;
    if Run(c, ss).Some? {
      RunKeepsPages(c, ss);
      UsableParts(Run(c, ss).value);
      Counting.ValidCountsMapped(Device(Run(c, ss).value));
    }
  }

  /** Once every logical page is mapped it stays so, and V == L, under every policy. */
  lemma FullMapStays(c: Collector, ss: seq<Step>)
    requires Usable(c) && Feasible(c, ss) && Mapped(Device(c)) == Counting.Below(|Device(c).ltp|)
    ensures Run(c, ss).Some? ==>
      && Mapped(Device(Run(c, ss).value)) == Counting.Below(|Device(c).ltp|)
      && Device(Run(c, ss).value).Valid() == |Device(c).ltp|
  {
    hide Usable, Feasible, Run, Good, Conserved, Device, Written, Ftl.Valid;
    if Run(c, ss).Some? {
      var d := Device(Run(c, ss).value);
      RunKeepsPages(c, ss);
      UsableParts(Run(c, ss).value);
      assert Mapped(d) <= Counting.Below(|d.ltp|);
      Counting.ValidAtMostLogical(d);
    }
  }

  /* ---------- before the first collection ---------- */

  /** No block was erased so far. */
  ghost predicate Untouched(c: Collector)
  {
    Device(c).Erases() == 0 && (c.S2R? ==> c.g.gcBlock.None?)
  }

  lemma RegionsFull(t: TwoR)
    requires Shelved(t.d, [], [], t.normal, t.cold)
    ensures AllFull(t.d)
  {
    hide Shelved;
    ShelvedFull(t.d, t.normal, t.cold);
    forall b | 0 <= b < |t.d.blocks|
      ensures t.d.blocks[b].FullyWritten()
    {
      InSomeRegion(t.d, t.normal, t.cold, b);
    }
  }

  /** Collection starts only when every block is full. */
  lemma NeedsMeansFull(c: Collector)
    requires Usable(c) && Needs(c) && (c.S2R? ==> c.g.gcBlock.None?)
    ensures AllFull(Device(c))
  {
    match c
    case Greedy(g) => GcMeansAllFull(g);
    case KGreedy(g) => GcMeansAllFull(g);
    case S2R(g) => GcMeansAllFull(g);
    case Regions(t) =>
      hide Shelved, AllFull;
      RetireShelves(t);
      RegionsFull(Retire(t));
    case Queued(f) =>
      hide Shelved, AllFull;
      RetireFifo(f);
      RegionsFull(TwoR(f.d, f.current, f.free, RetiredFifo(f).queue.list, []));
  }

  lemma FullCannotWrite(d: Ftl, b: nat)
    requires Good(d) && AllFull(d) && b < |d.blocks|
    ensures !d.blocks[b].CanWrite()
  {
  }

  lemma OpenFree(d: Ftl, free: seq<nat>)
    requires Good(d) && AllFull(d) && AllOpenIn(d, free)
    ensures |free| == 0
  {
    if |free| > 0 {
      FullCannotWrite(d, free[0]);
    }
  }

  /** And it starts as soon as that is so. */
  lemma FullMeansNeeds(c: Collector)
    requires Usable(c) && AllFull(Device(c))
    ensures Needs(c)
  {
    hide Good, Conserved, AllFull, Covers, AllFullIn, Lists.Ids;
    match c
    case Greedy(g) => OpenFree(g.d, g.free); FullCannotWrite(g.d, g.current);
    case KGreedy(g) => OpenFree(g.d, g.free); FullCannotWrite(g.d, g.current);
    case S2R(g) => OpenFree(g.d, g.free); FullCannotWrite(g.d, g.current);
    case Regions(t) => OpenFree(t.d, t.free); FullCannotWrite(t.d, t.current);
    case Queued(f) => OpenFree(f.d, f.free); FullCannotWrite(f.d, f.current);
  }

  /** All blocks are full exactly when as many slots are written as there are. */
  lemma FullWritten(d: Ftl)
    requires Good(d)
    ensures AllFull(d) <==> d.Capacity() <= d.Written()
  {
    forall b | 0 <= b < |d.blocks|
      ensures WrittenOf(d.blocks[b]) <= d.ppb == |d.blocks[b].ptl|
    {
      BlockFacts(d, b);
    }
    hide Good;
    if AllFull(d) {
      Sums.SumAtLeast(WrittenOf, d.blocks, d.ppb);
    } else {
      var b :| 0 <= b < |d.blocks| && !d.blocks[b].FullyWritten();
      var full := d.blocks[b].(writePos := d.ppb);
      Sums.SumUpdate(WrittenOf, d.blocks, b, full);
      Sums.SumAtMost(WrittenOf, d.blocks[b := full], d.ppb);
    }
  }

  /** Before its first erase a collector starts collecting exactly when the capacity is
      used up. */
  lemma FirstCollection(c: Collector)
    requires Usable(c) && Untouched(c)
    ensures Needs(c) <==> Device(c).Capacity() <= Device(c).phys
  {
    UsableParts(c);
    FullWritten(Device(c));
    assert Device(c).phys == Device(c).Written() by { NoErasePhys(Device(c)); }
    hide Usable, AllFull, Ftl.Capacity, Ftl.Written, Ftl.Erases;
    if Needs(c) {
      NeedsMeansFull(c);
    }
    if AllFull(Device(c)) {
      FullMeansNeeds(c);
    }
  }

  lemma NoErasePhys(d: Ftl)
    requires Conserved(d) && d.Erases() == 0
    ensures d.phys == d.Written()
  {
  }

  lemma PlainWriteS2R(g: Gc, l: nat)
    requires ReadyS2R(g) && l < |g.d.ltp| && !NeedsGc(g)
    ensures HostWriteS2R(g, l).Some?
    ensures var r := HostWriteS2R(g, l).value;
      r.gcBlock == g.gcBlock && r.d.Erases() == g.d.Erases() && r.d.phys == g.d.phys + 1
  {
    hide Ready, Good, Conserved, Mapped, WritePage, Ftl.Erases;
    ReadyPartsS2R(g);
    if CurrentFull(g) {
      TakeFreeReadyS2R(g);
    }
    var p := Prepared(g).value;
    ReadyPartsS2R(p);
    WritePageEffect(p.d, l, p.current);
  }

  lemma PlainWrite2R(t: TwoR, l: nat)
    requires Ready2R(t) && l < |t.d.ltp| && !NeedsGc2R(t)
    ensures HostWrite2R(t, l).Some?
    ensures var r := HostWrite2R(t, l).value; r.d.Erases() == t.d.Erases() && r.d.phys == t.d.phys + 1
  {
    hide Shelved, Good, Conserved, Mapped, WritePage, Ftl.Erases;
    Ready2RParts(t);
    var p := Provided2R(t).value;
    Ready2RParts(p);
    WritePageEffect(p.d, l, p.current);
  }

  lemma PlainWriteFifo(f: Fifo, l: nat, vs: seq<nat>, scan: nat)
    requires ReadyFifo(f) && l < |f.d.ltp| && !NeedsGcFifo(f)
    ensures HostWriteFifo(f, l, vs, scan).Some?
    ensures var r := HostWriteFifo(f, l, vs, scan).value; r.d.Erases() == f.d.Erases() && r.d.phys == f.d.phys + 1
  {
    hide Shelved, Good, Conserved, Mapped, WritePage, Ftl.Erases;
    ReadyFifoParts(f);
    var p := ProvidedFifo(f, vs, scan).value;
    ReadyFifoParts(p);
    WritePageEffect(p.d, l, p.current);
  }

  /** A host write without a collection erases nothing and writes one page. */
  lemma PlainWrite(c: Collector, s: Step)
    requires Usable(c) && !Needs(c) && s.page < |Device(c).ltp|
    ensures Can(c, s) && Write(c, s).Some?
    ensures var r := Write(c, s).value;
      && Device(r).Erases() == Device(c).Erases() && Device(r).phys == Device(c).phys + 1
      && (Untouched(c) ==> Untouched(r))
  {
    hide Mapped, HostWrite, HostWriteS2R, HostWrite2R, HostWriteFifo, Pick,
         Ftl.Erases, Conserved, Good, FreeList, RestFull, Shelved;
    match c
    case Greedy(g) =>
      HostWriteFails(g, s.page, Pick(g, false, []));
      HostWriteEffect(g, s.page, Pick(g, false, []));
    case KGreedy(g) =>
      HostWriteFails(g, s.page, Pick(g, true, s.draws));
      HostWriteEffect(g, s.page, Pick(g, true, s.draws));
    case S2R(g) => PlainWriteS2R(g, s.page);
    case Regions(t) => PlainWrite2R(t, s.page);
    case Queued(f) => PlainWriteFifo(f, s.page, s.draws, s.scan);
  }

  /** The first P host writes never collect, whatever they are, under every policy. */
  lemma {:induction false} NoGcBeforeCapacity(c: Collector, ss: seq<Step>)
    requires Usable(c) && Untouched(c) && Device(c).phys + |ss| <= Device(c).Capacity()
    requires forall i :: 0 <= i < |ss| ==> ss[i].page < |Device(c).ltp|
    ensures Feasible(c, ss)
    ensures var r := Run(c, ss);
      r.Some? && Untouched(r.value) && Device(r.value).phys == Device(c).phys + |ss|
  {
    hide Usable, Untouched, Can, Write, Needs, Device, Mapped, Ftl.Erases;
    if |ss| == 0 {
    } else {
      var n := |ss| - 1;
      NoGcBeforeCapacity(c, ss[..n]);
      var b := Run(c, ss[..n]).value;
      FirstCollection(b);
      PlainWrite(b, ss[n]);
    }
  }

  /** Blocks are used in the order of their ids: those before the current one are filled,
      and listed in that order where the policy keeps a list, those after it are free. */
  ghost predicate InOrder(c: Collector)
  {
    && Current(c) < |Device(c).blocks|
    && FreeOf(c) == Lists.Ids(|Device(c).blocks|)[Current(c) + 1..]
    && Filed(c, Lists.Ids(Current(c)))
  }

  lemma InitialInOrder(p: Policy, ppb: nat, blockCount: nat, logicalPages: nat)
    requires ppb > 0 && blockCount > 0
    ensures InOrder(Initial(p, ppb, blockCount, logicalPages))
  {
    hide Ready, Ready2R, ReadyFifo, ReadyS2R;
    assert FreeOf(Initial(p, ppb, blockCount, logicalPages)) == Lists.Ids(blockCount)[1..];
  }

  lemma IdsTail(n: nat, k: nat)
    requires k < n
    ensures |Lists.Ids(n)[k + 1..]| > 0 ==>
      Lists.Ids(n)[k + 1..][0] == k + 1 && Lists.Ids(n)[k + 1..][1..] == Lists.Ids(n)[k + 2..]
  {
  }

  lemma OrderStep(c: Collector, r: Collector, page: nat)
    requires Usable(c) && InOrder(c) && PlainBlocks(c, r, page) && SameShape(c, r)
    ensures InOrder(r)
  {
    hide Usable, OnlyMoves, CurrentIsFull;
    IdsTail(|Device(c).blocks|, Current(c));
    Lists.IdsLast(Current(c) + 1);
  }

  /** Until the capacity is used up every policy fills the blocks one after the other, in
      the order of their ids; the queue of 2R-FIFO and the normal region of 2R-greedy list
      them in the order they were filled. */
  lemma {:induction false} FillOrder(c: Collector, ss: seq<Step>)
    requires Usable(c) && Untouched(c) && InOrder(c) && Device(c).phys + |ss| <= Device(c).Capacity()
    requires forall i :: 0 <= i < |ss| ==> ss[i].page < |Device(c).ltp|
    ensures Feasible(c, ss) && Run(c, ss).Some? && InOrder(Run(c, ss).value)
  {
    hide Usable, Untouched, Can, Write, Needs, Device, InOrder, PlainBlocks, Mapped, Ftl.Erases;
    NoGcBeforeCapacity(c, ss);
    if |ss| == 0 {
    } else {
      var n := |ss| - 1;
      FillOrder(c, ss[..n]);
      NoGcBeforeCapacity(c, ss[..n]);
      var b := Run(c, ss[..n]).value;
      FirstCollection(b);
      PlainWriteBlocks(b, ss[n]);
      OrderStep(b, Run(c, ss).value, ss[n].page);
    }
  }

  /** In particular from an empty device. */
  lemma FillOrderFromStart(p: Policy, ppb: nat, blockCount: nat, logicalPages: nat, ss: seq<Step>)
    requires ppb > 0 && blockCount > 0 && |ss| <= ppb * blockCount
    requires forall i :: 0 <= i < |ss| ==> ss[i].page < logicalPages
    ensures var c := Initial(p, ppb, blockCount, logicalPages);
      Feasible(c, ss) && Run(c, ss).Some? && InOrder(Run(c, ss).value)
  {
    hide Initial, Usable, Run, Feasible, Mapped, InOrder, Untouched;
    InitialUnwritten(p, ppb, blockCount, logicalPages);
    InitialInOrder(p, ppb, blockCount, logicalPages);
    FillOrder(Initial(p, ppb, blockCount, logicalPages), ss);
  }

  function Sequential(n: nat): (ss: seq<Step>)
    ensures |ss| == n && forall i :: 0 <= i < n ==> ss[i] == Step(i, [], 0)
  {
    seq(n, (i: nat) => Step(i, [], 0))
  }

  lemma SequentialPages(n: nat)
    ensures Written(Sequential(n)) == Counting.Below(n)
  {
    forall l: nat | l < n
      ensures l in Written(Sequential(n))
    {
      assert Sequential(n)[l].page == l;
    }
  }

  lemma InitialUnwritten(p: Policy, ppb: nat, blockCount: nat, logicalPages: nat)
    requires ppb > 0 && blockCount > 0
    ensures Unwritten(Initial(p, ppb, blockCount, logicalPages))
  {
    hide Ready, Ready2R, ReadyFifo, ReadyS2R;
  }

  /** The sequential fill of a device with L <= P erases nothing, writes each page once,
      and leaves every logical page valid, under every policy. */
  lemma SequentialFill(p: Policy, ppb: nat, blockCount: nat, logicalPages: nat)
    requires ppb > 0 && blockCount > 0 && logicalPages <= ppb * blockCount
    ensures var c := Initial(p, ppb, blockCount, logicalPages);
      Feasible(c, Sequential(logicalPages)) && Run(c, Sequential(logicalPages)).Some?
    ensures var r := Device(Run(Initial(p, ppb, blockCount, logicalPages), Sequential(logicalPages)).value);
      && r.Erases() == 0 && r.phys == logicalPages
      && Mapped(r) == Counting.Below(logicalPages) && r.Valid() == logicalPages
  {
    hide Initial, Usable, Run, Feasible, Mapped, Good, Conserved, Written, Ftl.Valid, Ftl.Erases;
    var c := Initial(p, ppb, blockCount, logicalPages);
    InitialUnwritten(p, ppb, blockCount, logicalPages);
    NoGcBeforeCapacity(c, Sequential(logicalPages));
    RunFromStart(p, ppb, blockCount, logicalPages, Sequential(logicalPages));
    SequentialPages(logicalPages);
    Counting.BelowSize(logicalPages);
  }

  /* ---------- spare capacity ---------- */

  /** The spare capacity under which the policy never fails, where it has one. */
  predicate Spare(c: Collector)
  {
    var d := Device(c);
    match c
    case Greedy(_) => |d.ltp| < d.Capacity()
    case S2R(_) => |d.ltp| + d.ppb <= d.Capacity()
    case Regions(_) => |d.ltp| + 2 * d.ppb - 1 <= d.Capacity()
    case _ => false
  }

  lemma SpareWrites(c: Collector, s: Step)
    requires Usable(c) && Can(c, s) && Spare(c)
    ensures Write(c, s).Some?
  {
    hide Mapped, HostWrite, HostWriteS2R, HostWrite2R, HostWriteFifo, Pick, Ftl.Capacity;
    match c
    case Greedy(g) => Amortization.GreedyProgress(g, s.page);
    case S2R(g) => HostWriteS2RFails(g, s.page);
    case Regions(t) => HostWrite2RWorks(t, s.page);
  }

  lemma SpareStays(c: Collector, r: Collector)
    requires SameShape(c, r)
    ensures Spare(r) <==> Spare(c)
  {
  }

  /** With its spare capacity a policy completes every run. */
  lemma {:induction false} SpareSuffices(c: Collector, ss: seq<Step>)
    requires Usable(c) && Spare(c) && Feasible(c, ss)
    ensures Run(c, ss).Some?
  {
    hide Usable, Can, Write, Spare, SameShape;
    if |ss| == 0 {
    } else {
      var n := |ss| - 1;
      SpareSuffices(c, ss[..n]);
      SpareStays(c, Run(c, ss[..n]).value);
      SpareWrites(Run(c, ss[..n]).value, ss[n]);
    }
  }

  /** Writes that use up the capacity and map as many pages as they can. */
  function FillUp(capacity: nat, logicalPages: nat): (ss: seq<Step>)
    ensures |ss| == capacity
    ensures forall i :: 0 <= i < capacity ==> ss[i] == Step(if i < logicalPages then i else 0, [], 0)
  {
    seq(capacity, (i: nat) => Step(if i < logicalPages then i else 0, [], 0))
  }

  lemma FillUpPages(capacity: nat, logicalPages: nat)
    requires logicalPages > 0
    ensures Written(FillUp(capacity, logicalPages)) == Counting.Below(if logicalPages < capacity then logicalPages else capacity)
  {
    var n := if logicalPages < capacity then logicalPages else capacity;
    var ss := FillUp(capacity, logicalPages);
    forall l: nat | l < n
      ensures l in Written(ss)
    {
      assert ss[l].page == l;
    }
  }

  /** No page was written so far. */
  ghost predicate Unwritten(c: Collector)
  {
    Usable(c) && Untouched(c) && Device(c).phys == 0 && Mapped(Device(c)) == {}
  }

  function FillOf(c: Collector): (ss: seq<Step>)
  {
    FillUp(Device(c).Capacity(), |Device(c).ltp|)
  }

  /** After P such writes the next one must collect, with as many valid pages as the
      device can have. */
  lemma FilledUp(c: Collector)
    requires Unwritten(c) && |Device(c).ltp| > 0
    ensures Feasible(c, FillOf(c)) && Run(c, FillOf(c)).Some?
    ensures var r, d := Run(c, FillOf(c)).value, Device(c);
      Needs(r) && Device(r).Valid() == if |d.ltp| < d.Capacity() then |d.ltp| else d.Capacity()
  {
    hide Usable, Run, Feasible, Mapped, Good, Conserved, Written,
         Device, Ftl.Valid, Ftl.Erases, Ftl.Capacity, Needs, Untouched;
    var n, l := Device(c).Capacity(), |Device(c).ltp|;
    var ss := FillUp(n, l);
    NoGcBeforeCapacity(c, ss);
    var r := Run(c, ss).value;
    FirstCollection(r);
    SameCapacity(c, r);
    RunKeepsPages(c, ss);
    FillUpPages(n, l);
    assert Mapped(Device(r)) == Written(ss);
    UsableParts(r);
    Counting.ValidCountsMapped(Device(r));
    Counting.BelowSize(if l < n then l else n);
  }

  lemma SameCapacity(c: Collector, r: Collector)
    requires SameShape(c, r)
    ensures Device(r).Capacity() == Device(c).Capacity()
  {
  }

  lemma OneMore(c: Collector, ss: seq<Step>, s: Step)
    requires Usable(c) && Feasible(c, ss) && Run(c, ss).Some? && Can(Run(c, ss).value, s)
    ensures Feasible(c, ss + [s]) && Run(c, ss + [s]) == Write(Run(c, ss).value, s)
  {
    hide Usable, Can, Write, SameShape;
    assert (ss + [s])[..|ss|] == ss;
  }

  lemma PolicyKind(p: Policy, ppb: nat, blockCount: nat, logicalPages: nat)
    requires ppb > 0 && blockCount > 0
    ensures PolicyOf(Initial(p, ppb, blockCount, logicalPages)) == p
  {
    hide Ready, Ready2R, ReadyFifo, ReadyS2R;
  }

  /** Without its spare capacity the policy gets stuck. */
  lemma StuckWithoutSpare(c: Collector)
    requires Unwritten(c) && (c.Greedy? || c.S2R?) && !Spare(c) && |Device(c).ltp| > 0
    ensures Feasible(c, FillOf(c) + [Step(0, [], 0)]) && Run(c, FillOf(c) + [Step(0, [], 0)]).None?
  {
    hide Usable, Run, Feasible, Mapped, FillOf, Write, Ready, ReadyS2R, Ftl.Valid, Untouched;
    UsableParts(c);
    BlocksHavePages(Device(c));
    FilledUp(c);
    var r := Run(c, FillOf(c)).value;
    WriteFails(r, Step(0, [], 0));
    OneMore(c, FillOf(c), Step(0, [], 0));
  }

  lemma SomePages(ppb: nat, blockCount: nat)
    requires ppb > 0 && blockCount > 0
    ensures ppb <= ppb * blockCount
  {
  }

  /** The spare capacity is exact: greedy completes every run of host writes exactly
      when L < P, greedy-s2r exactly when L + ppb <= P. */
  lemma SpareExact(p: Policy, ppb: nat, blockCount: nat, logicalPages: nat)
    requires ppb > 0 && blockCount > 0 && (p.ByGreedy? || p.ByS2R?)
    ensures (forall ss :: Feasible(Initial(p, ppb, blockCount, logicalPages), ss) ==>
                          Run(Initial(p, ppb, blockCount, logicalPages), ss).Some?) <==>
            if p.ByGreedy? then logicalPages < ppb * blockCount else logicalPages + ppb <= ppb * blockCount
  {
    var c := Initial(p, ppb, blockCount, logicalPages);
    PolicyKind(p, ppb, blockCount, logicalPages);
    InitialUnwritten(p, ppb, blockCount, logicalPages);
    SomePages(ppb, blockCount);
    hide Initial, Usable, Run, Feasible, Mapped, Untouched, FillOf;
    if Spare(c) {
      forall ss | Feasible(c, ss)
        ensures Run(c, ss).Some?
      {
        SpareSuffices(c, ss);
      }
    } else {
      StuckWithoutSpare(c);
    }
  }

  lemma CapacityOfOne(d: Ftl)
    requires Good(d) && |d.blocks| > 0
    ensures d.ppb <= d.Capacity()
  {
    SomePages(d.ppb, |d.blocks|);
  }

  lemma UsableS2R(c: Collector)
    requires Usable(c) && c.S2R?
    ensures ReadyS2R(c.g) && (Needs(c) <==> NeedsGc(c.g))
  {
  }

  /** With P - ppb < L < P greedy-s2r reaches a collection whose checks all pass and
      whose merge loop never ends. */
  lemma EndlessReached(c: Collector)
    requires Unwritten(c) && c.S2R? && |Device(c).blocks| >= 2
    requires Device(c).Capacity() < |Device(c).ltp| + Device(c).ppb && |Device(c).ltp| < Device(c).Capacity()
    ensures Feasible(c, FillOf(c)) && Run(c, FillOf(c)).Some? && Run(c, FillOf(c)).value.S2R?
    ensures var g := Run(c, FillOf(c)).value.g;
      && Starved(g.d, g.gcBlock) && Begin(g.d, g.gcBlock).Some?
      && MergeLoop.Merging(Begin(g.d, g.gcBlock).value.d, Begin(g.d, g.gcBlock).value.gc)
      && forall n: nat :: !MergeLoop.FreesWithin(Begin(g.d, g.gcBlock).value.d, Begin(g.d, g.gcBlock).value.gc, n)
  {
    hide Usable, Run, Feasible, Mapped, FillOf, Starved,
         Begin, MergeLoop.Merging, MergeLoop.FreesWithin, Untouched, Ftl.Valid, Ftl.Capacity;
    UsableParts(c);
    CapacityOfOne(Device(c));
    FilledUp(c);
    SameCapacity(c, Run(c, FillOf(c)).value);
    UsableS2R(Run(c, FillOf(c)).value);
    var g := Run(c, FillOf(c)).value.g;
    ReadyStarved(g);
    EndlessIff(g.d, g.gcBlock);
  }

  /* ---------- write amplification ---------- */

  /** The number of blocks that share the valid pages when a victim is picked. */
  function Sharing(c: Collector): (n: int)
  {
    |Device(c).blocks| - if c.S2R? then 1 else 0
  }

  function Load(c: Collector): (m: nat)
    requires Sharing(c) > 0
  {
    Amortization.MeanLoad(|Device(c).ltp|, Sharing(c))
  }

  lemma WriteAmortized(c: Collector, s: Step, hostWrites: nat)
    requires Usable(c) && Can(c, s) && Write(c, s).Some? && (c.Greedy? || c.S2R?) && Sharing(c) > 0
    requires Amortization.Amortized(Device(c), hostWrites, Load(c))
    ensures Amortization.Amortized(Device(Write(c, s).value), hostWrites + 1, Load(c))
  {
    hide Mapped, HostWrite, HostWriteS2R, Pick, Amortization.Amortized, Amortization.MeanLoad, Ready, ReadyS2R;
    match c
    case Greedy(g) => Amortization.GreedyKeepsAmortized(g, s.page, hostWrites);
    case S2R(g) => S2RKeepsAmortized(g, s.page, hostWrites);
  }

  lemma {:induction false} RunAmortized(c: Collector, ss: seq<Step>)
    requires Usable(c) && Feasible(c, ss) && Run(c, ss).Some? && (c.Greedy? || c.S2R?) && Sharing(c) > 0
    requires Amortization.Amortized(Device(c), 0, Load(c))
    ensures Amortization.Amortized(Device(Run(c, ss).value), |ss|, Load(c))
  {
    hide Usable, Can, Write, Mapped, Amortization.Amortized, Amortization.MeanLoad;
    if |ss| == 0 {
    } else {
      var n := |ss| - 1;
      RunAmortized(c, ss[..n]);
      WriteAmortized(Run(c, ss[..n]).value, ss[n], n);
    }
  }

  /** Write amplification of greedy and greedy-s2r: after any completed run of H host
      writes, phys * (ppb - m) <= ppb * H, where m is L / B rounded down for greedy and
      L / (B - 1) for greedy-s2r. */
  lemma WriteAmplification(p: Policy, ppb: nat, blockCount: nat, logicalPages: nat, ss: seq<Step>)
    requires ppb > 0 && blockCount > 0 && (p.ByGreedy? || (p.ByS2R? && blockCount >= 2))
    requires Feasible(Initial(p, ppb, blockCount, logicalPages), ss)
    ensures var n := if p.ByS2R? then blockCount - 1 else blockCount;
      var m := Amortization.MeanLoad(logicalPages, n);
      && (Run(Initial(p, ppb, blockCount, logicalPages), ss).Some? ==>
            Amortization.AmplificationWithin(
              Device(Run(Initial(p, ppb, blockCount, logicalPages), ss).value).phys, |ss|, ppb, m))
      && (logicalPages < ppb * n ==> m < ppb)
  {
    var c := Initial(p, ppb, blockCount, logicalPages);
    var n := if p.ByS2R? then blockCount - 1 else blockCount;
    var m := Amortization.MeanLoad(logicalPages, n);
    PolicyKind(p, ppb, blockCount, logicalPages);
    if logicalPages < ppb * n {
      Amortization.QuotientBelow(logicalPages, n, ppb);
    }
    assert Amortization.Amortized(Device(c), 0, m);
    hide Initial, Usable, Run, Feasible, Mapped,
         Device, Amortization.Amortized, Amortization.MeanLoad, Amortization.AmplificationWithin, Conserved;
    if Run(c, ss).Some? {
      assert Sharing(c) == n && Load(c) == m;
      RunAmortized(c, ss);
      UsableParts(Run(c, ss).value);
      Amortization.AmortizedBound(Device(Run(c, ss).value), |ss|, m);
    }
  }
}
