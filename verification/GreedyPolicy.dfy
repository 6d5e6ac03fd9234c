/** The greedy collectors as functions on values: victim choice, one host write,
    and the state every host write keeps. */
module GreedyPolicy {
  import opened Options
  import opened Flash
  import opened BlockLists

  /** A collector's state; `gcBlock` is the running collection block of greedy-s2r. */
  datatype Gc = Gc(d: Ftl, current: nat, free: seq<nat>, gcBlock: Option<nat>)

  ghost predicate AllFull(d: Ftl)
  {
    forall b :: 0 <= b < |d.blocks| ==> d.blocks[b].FullyWritten()
  }

  /** Scan of the first `n` blocks for a full block with the fewest valid pages,
      the first such block winning. */
  function Victim(d: Ftl, n: nat): (v: Option<nat>)
    requires n <= |d.blocks|
    ensures v.None? ==> forall b :: 0 <= b < n ==> !d.blocks[b].FullyWritten()
    ensures v.Some? ==> v.value < n && d.blocks[v.value].FullyWritten()
    ensures v.Some? ==> forall b :: 0 <= b < n && d.blocks[b].FullyWritten() ==>
      d.blocks[v.value].validCnt <= d.blocks[b].validCnt
    ensures v.Some? ==> forall b :: 0 <= b < v.value && d.blocks[b].FullyWritten() ==>
      d.blocks[v.value].validCnt < d.blocks[b].validCnt
  {
    if n == 0 then None
    else
      var best := Victim(d, n - 1);
      if d.blocks[n - 1].FullyWritten() && (best.None? || d.blocks[n - 1].validCnt < d.blocks[best.value].validCnt)
      then Some(n - 1)
      else best
  }

  /** Between host writes: the device is consistent, free blocks are distinct,
      writable and not in use, and every other block is full. */
  ghost predicate Ready(g: Gc)
  {
    && Good(g.d) && Conserved(g.d)
    && g.current < |g.d.blocks|
    && (g.gcBlock.Some? ==> g.gcBlock.value < |g.d.blocks|)
    && FreeList(g)
    && RestFull(g)
  }

  ghost predicate FreeList(g: Gc)
  {
    && (forall i :: 0 <= i < |g.free| ==>
          g.free[i] < |g.d.blocks| && g.free[i] != g.current && g.d.blocks[g.free[i]].CanWrite())
    && (forall i, j :: 0 <= i < j < |g.free| ==> g.free[i] != g.free[j])
  }

  ghost predicate RestFull(g: Gc)
  {
    forall b :: 0 <= b < |g.d.blocks| ==>
      g.d.blocks[b].FullyWritten() || b == g.current || b in g.free || g.gcBlock == Some(b)
  }

  predicate CurrentFull(g: Gc)
    requires g.current < |g.d.blocks|
  {
    !g.d.blocks[g.current].CanWrite()
  }

  predicate NeedsGc(g: Gc)
    requires g.current < |g.d.blocks|
  {
    CurrentFull(g) && |g.free| == 0
  }

  function Start(ppb: nat, blockCount: nat, logicalPages: nat): (g: Gc)
    requires ppb > 0 && blockCount > 0
    ensures Ready(g) && g.gcBlock.None?
  {
    var g := Gc(Fresh(ppb, blockCount, logicalPages), 0, seq(blockCount - 1, i => i + 1), None);
    StartReady(g, ppb, blockCount, logicalPages);
    g
  }

  lemma StartReady(g: Gc, ppb: nat, blockCount: nat, logicalPages: nat)
    requires ppb > 0 && blockCount > 0
    requires g == Gc(Fresh(ppb, blockCount, logicalPages), 0, seq(blockCount - 1, i => i + 1), None)
    ensures Ready(g)
  {
    FreshGood(ppb, blockCount, logicalPages);
    hide Good, Conserved;
    forall b | 0 <= b < |g.d.blocks|
      ensures b == g.current || b in g.free
    {
      if b > 0 {
        assert g.free[b - 1] == b;
      }
    }
  }

  function Put(g: Gc, l: nat): (r: Gc)
    requires Good(g.d) && g.current < |g.d.blocks| && l < |g.d.ltp| && !CurrentFull(g)
  {
    g.(d := WritePage(g.d, l, g.current))
  }

  function TakeFree(g: Gc): (r: Gc)
    requires |g.free| > 0
  {
    g.(current := g.free[0], free := g.free[1..])
  }

  lemma PutReady(g: Gc, l: nat)
    requires Ready(g) && l < |g.d.ltp| && !CurrentFull(g)
    ensures Ready(Put(g, l))
  {
    hide Good, WritePage, Conserved, Mapped, Ftl.Written, Ftl.Erases;
    ReadyParts(g);
    WritePageEffect(g.d, l, g.current);
    var r := Put(g, l);
    forall b | 0 <= b < |g.d.blocks| && b != g.current
      ensures r.d.blocks[b].FullyWritten() <==> g.d.blocks[b].FullyWritten()
      ensures r.d.blocks[b].CanWrite() <==> g.d.blocks[b].CanWrite()
    {
      BlockFacts(g.d, b);
      BlockFacts(r.d, b);
    }
  }

  lemma TakeFreeReady(g: Gc)
    requires Ready(g) && CurrentFull(g) && |g.free| > 0
    ensures Ready(TakeFree(g)) && !CurrentFull(TakeFree(g))
  {
    var r := TakeFree(g);
    assert WfBlk(g.d.blocks[g.current], g.d.ppb);
    hide Good, Conserved;
    forall b | 0 <= b < |g.d.blocks|
      ensures r.d.blocks[b].FullyWritten() || b == r.current || b in r.free || r.gcBlock == Some(b)
    {
      if b in g.free && b != g.free[0] {
        var i :| 0 <= i < |g.free| && g.free[i] == b;
        assert r.free[i - 1] == b;
      }
    }
  }

  /** In a collector without a running collection block, collection starts only
      when every block is full. */
  lemma GcMeansAllFull(g: Gc)
    requires Ready(g) && g.gcBlock.None? && NeedsGc(g)
    ensures AllFull(g.d)
  {
    assert WfBlk(g.d.blocks[g.current], g.d.ppb);
  }

  /* ---------- in-place collection (greedy and k-greedy) ---------- */

  /** The victim is compacted in place and put on the free list. */
  function Collect(g: Gc, victim: nat): (r: Gc)
    requires victim < |g.d.blocks|
  {
    g.(d := CompactBlock(g.d, victim), free := g.free + [victim])
  }

  lemma ReadyParts(g: Gc)
    requires Ready(g)
    ensures Good(g.d) && Conserved(g.d) && g.current < |g.d.blocks|
  {
  }

  lemma CollectReady(g: Gc, victim: nat)
    requires Ready(g) && g.gcBlock.None? && NeedsGc(g) && victim < |g.d.blocks|
    requires !CurrentFull(TakeFree(Collect(g, victim)))
    ensures Ready(TakeFree(Collect(g, victim)))
  {
    GcMeansAllFull(g);
    CompactEffect(g.d, victim);
    assert Wf(g.d);
    hide Good, Conserved, CompactBlock;
  }

  /** The state the write goes to: the current block if it has room, else the next
      free block, collecting `victim` if none is left. */
  function Provided(g: Gc, victim: nat): (r: Gc)
    requires Ready(g) && g.gcBlock.None? && victim < |g.d.blocks|
    ensures Good(r.d) && r.current < |r.d.blocks| && r.gcBlock.None? && Mapped(r.d) == Mapped(g.d)
    ensures |r.d.blocks| == |g.d.blocks| && |r.d.ltp| == |g.d.ltp| && r.d.ppb == g.d.ppb
    ensures !CurrentFull(r) ==> Ready(r)
  {
    hide Ready, FreeList, RestFull, AllFull, Good, Conserved, CompactBlock, Mapped;
    ReadyParts(g);
    if !CurrentFull(g) then g
    else if |g.free| > 0 then
      TakeFreeReady(g);
      ReadyParts(TakeFree(g));
      TakeFree(g)
    else
      CompactEffect(g.d, victim);
      var r := TakeFree(Collect(g, victim));
      if CurrentFull(r) then r
      else
        CollectReady(g, victim);
        r
  }

  /** One host write with the given victim should collection be needed; None
      stands for the failing check that the new current block is writable. */
  function HostWrite(g: Gc, l: nat, victim: nat): (r: Option<Gc>)
    requires Ready(g) && g.gcBlock.None? && l < |g.d.ltp| && victim < |g.d.blocks|
    ensures r.Some? ==> Ready(r.value) && r.value.gcBlock.None? && Mapped(r.value.d) == Mapped(g.d) + {l}
    ensures r.Some? ==> |r.value.d.blocks| == |g.d.blocks| && |r.value.d.ltp| == |g.d.ltp| && r.value.d.ppb == g.d.ppb
  {
    var g1 := Provided(g, victim);
    hide Ready, Provided, Good, Conserved, WritePage, Mapped, CurrentFull;
    if CurrentFull(g1) then None
    else
      PutReady(g1, l);
      WritePageEffect(g1.d, l, g1.current);
      Some(Put(g1, l))
  }

  /** A host write fails exactly when collection is needed and the victim has no
      invalid page. */
  lemma HostWriteFails(g: Gc, l: nat, victim: nat)
    requires Ready(g) && g.gcBlock.None? && l < |g.d.ltp| && victim < |g.d.blocks|
    ensures HostWrite(g, l, victim).None? <==> NeedsGc(g) && g.d.blocks[victim].AllValid()
  {
    CompactEffect(g.d, victim);
    assert WfBlk(g.d.blocks[victim], g.d.ppb) && Wf(CompactBlock(g.d, victim));
    hide Good, CompactBlock, WritePage;
  }

  /** What a host write does to the map and the counters. */
  lemma HostWriteEffect(g: Gc, l: nat, victim: nat)
    requires Ready(g) && g.gcBlock.None? && l < |g.d.ltp| && victim < |g.d.blocks|
    requires HostWrite(g, l, victim).Some?
    ensures var r := HostWrite(g, l, victim).value;
      && Mapped(r.d) == Mapped(g.d) + {l}
      && (if NeedsGc(g)
          then r.d.phys == g.d.phys + g.d.blocks[victim].validCnt + 1 && r.d.Erases() == g.d.Erases() + 1
          else r.d.phys == g.d.phys + 1 && r.d.Erases() == g.d.Erases())
  {
    hide Good, Conserved, FreeList, RestFull, WritePage, CompactBlock, Mapped, Ftl.Erases, Ftl.Written, Ftl.Valid;
    if !CurrentFull(g) {
      WritePageEffect(g.d, l, g.current);
    } else if |g.free| > 0 {
      TakeFreeReady(g);
      WritePageEffect(g.d, l, TakeFree(g).current);
    } else {
      var g1 := TakeFree(Collect(g, victim));
      CompactEffect(g.d, victim);
      CollectReady(g, victim);
      WritePageEffect(g1.d, l, g1.current);
    }
  }

  /** `r` is `g` after a host write of `l` that did not collect: the current block is kept
      while it has room, else the front of the free list follows; no other page moves. */
  ghost predicate NoCollection(g: Gc, r: Gc, l: nat)
    requires g.current < |g.d.blocks|
  {
    && (if CurrentFull(g) then |g.free| > 0 && r.current == g.free[0] && r.free == g.free[1..]
        else r.current == g.current && r.free == g.free)
    && OnlyMoves(g.d, r.d, l)
  }

  /** Which blocks a host write uses. The page goes to the last written slot of the
      current block, which after a collection is the victim. */
  lemma HostWriteBlocks(g: Gc, l: nat, victim: nat)
    requires Ready(g) && g.gcBlock.None? && l < |g.d.ltp| && victim < |g.d.blocks|
    requires HostWrite(g, l, victim).Some?
    ensures var r := HostWrite(g, l, victim).value;
      && PageWritten(r.d, l, r.current)
      && (!NeedsGc(g) ==> NoCollection(g, r, l))
      && (NeedsGc(g) ==> r.current == victim && r.free == [])
  {
    hide Good, Conserved, FreeList, RestFull, WritePage, CompactBlock, Mapped, Ftl.Erases, Ftl.Written, Ftl.Valid;
    var p := Provided(g, victim);
    assert NeedsGc(g) ==> g.free == [] && p.free == [] && p.current == victim;
    WritePageEffect(p.d, l, p.current);
    WritePagePlaces(p.d, l, p.current);
  }

  /* ---------- the two ways to pick a victim ---------- */

  predicate Drawn(d: Ftl, draws: seq<nat>)
  {
    |draws| > 0 && InRange(d, draws)
  }

  lemma AllFullHasVictim(d: Ftl)
    requires AllFull(d) && |d.blocks| > 0
    ensures Victim(d, |d.blocks|).Some?
  {
    assert d.blocks[0].FullyWritten();
  }

  /** The victim of this host write, should it collect: the greedy scan's, or the best
      of the blocks drawn. */
  function Pick(g: Gc, sampled: bool, draws: seq<nat>): (v: nat)
    requires Ready(g) && g.gcBlock.None? && (sampled && NeedsGc(g) ==> Drawn(g.d, draws))
    ensures v < |g.d.blocks|
    ensures NeedsGc(g) && !sampled ==> Victim(g.d, |g.d.blocks|) == Some(v)
    ensures NeedsGc(g) && sampled ==> v == MinValid(g.d, draws)
  {
    if !NeedsGc(g) then 0
    else if sampled then MinValid(g.d, draws)
    else
      GcMeansAllFull(g);
      AllFullHasVictim(g.d);
      Victim(g.d, |g.d.blocks|).value
  }

  /** k-greedy loses a host write exactly when collection is needed and every
      block it sampled is full of valid pages. */
  lemma SampledWriteFails(g: Gc, l: nat, draws: seq<nat>)
    requires Ready(g) && g.gcBlock.None? && l < |g.d.ltp| && Drawn(g.d, draws)
    ensures HostWrite(g, l, Pick(g, true, draws)).None? <==>
      NeedsGc(g) && forall i :: 0 <= i < |draws| ==> g.d.blocks[draws[i]].AllValid()
  {
    HostWriteFails(g, l, Pick(g, true, draws));
    if NeedsGc(g) {
      var v := MinValid(g.d, draws);
      forall i | 0 <= i < |draws|
        ensures g.d.blocks[draws[i]].validCnt <= g.d.ppb && |g.d.blocks[draws[i]].ptl| == g.d.ppb
      {
        BlockFacts(g.d, draws[i]);
      }
      BlockFacts(g.d, v);
      hide Ready, HostWrite, MinValid;
      var i :| 0 <= i < |draws| && draws[i] == v;
    }
  }
}
