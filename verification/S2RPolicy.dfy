/** greedy-s2r: a collection starts or keeps a collection block, runs the merge loop,
    and frees one block. */
module S2RPolicy {
  import opened Options
  import opened Flash
  import opened BlockLists
  import opened GreedyPolicy
  import opened Amortization
  import opened MergeLoop
  import Counting
  import Migration

  /* ---------- one collection ---------- */

  /** The state a collection starts in: pages are mapped, and every block but the
      running collection block, if there is one, is full. */
  ghost predicate Starved(d: Ftl, gc: Option<nat>)
  {
    && Good(d) && Conserved(d) && Mapped(d) != {}
    && (gc.Some? ==> gc.value < |d.blocks| && |d.blocks| >= 2)
    && forall b :: 0 <= b < |d.blocks| && gc != Some(b) ==> d.blocks[b].FullyWritten()
  }

  lemma MappedSomewhere(d: Ftl)
    requires Good(d) && Mapped(d) != {}
    ensures |d.blocks| > 0 && d.Valid() > 0
  {
    var l :| l in Mapped(d);
    assert Holds(d, d.ltp[l].value, l);
    Counting.ValidCountsMapped(d);
  }

  lemma StarvedParts(d: Ftl, gc: Option<nat>)
    requires Starved(d, gc)
    ensures Good(d) && Conserved(d) && (gc.Some? ==> gc.value < |d.blocks|)
    ensures |d.blocks| > 0 && d.Valid() > 0 && Victim(d, |d.blocks|).Some?
  {
    MappedSomewhere(d);
    assert gc != Some(0) ==> d.blocks[0].FullyWritten();
    assert gc.Some? && gc != Some(1) ==> d.blocks[1].FullyWritten();
  }

  /** The running collection block is kept unless there is none or it is all valid;
      then a victim is compacted to start a new one. None stands for the check that
      the compacted block has room. */
  function Begin(d: Ftl, gc: Option<nat>): (h: Option<Head>)
    requires Starved(d, gc)
  {
    StarvedParts(d, gc);
    if gc.None? || d.blocks[gc.value].AllValid() then
      var u := NextVictim(d);
      if CompactBlock(d, u).blocks[u].AllValid() then None else Some(Head(CompactBlock(d, u), u))
    else Some(Head(d, gc.value))
  }

  lemma CompactedAllValid(d: Ftl, u: nat)
    requires Good(d) && u < |d.blocks|
    ensures CompactBlock(d, u).blocks[u].AllValid() <==> d.blocks[u].AllValid()
  {
    CompactEffect(d, u);
    BlockFacts(d, u);
    BlockFacts(CompactBlock(d, u), u);
  }

  lemma StarvedAllFull(d: Ftl, gc: Option<nat>)
    requires Starved(d, gc) && (gc.None? || d.blocks[gc.value].AllValid())
    ensures AllFull(d)
  {
    if gc.Some? {
      BlockFacts(d, gc.value);
    }
  }

  /** The check fails exactly when every physical page is valid. */
  lemma BeginFails(d: Ftl, gc: Option<nat>)
    requires Starved(d, gc)
    ensures Begin(d, gc).None? <==> d.Valid() == d.Capacity()
  {
    StarvedParts(d, gc);
    if gc.None? || d.blocks[gc.value].AllValid() {
      StarvedAllFull(d, gc);
      VictimBelowAverage(d);
      CompactedAllValid(d, NextVictim(d));
    } else {
      ValidElsewhere(d, gc.value);
      BlockFacts(d, gc.value);
    }
    hide Good, Mapped, Victim, CompactBlock, Ftl.Valid, Ftl.Capacity;
  }

  lemma CompactedMerging(d: Ftl, u: nat)
    requires Good(d) && Conserved(d) && AllFull(d) && |d.blocks| >= 2 && u < |d.blocks|
    ensures var r := CompactBlock(d, u);
      && Merging(r, u) && Mapped(r) == Mapped(d) && r.Valid() == d.Valid()
      && |r.blocks| == |d.blocks| && |r.ltp| == |d.ltp| && r.ppb == d.ppb
  {
    hide Good, Conserved, Mapped, CompactBlock, Ftl.Valid, Ftl.Erases, Ftl.Written;
    CompactEffect(d, u);
  }

  lemma StarvedMerging(d: Ftl, gc: nat)
    requires Starved(d, Some(gc))
    ensures Merging(d, gc)
  {
    hide Good, Conserved, Mapped;
  }

  /** The merge loop starts with every other block full and a collection block that
      is not all valid. */
  lemma BeginMerging(d: Ftl, gc: Option<nat>)
    requires Starved(d, gc) && |d.blocks| >= 2 && Begin(d, gc).Some?
    ensures var h := Begin(d, gc).value;
      && Merging(h.d, h.gc) && Mapped(h.d) == Mapped(d) && h.d.Valid() == d.Valid()
      && |h.d.blocks| == |d.blocks| && |h.d.ltp| == |d.ltp| && h.d.ppb == d.ppb
      && !h.d.blocks[h.gc].AllValid()
  {
    hide Starved, AllFull, Merging, Good, Conserved, Mapped, Victim, CompactBlock, Ftl.Valid;
    StarvedParts(d, gc);
    if gc.None? || d.blocks[gc.value].AllValid() {
      StarvedAllFull(d, gc);
      CompactedMerging(d, NextVictim(d));
    } else {
      StarvedMerging(d, gc.value);
    }
  }

  /** A running collection block that is not all valid is kept, and nothing is done. */
  lemma BeginKeeps(d: Ftl, gc: Option<nat>)
    requires Starved(d, gc) && gc.Some? && !d.blocks[gc.value].AllValid()
    ensures Begin(d, gc).Some? && Begin(d, gc).value.d == d && Begin(d, gc).value.gc == gc.value
  {
  }

  /** Otherwise exactly the scan's victim is compacted and becomes the collection
      block. */
  lemma BeginStarts(d: Ftl, gc: Option<nat>)
    requires Starved(d, gc) && (gc.None? || d.blocks[gc.value].AllValid()) && Begin(d, gc).Some?
    ensures var h := Begin(d, gc).value;
      && Victim(d, |d.blocks|) == Some(h.gc) && |h.d.blocks| == |d.blocks|
      && var u, pages := h.gc, Used(d.blocks[h.gc].ptl);
         && h.d.phys == d.phys + |pages| && h.d.Erases() == d.Erases() + 1
         && h.d.blocks[u].writePos == |pages| == d.blocks[u].validCnt && HoldsFirst(h.d, u, pages)
         && (forall b :: 0 <= b < |d.blocks| && b != u ==> h.d.blocks[b] == d.blocks[b])
  {
    StarvedParts(d, gc);
    CompactEffect(d, NextVictim(d));
    CompactHolds(d, NextVictim(d));
    UsedCount(d, NextVictim(d));
    hide Good, Conserved, Mapped, Victim, CompactBlock, Used, HoldsFirst, Ftl.Valid, Ftl.Erases;
  }

  /** With a single block, there is no victim left for the merge loop. */
  lemma BeginAlone(d: Ftl, gc: Option<nat>)
    requires Starved(d, gc) && |d.blocks| == 1 && Begin(d, gc).Some?
    ensures var h := Begin(d, gc).value; |h.d.blocks| == 1 && Victim(h.d, 1).None?
  {
    StarvedParts(d, gc);
    var u := NextVictim(d);
    CompactEffect(d, u);
    BlockFacts(d, u);
    BlockFacts(CompactBlock(d, u), u);
    assert Victim(CompactBlock(d, u), 0).None?;
  }

  /** A whole collection. None stands for a failing check, and for a merge loop that
      never ends. */
  function Gather(d: Ftl, gc: Option<nat>): (r: Option<Outcome>)
    requires Starved(d, gc)
    ensures r.Some? ==> FreedOne(d, r.value.d, r.value.freed, r.value.gcBlock)
  {
    hide Starved, Good, Conserved, Mapped, FreeBlock, Merging, Begin, Ftl.Valid;
    var h := Begin(d, gc);
    if h.None? || !Room(d) then None
    else
      RoomMeansTwo(d, gc);
      BeginMerging(d, gc);
      Some(FreeBlock(h.value.d, h.value.gc))
  }

  lemma RoomMeansTwo(d: Ftl, gc: Option<nat>)
    requires Starved(d, gc) && Room(d)
    ensures |d.blocks| >= 2
  {
    StarvedParts(d, gc);
    hide Good, Mapped, Victim, Ftl.Valid;
    TwoBlocks(d.Valid(), d.ppb, |d.blocks|);
  }

  lemma TwoBlocks(l: nat, ppb: nat, n: nat)
    requires 0 < l && l + ppb <= ppb * n
    ensures n >= 2
  {
  }

  /** A collection succeeds exactly when a block's worth of physical pages is not
      valid; that is when no check fails and the merge loop ends. */
  lemma GatherEnds(d: Ftl, gc: Option<nat>)
    requires Starved(d, gc)
    ensures Gather(d, gc).Some? <==> Room(d)
    ensures Gather(d, gc).Some? <==>
      && Begin(d, gc).Some?
      && Merging(Begin(d, gc).value.d, Begin(d, gc).value.gc)
      && exists n: nat :: FreesWithin(Begin(d, gc).value.d, Begin(d, gc).value.gc, n)
  {
    hide Starved, Good, Conserved, Mapped, FreeBlock, Begin, Victim, FreesWithin, Merging, Ftl.Valid;
    BeginFails(d, gc);
    StarvedParts(d, gc);
    BlockFacts(d, 0);
    var h := Begin(d, gc);
    if h.Some? {
      if |d.blocks| >= 2 {
        BeginMerging(d, gc);
        MergeLoopEndsIffRoom(h.value.d, h.value.gc);
      } else {
        BeginAlone(d, gc);
        NotMergingAlone(h.value.d, h.value.gc);
        if Room(d) {
          RoomMeansTwo(d, gc);
        }
      }
    }
  }

  /** The states in which a collection never ends: not every physical page is valid, but
      there is no room, and more than one block. */
  predicate Endless(d: Ftl)
  {
    d.Valid() < d.Capacity() && !Room(d) && |d.blocks| >= 2
  }

  /** They are exactly those in which the checks pass and the merge loop goes on for
      ever. */
  lemma EndlessIff(d: Ftl, gc: Option<nat>)
    requires Starved(d, gc)
    ensures Endless(d) <==>
      && Begin(d, gc).Some?
      && Merging(Begin(d, gc).value.d, Begin(d, gc).value.gc)
      && forall n: nat :: !FreesWithin(Begin(d, gc).value.d, Begin(d, gc).value.gc, n)
  {
    hide Starved, Good, Conserved, Mapped, Begin, Victim, FreesWithin, Merging, Gather, Ftl.Valid;
    BeginFails(d, gc);
    StarvedParts(d, gc);
    AtMostCapacity(d);
    GatherEnds(d, gc);
    if Begin(d, gc).Some? {
      if |d.blocks| >= 2 {
        BeginMerging(d, gc);
      } else {
        BeginAlone(d, gc);
        NotMergingAlone(Begin(d, gc).value.d, Begin(d, gc).value.gc);
      }
    }
  }

  lemma AtMostCapacity(d: Ftl)
    requires Good(d) && |d.blocks| > 0
    ensures d.Valid() <= d.Capacity()
  {
    ValidElsewhere(d, 0);
    BlockFacts(d, 0);
  }

  lemma FitsEmpties(d: Ftl, gc: nat)
    requires Merging(d, gc) && Victim(d, |d.blocks|).Some?
    requires d.blocks[NextVictim(d)].validCnt <= d.ppb - d.blocks[gc].writePos
    ensures Empties(d, gc) && Room(d)
  {
    MergedCounts(d, gc);
    FreeNeedsRoom(Merged(d, gc), NextVictim(d));
    Counting.ValidCountsMapped(d);
    Counting.ValidCountsMapped(Merged(d, gc));
    hide Good, Conserved, Mapped, Merged, Victim, Ftl.Valid;
  }

  /** If the running collection block is kept and has room for the victim's pages, they
      are appended to it in order, the victim is erased, and nothing else happens: one
      erase, the block stays the collection block. A victim without valid pages costs no
      relocation at all. */
  lemma GatherFits(d: Ftl, gc: Option<nat>, u: nat)
    requires Starved(d, gc) && gc.Some? && !d.blocks[gc.value].AllValid()
    requires Victim(d, |d.blocks|) == Some(u) && d.blocks[u].validCnt <= d.ppb - d.blocks[gc.value].writePos
    ensures Gather(d, gc).Some?
    ensures var o, v := Gather(d, gc).value, d.blocks[u].validCnt;
      && o.freed == u && o.gcBlock == gc.value
      && o.d.phys == d.phys + v && o.d.Erases() == d.Erases() + 1
      && (u != gc.value ==> Migration.Extended(d, o.d, gc.value, Used(d.blocks[u].ptl)))
      && (forall b :: 0 <= b < |d.blocks| && b != u && b != gc.value ==> o.d.blocks[b] == d.blocks[b])
      && (v == 0 ==> o.d.ltp == d.ltp && forall b :: 0 <= b < |d.blocks| && b != u ==> o.d.blocks[b] == d.blocks[b])
  {
    hide Good, Conserved, Mapped, Starved, Merging, Begin, Merged, Victim, Used, EraseBlock, Ftl.Valid, Ftl.Erases, Migration.Extended;
    StarvedParts(d, gc);
    BeginKeeps(d, gc);
    StarvedMerging(d, gc.value);
    FitsEmpties(d, gc.value);
    LastIteration(d, gc.value);
    LastPages(d, gc.value);
  }

  lemma ErasedOthers(r: Ftl, u: nat)
    requires u < |r.blocks|
    ensures var e := EraseBlock(r, u);
      && |e.blocks| == |r.blocks| && e.ltp == r.ltp
      && forall b :: 0 <= b < |r.blocks| && b != u ==> e.blocks[b] == r.blocks[b]
  {
  }

  /** The last iteration appends the victim's pages to the collection block. */
  lemma LastPages(d: Ftl, gc: nat)
    requires Merging(d, gc) && Victim(d, |d.blocks|).Some?
    requires d.blocks[NextVictim(d)].validCnt <= d.ppb - d.blocks[gc].writePos
    ensures var u := NextVictim(d);
      var e := EraseBlock(Merged(d, gc), u);
      && |e.blocks| == |d.blocks|
      && (u != gc ==> Migration.Extended(d, e, gc, Used(d.blocks[u].ptl)))
      && (forall b :: 0 <= b < |d.blocks| && b != u && b != gc ==> e.blocks[b] == d.blocks[b])
      && (d.blocks[u].validCnt == 0 ==>
            e.ltp == d.ltp && forall b :: 0 <= b < |d.blocks| && b != u ==> e.blocks[b] == d.blocks[b])
  {
    hide Good, Conserved, Mapped, Merged, EraseBlock, Victim, Used, Ftl.Valid, Ftl.Erases, Migration.Extended;
    var u := NextVictim(d);
    var pages := Used(d.blocks[u].ptl);
    MergingShape(d, gc);
    UsedCount(d, u);
    MergedPages(d, gc);
    ErasedOthers(Merged(d, gc), u);
    assert pages[..|pages|] == pages;
    if u != gc {
      ExtendedFrame(d, Merged(d, gc), EraseBlock(Merged(d, gc), u), gc, pages);
    }
  }

  lemma NotMergingAlone(d: Ftl, gc: nat)
    requires |d.blocks| == 1
    ensures !Merging(d, gc)
  {
  }

  lemma BeginAmortized(d: Ftl, gc: Option<nat>, hostWrites: nat)
    requires Starved(d, gc) && |d.blocks| >= 2 && Begin(d, gc).Some?
    requires Amortized(d, hostWrites, MeanLoad(|d.ltp|, |d.blocks| - 1))
    ensures Amortized(Begin(d, gc).value.d, hostWrites, MeanLoad(|d.ltp|, |d.blocks| - 1))
  {
    StarvedParts(d, gc);
    MergeVictimLoad(d, if gc.Some? then gc.value else 0);
    CompactEffect(d, NextVictim(d));
    hide Good, Conserved, Mapped, Victim, MeanLoad, Amortized, CompactBlock, Ftl.Erases;
    if gc.None? || d.blocks[gc.value].AllValid() {
      AmortizedErase(d, CompactBlock(d, NextVictim(d)), hostWrites, MeanLoad(|d.ltp|, |d.blocks| - 1),
                     d.blocks[NextVictim(d)].validCnt);
    }
  }

  /** A collection relocates at most floor(L / (B - 1)) pages per erase. */
  lemma GatherAmortized(d: Ftl, gc: Option<nat>, hostWrites: nat)
    requires Starved(d, gc) && Gather(d, gc).Some?
    ensures |d.blocks| >= 2
    ensures Amortized(d, hostWrites, MeanLoad(|d.ltp|, |d.blocks| - 1)) ==>
      Amortized(Gather(d, gc).value.d, hostWrites, MeanLoad(|d.ltp|, |d.blocks| - 1))
  {
    hide Starved, Good, Conserved, Mapped, FreeBlock, Begin, Victim, Merging, MeanLoad, Amortized, Ftl.Valid;
    RoomMeansTwo(d, gc);
    BeginMerging(d, gc);
    if Amortized(d, hostWrites, MeanLoad(|d.ltp|, |d.blocks| - 1)) {
      BeginAmortized(d, gc, hostWrites);
      FreeBlockAmortized(Begin(d, gc).value.d, Begin(d, gc).value.gc, hostWrites);
    }
  }

  /* ---------- one host write ---------- */

  /** Between host writes: as for greedy, and a full current block means that pages
      were written, a collection block that there are two blocks. */
  ghost predicate ReadyS2R(g: Gc)
  {
    && Ready(g)
    && (CurrentFull(g) ==> Mapped(g.d) != {})
    && (g.gcBlock.Some? ==> |g.d.blocks| >= 2)
  }

  lemma ReadyStarved(g: Gc)
    requires ReadyS2R(g) && NeedsGc(g)
    ensures Starved(g.d, g.gcBlock)
  {
    BlockFacts(g.d, g.current);
    hide Good, Conserved, Mapped;
  }

  function Collected(g: Gc): (r: Option<Gc>)
    requires Starved(g.d, g.gcBlock)
  {
    var o := Gather(g.d, g.gcBlock);
    if o.None? then None
    else Some(Gc(o.value.d, g.current, g.free + [o.value.freed], Some(o.value.gcBlock)))
  }

  /** A freed block taken as current makes the state ready again. */
  lemma FreedReady(d: Ftl, r: Ftl, freed: nat, gc: nat)
    requires FreedOne(d, r, freed, gc)
    ensures var g := Gc(r, freed, [], Some(gc)); Ready(g) && !CurrentFull(g)
    ensures Mapped(r) == Mapped(d) && |r.blocks| == |d.blocks| && |r.ltp| == |d.ltp| && r.ppb == d.ppb
  {
    BlockFacts(r, freed);
    hide Good, Conserved, Mapped;
  }

  lemma TakeOnlyFree(d: Ftl, current: nat, x: nat, gc: Option<nat>)
    ensures TakeFree(Gc(d, current, [x], gc)) == Gc(d, x, [], gc)
  {
  }

  lemma CollectedReady(g: Gc)
    requires ReadyS2R(g) && NeedsGc(g) && Starved(g.d, g.gcBlock) && Collected(g).Some?
    ensures |Collected(g).value.free| == 1
    ensures var r := TakeFree(Collected(g).value);
      && ReadyS2R(r) && !CurrentFull(r) && Mapped(r.d) == Mapped(g.d)
      && |r.d.blocks| == |g.d.blocks| && |r.d.ltp| == |g.d.ltp| && r.d.ppb == g.d.ppb
  {
    hide Ready, Good, Conserved, Mapped, Gather, Starved, CurrentFull, TakeFree, FreedOne, MeanLoad, Amortized;
    var o := Gather(g.d, g.gcBlock).value;
    assert g.free == [];
    GatherAmortized(g.d, g.gcBlock, 0);
    FreedReady(g.d, o.d, o.freed, o.gcBlock);
    assert g.free + [o.freed] == [o.freed];
    TakeOnlyFree(o.d, g.current, o.freed, Some(o.gcBlock));
  }

  lemma TakeFreeReadyS2R(g: Gc)
    requires ReadyS2R(g) && CurrentFull(g) && |g.free| > 0
    ensures ReadyS2R(TakeFree(g)) && !CurrentFull(TakeFree(g))
  {
    TakeFreeReady(g);
    hide Ready, Mapped;
  }

  /** The state once the current block is writable: as it was, with the next free
      block, or after a collection. */
  function Prepared(g: Gc): (r: Option<Gc>)
    requires ReadyS2R(g)
    ensures r.Some? ==> ReadyS2R(r.value) && !CurrentFull(r.value) && Mapped(r.value.d) == Mapped(g.d)
    ensures r.Some? ==> |r.value.d.blocks| == |g.d.blocks| && |r.value.d.ltp| == |g.d.ltp| && r.value.d.ppb == g.d.ppb
    ensures r.None? <==> NeedsGc(g) && !Room(g.d)
  {
    hide Starved, Gather, Mapped, Ready;
    if !CurrentFull(g) then Some(g)
    else if |g.free| > 0 then TakeFreeReadyS2R(g); Some(TakeFree(g))
    else
      ReadyStarved(g);
      GatherEnds(g.d, g.gcBlock);
      if Collected(g).None? then None
      else
        CollectedReady(g);
        Some(TakeFree(Collected(g).value))
  }

  /** One host write under greedy-s2r; None stands for a failing check or a merge loop
      that never ends. */
  function HostWriteS2R(g: Gc, l: nat): (r: Option<Gc>)
    requires ReadyS2R(g) && l < |g.d.ltp|
    ensures r.Some? ==> ReadyS2R(r.value) && Mapped(r.value.d) == Mapped(g.d) + {l}
    ensures r.Some? ==> |r.value.d.blocks| == |g.d.blocks| && |r.value.d.ltp| == |g.d.ltp| && r.value.d.ppb == g.d.ppb
  {
    var p := Prepared(g);
    hide Ready, Prepared, Good, Conserved, Mapped, WritePage, Room, CurrentFull;
    if p.None? then None
    else
      ReadyParts(p.value);
      PutReady(p.value, l);
      WritePageEffect(p.value.d, l, p.value.current);
      Some(Put(p.value, l))
  }

  /** A host write fails exactly when collection is needed and no block's worth of
      physical pages is free of valid data; never with P - L >= ppb. */
  lemma HostWriteS2RFails(g: Gc, l: nat)
    requires ReadyS2R(g) && l < |g.d.ltp|
    ensures HostWriteS2R(g, l).None? <==> NeedsGc(g) && !Room(g.d)
    ensures |g.d.ltp| + g.d.ppb <= g.d.Capacity() ==> HostWriteS2R(g, l).Some?
  {
    hide ReadyS2R, Prepared, WritePage, Mapped;
    ReadyPartsS2R(g);
    Counting.ValidAtMostLogical(g.d);
  }

  lemma ReadyPartsS2R(g: Gc)
    requires ReadyS2R(g)
    ensures Ready(g) && Good(g.d) && Conserved(g.d) && g.current < |g.d.blocks|
  {
  }

  /** A host write keeps relocations within floor(L / (B - 1)) per erase. */
  lemma S2RKeepsAmortized(g: Gc, l: nat, hostWrites: nat)
    requires ReadyS2R(g) && l < |g.d.ltp| && |g.d.blocks| >= 2 && HostWriteS2R(g, l).Some?
    requires Amortized(g.d, hostWrites, MeanLoad(|g.d.ltp|, |g.d.blocks| - 1))
    ensures Amortized(HostWriteS2R(g, l).value.d, hostWrites + 1, MeanLoad(|g.d.ltp|, |g.d.blocks| - 1))
  {
    hide Ready, Good, Conserved, Mapped, WritePage, Gather, Starved, MeanLoad, Amortized, Ftl.Erases, Ftl.Written;
    ReadyPartsS2R(g);
    var p := Prepared(g).value;
    if NeedsGc(g) {
      ReadyStarved(g);
      GatherAmortized(g.d, g.gcBlock, hostWrites);
    }
    assert Amortized(p.d, hostWrites, MeanLoad(|g.d.ltp|, |g.d.blocks| - 1));
    ReadyPartsS2R(p);
    WritePageEffect(p.d, l, p.current);
    AmortizedWrite(p.d, WritePage(p.d, l, p.current), hostWrites, MeanLoad(|g.d.ltp|, |g.d.blocks| - 1));
  }

  /** Which blocks a host write uses. The page goes to the last written slot of the
      current block. Without a collection the current block is kept while it has room,
      and otherwise the front of the free list takes its place; no other page moves and
      the collection block is kept. With one, the freed block becomes the current block
      and the collection block is the one the collection ended with. */
  lemma HostWriteS2RBlocks(g: Gc, l: nat)
    requires ReadyS2R(g) && l < |g.d.ltp| && HostWriteS2R(g, l).Some?
    ensures var r := HostWriteS2R(g, l).value;
      && PageWritten(r.d, l, r.current)
      && (!NeedsGc(g) ==> NoCollection(g, r, l) && r.gcBlock == g.gcBlock)
      && (NeedsGc(g) ==>
            && Starved(g.d, g.gcBlock) && Gather(g.d, g.gcBlock).Some?
            && var o := Gather(g.d, g.gcBlock).value;
               r.current == o.freed && r.free == [] && r.gcBlock == Some(o.gcBlock) && r.d.phys == o.d.phys + 1)
  {
    hide Ready, Good, Conserved, Mapped, WritePage, Gather, Starved, Ftl.Erases, Ftl.Written;
    ReadyPartsS2R(g);
    if NeedsGc(g) {
      ReadyStarved(g);
      assert g.free == [];
    }
    var p := Prepared(g).value;
    ReadyPartsS2R(p);
    WritePageEffect(p.d, l, p.current);
    WritePagePlaces(p.d, l, p.current);
  }
}
