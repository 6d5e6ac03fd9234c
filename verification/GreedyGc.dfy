/** The greedy collector as the program keeps it: current block, free list and
    running collection block, updated in place over the mutable SSD. */
module GreedyGc {
  import opened Options
  import opened Flash
  import opened BlockLists
  import opened GreedyPolicy
  import opened MergeLoop
  import opened S2RPolicy
  import opened Ssd
  import Migration

  lemma VictimNext(d: Ftl, n: nat)
    requires n < |d.blocks|
    ensures var best := Victim(d, n);
      Victim(d, n + 1) ==
        if d.blocks[n].FullyWritten() && (best.None? || d.blocks[n].validCnt < d.blocks[best.value].validCnt)
        then Some(n) else best
  {
  }

  lemma ReadyFacts(g: Gc)
    requires Ready(g) && NeedsGc(g)
    ensures |g.d.blocks| > 0 && (g.gcBlock.None? ==> AllFull(g.d))
  {
    if g.gcBlock.None? {
      GcMeansAllFull(g);
    }
  }

  class GreedyGC {
    const ssd: SSD
    const k: int
    const simpleTwoR: bool
    var currentBlock: nat
    var currentGCBlock: int
    var freeBlocks: seq<nat>

    ghost function View(): Gc
      reads this, ssd
    {
      Gc(ssd.state, currentBlock, freeBlocks, if currentGCBlock < 0 then None else Some(currentGCBlock))
    }

    ghost predicate Valid()
      reads this, ssd, ssd.Footprint()
    {
      && ssd.Valid()
      && this !in ssd.Footprint()
      && |ssd.state.ltp| == ssd.logicalPages
      && currentGCBlock >= -1
      && (if simpleTwoR then ReadyS2R(View()) else Ready(View()) && currentGCBlock == -1)
    }

    constructor (ssd: SSD, k: int, twoR: bool)
      requires ssd.Valid() && ssd.blockCount > 0
      requires ssd.state == Fresh(ssd.pagesPerBlock, ssd.blockCount, ssd.logicalPages)
      ensures Valid() && this.ssd == ssd && this.k == k && this.simpleTwoR == twoR
      ensures View() == Start(ssd.pagesPerBlock, ssd.blockCount, ssd.logicalPages)
    {
      hide Good, SSD.BlocksMatch, SSD.MapMatches, SSD.Shape;
      ssd.Sizes();
      this.ssd := ssd;
      this.k := k;
      simpleTwoR := twoR;
      var ids: seq<nat> := [];
      var z := 0;
      while z < ssd.blockCount
        invariant z <= ssd.blockCount && |ids| == z
        invariant forall i :: 0 <= i < z ==> ids[i] == i
      {
        ids := ids + [z];
        z := z + 1;
      }
      currentBlock := ids[0];
      freeBlocks := ids[1..];
      currentGCBlock := -1;
      new;
      assert freeBlocks == seq(ssd.blockCount - 1, i => i + 1);
      assert View() == Start(ssd.pagesPerBlock, ssd.blockCount, ssd.logicalPages);
      StartRoom(ssd.pagesPerBlock, ssd.blockCount, ssd.logicalPages);
    }

    /** Scan of all blocks for the full block with the fewest valid pages. */
    method SingleGreedy() returns (v: Option<nat>)
      requires ssd.Valid()
      ensures v == Victim(ssd.state, |ssd.state.blocks|)
    {
      hide Good, SSD.Valid, SSD.ValidCntOf, SSD.IsFullyWritten, Victim;
      ssd.Sizes();
      var minIdx, minCnt := -1, 0;
      var i := 0;
      while i < ssd.blockCount
        invariant ssd.Valid() && i <= ssd.blockCount
        invariant minIdx == -1 <==> Victim(ssd.state, i).None?
        invariant minIdx != -1 ==> 0 <= minIdx < i && Victim(ssd.state, i) == Some(minIdx) && minCnt == ssd.state.blocks[minIdx].validCnt
      {
        VictimNext(ssd.state, i);
        if (minIdx == -1 || ssd.ValidCntOf(i) < minCnt) && ssd.IsFullyWritten(i) {
          minIdx, minCnt := i, ssd.ValidCntOf(i);
        }
        i := i + 1;
      }
      v := if minIdx == -1 then None else Some(minIdx);
    }

    /** k-greedy: the first drawn block with the fewest valid pages. */
    method Sample(draws: seq<nat>) returns (v: nat)
      requires ssd.Valid() && |draws| > 0 && forall i :: 0 <= i < |draws| ==> draws[i] < ssd.blockCount
      ensures v == MinValid(ssd.state, draws)
    {
      hide Good, SSD.Valid, SSD.ValidCntOf, MinValid;
      ssd.Sizes();
      MinValidOne(ssd.state, draws);
      var minIdx, minCnt := draws[0], ssd.ValidCntOf(draws[0]);
      var i := 1;
      while i < |draws|
        invariant ssd.Valid() && 1 <= i <= |draws|
        invariant minIdx < ssd.blockCount && minIdx == MinValid(ssd.state, draws[..i])
        invariant minCnt == ssd.state.blocks[minIdx].validCnt
      {
        MinValidNext(ssd.state, draws, i);
        if ssd.ValidCntOf(draws[i]) < minCnt {
          minIdx, minCnt := draws[i], ssd.ValidCntOf(draws[i]);
        }
        i := i + 1;
      }
      assert draws[..i] == draws;
      v := minIdx;
    }

    /** Moves the victim's pages to the collection block. */
    method MergeInto(gcBlock: nat, victim: nat) returns (left: bool)
      requires ssd.Valid() && Merging(ssd.state, gcBlock) && Victim(ssd.state, |ssd.state.blocks|) == Some(victim)
      modifies ssd.Footprint()
      ensures ssd.Valid() && ssd.reported == old(ssd.reported)
      ensures Victim(old(ssd.state), |old(ssd.state).blocks|) == Some(victim)
      ensures ssd.state == Merged(old(ssd.state), gcBlock)
      ensures left <==> !Empties(old(ssd.state), gcBlock)
    {
      hide Good, Conserved, Migration.MoveValidPages, Victim, SSD.Valid;
      ssd.Sizes();
      left := ssd.MoveValidPagesTo(victim, gcBlock);
    }

    /** The victim becomes the collection block and the next victim is picked. */
    method MergeNext(victim: nat) returns (next: nat)
      requires ssd.Valid() && victim < ssd.blockCount
      requires Merging(CompactBlock(ssd.state, victim), victim)
      modifies ssd.Footprint()
      ensures ssd.Valid() && ssd.reported == old(ssd.reported)
      ensures ssd.state == CompactBlock(old(ssd.state), victim)
      ensures Victim(ssd.state, |ssd.state.blocks|) == Some(next) && next < ssd.blockCount
    {
      hide Good, Conserved, Victim, Merging, SSD.Valid, CompactBlock;
      ssd.Sizes();
      ssd.CompactBlock(victim);
      MergingHasVictim(ssd.state, victim);
      ssd.Sizes();
      var v := SingleGreedy();
      next := v.value;
    }

    /** The merge loop over the SSD with the greedy scan as its victim source. */
    method MergeLoop(start: nat, first: nat) returns (freed: nat, gcBlock: nat)
      requires ssd.Valid() && Merging(ssd.state, start) && Room(ssd.state)
      requires Victim(ssd.state, |ssd.state.blocks|) == Some(first)
      modifies ssd.Footprint()
      ensures ssd.Valid() && ssd.reported == old(ssd.reported)
      ensures var o := FreeBlock(old(ssd.state), start);
              ssd.state == o.d && freed == o.freed && gcBlock == o.gcBlock
    {
      ssd.Sizes();
      hide Good, Conserved, Merged, Migration.MoveValidPages, Room, Effort,
           NoGain, Victim, SSD.Valid, EraseBlock, CompactBlock;
      gcBlock, freed := start, first;
      ghost var goal := FreeBlock(ssd.state, start);
      ghost var before := ssd.state;
      var left := MergeInto(gcBlock, freed);
      while left
        invariant ssd.Valid() && ssd.reported == old(ssd.reported)
        invariant Merging(before, gcBlock) && Room(before) && FreeBlock(before, gcBlock) == goal
        invariant Victim(before, |before.blocks|) == Some(freed) && freed < ssd.blockCount
        invariant ssd.state == Merged(before, gcBlock)
        invariant left <==> !Empties(before, gcBlock)
        decreases Effort(before, gcBlock)
      {
        before := Iterate(before, gcBlock).d;
        var v := MergeNext(freed);
        gcBlock, freed := freed, v;
        left := MergeInto(gcBlock, freed);
      }
      ssd.EraseBlock(freed);
    }

    /** Keeps the running collection block or starts a new one; `ok` is false where the
        check that the new one has room fails. */
    method BeginMerge(start: int) returns (ok: bool, gcBlock: nat)
      requires ssd.Valid() && start >= -1
      requires Starved(ssd.state, if start < 0 then None else Some(start))
      modifies ssd.Footprint()
      ensures ssd.Valid() && ssd.reported == old(ssd.reported)
      ensures Begin(old(ssd.state), if start < 0 then None else Some(start)) ==
              if ok then Some(Head(ssd.state, gcBlock)) else None
    {
      hide Good, Starved, Merging, Mapped, Room, SSD.Valid, CompactBlock, Victim;
      ghost var gc := if start < 0 then None else Some(start);
      StarvedParts(ssd.state, gc);
      ssd.Sizes();
      if start == -1 || ssd.IsAllValid(start) {
        var v := SingleGreedy();
        gcBlock := v.value;
        ssd.CompactBlock(gcBlock);
        ssd.Sizes();
        ok := !ssd.IsAllValid(gcBlock);
      } else {
        ok, gcBlock := true, start;
      }
    }

    /** One collection of greedy-s2r; `ok` is false where a check fails: the one on the
        new collection block, or the scan for a victim, if there is but one block. */
    method CompactUntilFreeBlock(start: int) returns (ok: bool, freed: nat, gcBlock: nat)
      requires ssd.Valid() && start >= -1
      requires Starved(ssd.state, if start < 0 then None else Some(start)) && !Endless(ssd.state)
      modifies ssd.Footprint()
      ensures ssd.Valid() && ssd.reported == old(ssd.reported)
      ensures Gather(old(ssd.state), if start < 0 then None else Some(start)) ==
              if ok then Some(Outcome(ssd.state, freed, gcBlock)) else None
    {
      hide Good, Starved, Merging, FreeBlock, SSD.Valid, Begin, Mapped, FreedOne, Victim, Ftl.Valid;
      ghost var gc := if start < 0 then None else Some(start);
      ghost var d := ssd.state;
      GatherCases(d, gc);
      freed := 0;
      ok, gcBlock := BeginMerge(start);
      if ok {
        ssd.Sizes();
        var v := SingleGreedy();
        if v.None? {
          ok := false;
        } else {
          freed, gcBlock := MergeLoop(gcBlock, v.value);
        }
      }
    }

    /** greedy and k-greedy: compact the victim in place and free it. `draws` are
        the random block ids k-greedy would draw. */
    method CollectInPlace(draws: seq<nat>) returns (ghost victim: nat)
      requires ssd.Valid() && AllFull(ssd.state) && |ssd.state.blocks| > 0
      requires k != 0 ==> Drawn(ssd.state, draws)
      modifies `freeBlocks, ssd.Footprint()
      ensures ssd.Valid() && ssd.reported == old(ssd.reported)
      ensures victim < |old(ssd.state).blocks|
      ensures ssd.state == CompactBlock(old(ssd.state), victim) && freeBlocks == old(freeBlocks) + [victim]
      ensures if k == 0 then Victim(old(ssd.state), |old(ssd.state).blocks|) == Some(victim)
              else victim == MinValid(old(ssd.state), draws)
    {
      hide Good, SSD.Valid, CompactBlock, Victim, AllFull;
      ssd.Sizes();
      AllFullHasVictim(ssd.state);
      var idx;
      if k == 0 {
        var pick := SingleGreedy();
        idx := pick.value;
      } else {
        idx := Sample(draws);
      }
      ssd.CompactBlock(idx);
      freeBlocks := freeBlocks + [idx];
      victim := idx;
    }

    /** The draws k-greedy may be given if it collects. */
    ghost predicate Draws(draws: seq<nat>)
      requires currentBlock < |ssd.state.blocks|
      reads this, ssd
    {
      !simpleTwoR && k != 0 && NeedsGc(View()) ==> Drawn(ssd.state, draws)
    }

    /** In greedy-s2r, a collection that would never end is not started. */
    ghost predicate Returns()
      requires currentBlock < |ssd.state.blocks|
      reads this, ssd
    {
      simpleTwoR && NeedsGc(View()) ==> !Endless(ssd.state)
    }

    /** One collection without a running collection block. */
    method PerformInPlaceGC(draws: seq<nat>)
      requires Valid() && !simpleTwoR && NeedsGc(View()) && currentBlock < |ssd.state.blocks| && Draws(draws)
      modifies `freeBlocks, ssd.Footprint()
      ensures ssd.Valid() && ssd.reported == old(ssd.reported)
      ensures View() == Collect(old(View()), Pick(old(View()), k != 0, draws))
    {
      hide Good, Ready, SSD.Valid, CompactBlock, AllFull, Victim;
      ReadyFacts(View());
      ghost var victim := CollectInPlace(draws);
    }

    /** One collection of greedy-s2r. */
    method PerformMergeGC() returns (ok: bool)
      requires Valid() && simpleTwoR && NeedsGc(View()) && currentBlock < |ssd.state.blocks| && Returns()
      modifies `freeBlocks, `currentGCBlock, ssd.Footprint()
      ensures ssd.Valid() && ssd.reported == old(ssd.reported) && currentGCBlock >= -1
      ensures Starved(old(View()).d, old(View()).gcBlock)
      ensures Collected(old(View())) == if ok then Some(View()) else None
    {
      hide Good, Ready, SSD.Valid, Starved, Gather, Ftl.Valid, Mapped;
      ReadyStarved(View());
      var freed, gcBlock;
      ok, freed, gcBlock := CompactUntilFreeBlock(currentGCBlock);
      if ok {
        currentGCBlock := gcBlock;
        freeBlocks := freeBlocks + [freed];
      }
    }

    /** Makes the next free block current under greedy and k-greedy, collecting first
        if there is none. */
    method NextBlock(draws: seq<nat>)
      requires Valid() && !simpleTwoR && CurrentFull(View()) && currentBlock < |ssd.state.blocks| && Draws(draws)
      modifies `currentBlock, `freeBlocks, ssd.Footprint()
      ensures ssd.Valid() && ssd.reported == old(ssd.reported)
      ensures View() == Provided(old(View()), Pick(old(View()), k != 0, draws))
    {
      hide Good, Ready, SSD.Valid, CompactBlock, Mapped, Pick;
      ssd.Sizes();
      ReadyParts(View());
      ghost var g := View();
      if |freeBlocks| == 0 {
        PerformInPlaceGC(draws);
      }
      currentBlock, freeBlocks := freeBlocks[0], freeBlocks[1..];
    }

    /** The same under greedy-s2r. */
    method NextBlockS2R() returns (ok: bool)
      requires Valid() && simpleTwoR && CurrentFull(View()) && currentBlock < |ssd.state.blocks| && Returns()
      modifies this, ssd.Footprint()
      ensures ssd.Valid() && ssd.reported == old(ssd.reported) && currentGCBlock >= -1
      ensures Prepared(old(View())) == if ok then Some(View()) else None
    {
      hide Good, Ready, SSD.Valid, Mapped, Gather, Starved, Collected;
      ghost var g := View();
      ssd.Sizes();
      ReadyPartsS2R(g);
      ok := true;
      if |freeBlocks| == 0 {
        ok := PerformMergeGC();
        if !ok {
          return;
        }
        CollectedReady(g);
      }
      currentBlock, freeBlocks := freeBlocks[0], freeBlocks[1..];
    }

    /** One host write under greedy or k-greedy; `ok` is false where the check on the new
        current block fails. */
    method WriteInPlace(pageId: nat, draws: seq<nat>) returns (ok: bool)
      requires Valid() && !simpleTwoR && pageId < ssd.logicalPages
      requires currentBlock < |ssd.state.blocks| && Draws(draws)
      modifies this, ssd.Footprint()
      ensures ssd.Valid() && ssd.reported == old(ssd.reported)
      ensures ok ==> Valid()
      ensures HostWrite(old(View()), pageId, Pick(old(View()), k != 0, draws)) == if ok then Some(View()) else None
    {
      hide Good, Ready, SSD.Valid, Mapped, Flash.WritePage, Provided, Pick;
      ghost var g := View();
      ghost var v := Pick(g, k != 0, draws);
      ssd.Sizes();
      ReadyParts(g);
      if !ssd.CanWriteTo(currentBlock) {
        NextBlock(draws);
        ssd.Sizes();
      } else {
        ProvidedAlready(g, v);
      }
      assert View() == Provided(g, v);
      ok := ssd.CanWriteTo(currentBlock);
      if ok {
        ReadyParts(View());
        ssd.WritePage(pageId, currentBlock);
        ssd.Sizes();
        assert HostWrite(g, pageId, v) == Some(View());
      }
    }

    /** One host write under greedy-s2r; `ok` is false where a check fails. */
    method WriteMerging(pageId: nat) returns (ok: bool)
      requires Valid() && simpleTwoR && pageId < ssd.logicalPages && currentBlock < |ssd.state.blocks| && Returns()
      modifies this, ssd.Footprint()
      ensures ssd.Valid() && ssd.reported == old(ssd.reported)
      ensures ok ==> Valid()
      ensures HostWriteS2R(old(View()), pageId) == if ok then Some(View()) else None
    {
      hide Good, ReadyS2R, SSD.Valid, Mapped, Flash.WritePage, Prepared;
      ghost var g := View();
      ssd.Sizes();
      ReadyPartsS2R(g);
      ok := true;
      if !ssd.CanWriteTo(currentBlock) {
        ok := NextBlockS2R();
        if !ok {
          return;
        }
        ssd.Sizes();
      } else {
        PreparedAlready(g);
      }
      assert Prepared(g) == Some(View());
      ReadyPartsS2R(View());
      ssd.WritePage(pageId, currentBlock);
      ssd.Sizes();
      assert HostWriteS2R(g, pageId) == Some(View());
    }

    /** One host write; `draws` are the random block ids k-greedy would draw and
        `ok` is false where a check of the program fails. */
    method WritePage(pageId: nat, draws: seq<nat>) returns (ok: bool)
      requires Valid() && pageId < ssd.logicalPages
      requires currentBlock < |ssd.state.blocks| && Draws(draws) && Returns()
      modifies this, ssd.Footprint()
      ensures ssd.Valid() && ssd.reported == old(ssd.reported)
      ensures ok ==> Valid()
      ensures simpleTwoR ==> HostWriteS2R(old(View()), pageId) == if ok then Some(View()) else None
      ensures !simpleTwoR ==>
        HostWrite(old(View()), pageId, Pick(old(View()), k != 0, draws)) == if ok then Some(View()) else None
    {
      if simpleTwoR {
        ok := WriteMerging(pageId);
      } else {
        ok := WriteInPlace(pageId, draws);
      }
    }
  }

  lemma ProvidedAlready(g: Gc, v: nat)
    requires Ready(g) && g.gcBlock.None? && v < |g.d.blocks| && !CurrentFull(g)
    ensures Provided(g, v) == g
  {
  }

  lemma PreparedAlready(g: Gc)
    requires ReadyS2R(g) && !CurrentFull(g)
    ensures Prepared(g) == Some(g)
  {
  }

  lemma StartRoom(ppb: nat, blockCount: nat, logicalPages: nat)
    requires ppb > 0 && blockCount > 0
    ensures ReadyS2R(Start(ppb, blockCount, logicalPages))
  {
    BlockFacts(Start(ppb, blockCount, logicalPages).d, 0);
  }

  lemma GatherCases(d: Ftl, gc: Option<nat>)
    requires Starved(d, gc) && !Endless(d)
    ensures Begin(d, gc).None? ==> Gather(d, gc).None?
    ensures Begin(d, gc).Some? ==>
      var h := Begin(d, gc).value;
      if Victim(h.d, |h.d.blocks|).Some?
      then Merging(h.d, h.gc) && Room(h.d) && Gather(d, gc) == Some(FreeBlock(h.d, h.gc))
      else Gather(d, gc).None?
  {
    hide Starved, Good, Conserved, Mapped, FreeBlock, Begin, Victim, Merging, Ftl.Valid;
    StarvedParts(d, gc);
    AtMostCapacity(d);
    BeginFails(d, gc);
    if Begin(d, gc).Some? {
      if |d.blocks| >= 2 {
        BeginMerging(d, gc);
        MergingHasVictim(Begin(d, gc).value.d, Begin(d, gc).value.gc);
      } else {
        BeginAlone(d, gc);
        GatherEnds(d, gc);
        if Room(d) {
          RoomMeansTwo(d, gc);
        }
      }
    }
  }
}
