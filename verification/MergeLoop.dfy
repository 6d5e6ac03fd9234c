/** The merge loop of greedy-s2r: victims are merged into a running collection block
    until one victim is empty and can be erased. */
module MergeLoop {
  import opened Options
  import opened Flash
  import opened GreedyPolicy
  import opened Amortization
  import Counting
  import Migration
  import Sums

  /** One block's worth of physical pages holds no valid data. */
  predicate Room(d: Ftl)
  {
    d.Valid() + d.ppb <= d.Capacity()
  }

  /** The state at the loop head: every block but the collection block is full. */
  ghost predicate Merging(d: Ftl, gc: nat)
  {
    && Good(d) && Conserved(d)
    && |d.blocks| >= 2 && gc < |d.blocks|
    && forall b :: 0 <= b < |d.blocks| && b != gc ==> d.blocks[b].FullyWritten()
  }

  /** Every full block is full of valid pages: merging gains nothing this time. */
  predicate NoGain(d: Ftl)
  {
    forall b :: 0 <= b < |d.blocks| && d.blocks[b].FullyWritten() ==> d.blocks[b].AllValid()
  }

  /** The termination measure of the loop. */
  function Effort(d: Ftl, gc: nat): (m: nat)
    requires gc < |d.blocks|
  {
    2 * d.blocks[gc].writePos + if NoGain(d) then 1 else 0
  }

  function NextVictim(d: Ftl): (u: nat)
    requires Victim(d, |d.blocks|).Some?
  {
    Victim(d, |d.blocks|).value
  }

  lemma MergingHasVictim(d: Ftl, gc: nat)
    requires Merging(d, gc)
    ensures Victim(d, |d.blocks|).Some?
  {
    assert d.blocks[if gc == 0 then 1 else 0].FullyWritten();
  }

  /** Valid pages of all blocks but one fit in those blocks. */
  lemma ValidElsewhere(d: Ftl, b: nat)
    requires Good(d) && b < |d.blocks|
    ensures d.Valid() + d.ppb <= d.Capacity() + d.blocks[b].validCnt
  {
    BlockFacts(d, b);
    forall c | 0 <= c < |d.blocks|
      ensures ValidOf(d.blocks[c]) <= d.ppb
    {
      BlockFacts(d, c);
    }
    hide Good;
    var full := d.blocks[b].(validCnt := d.ppb);
    Sums.SumUpdate(ValidOf, d.blocks, b, full);
    Sums.SumAtMost(ValidOf, d.blocks[b := full], d.ppb);
  }

  /** A block without valid pages exists only if there is room. */
  lemma FreeNeedsRoom(d: Ftl, b: nat)
    requires Good(d) && b < |d.blocks| && d.blocks[b].AllInvalid()
    ensures Room(d)
  {
    ValidElsewhere(d, b);
  }

  /** With room, all-valid full blocks leave nothing for the collection block. */
  lemma NoGainMeansEmpty(d: Ftl, gc: nat)
    requires Merging(d, gc) && Room(d) && NoGain(d)
    ensures d.blocks[gc].validCnt == 0 && !d.blocks[gc].FullyWritten()
  {
    BlockFacts(d, gc);
    forall b | 0 <= b < |d.blocks| && b != gc
      ensures d.ppb <= ValidOf(d.blocks[b])
    {
      BlockFacts(d, b);
    }
    hide Good;
    Sums.SumAtLeastBut(ValidOf, d.blocks, d.ppb, gc);
    assert d.ppb * (|d.blocks| - 1) + d.ppb == d.ppb * |d.blocks|;
  }

  /** If the victim has no invalid page, no full block has. */
  lemma VictimAllValid(d: Ftl)
    requires Good(d) && Victim(d, |d.blocks|).Some? && d.blocks[NextVictim(d)].AllValid()
    ensures NoGain(d)
  {
    BlockFacts(d, NextVictim(d));
    forall b | 0 <= b < |d.blocks| && d.blocks[b].FullyWritten()
      ensures d.blocks[b].AllValid()
    {
      BlockFacts(d, b);
    }
  }

  /* ---------- one iteration ---------- */

  /** The device after the victim's pages are moved to the collection block. */
  function Merged(d: Ftl, gc: nat): (r: Ftl)
    requires Good(d) && gc < |d.blocks| && Victim(d, |d.blocks|).Some?
    ensures Good(r) && Mapped(r) == Mapped(d) && (Conserved(d) ==> Conserved(r))
    ensures |r.blocks| == |d.blocks| && |r.ltp| == |d.ltp| && r.ppb == d.ppb
  {
    Migration.MoveValidPages(d, NextVictim(d), gc)
  }

  /** Write positions and valid counts after the move, including the case where
      the full collection block is itself the victim. */
  lemma MergedCounts(d: Ftl, gc: nat)
    requires Merging(d, gc) && Victim(d, |d.blocks|).Some?
    ensures var u, r := NextVictim(d), Merged(d, gc);
      var v, f := d.blocks[u].validCnt, d.ppb - d.blocks[gc].writePos;
      && r.blocks[u].FullyWritten()
      && r.blocks[u].validCnt == (if v <= f then 0 else v - f)
      && (u == gc ==> r == d && f == 0)
      && r.phys == d.phys + Migration.Min(v, f) && r.Erases() == d.Erases()
      && (u != gc && v > f ==> r.blocks[gc].FullyWritten() && r.blocks[gc].validCnt == d.blocks[gc].validCnt + f)
      && (forall b :: 0 <= b < |d.blocks| && b != u && b != gc ==> r.blocks[b] == d.blocks[b])
  {
    var u := NextVictim(d);
    BlockFacts(d, u);
    BlockFacts(d, gc);
    if u == gc {
      Migration.MoveToFull(d, u, gc);
    } else {
      Migration.MoveCounts(d, u, gc);
      BlockFacts(Merged(d, gc), u);
      BlockFacts(Merged(d, gc), gc);
    }
  }

  /** The last iteration: the victim is empty and full, so it can be erased. */
  lemma LastIteration(d: Ftl, gc: nat)
    requires Merging(d, gc) && Victim(d, |d.blocks|).Some? && Merged(d, gc).blocks[NextVictim(d)].AllInvalid()
    ensures var r := Flash.EraseBlock(Merged(d, gc), NextVictim(d));
      && FreedOne(d, r, NextVictim(d), gc)
      && r.phys == d.phys + d.blocks[NextVictim(d)].validCnt && r.Erases() == d.Erases() + 1
  {
    MergedCounts(d, gc);
    EraseEffect(Merged(d, gc), NextVictim(d));
    hide Good, Conserved, Merged, Mapped, Victim;
  }

  /** What the collection delivers: an erased block, all others but the running
      collection block full, and the same pages mapped. */
  ghost predicate FreedOne(d: Ftl, r: Ftl, freed: nat, gc: nat)
  {
    && Good(r) && Conserved(r) && Mapped(r) == Mapped(d)
    && |r.blocks| == |d.blocks| && |r.ltp| == |d.ltp| && r.ppb == d.ppb
    && freed < |r.blocks| && gc < |r.blocks|
    && r.blocks[freed].IsErased()
    && forall b :: 0 <= b < |r.blocks| && b != freed && b != gc ==> r.blocks[b].FullyWritten()
  }

  /** Any other iteration: the victim is compacted and becomes the collection
      block. */
  function Swapped(d: Ftl, gc: nat): (r: Ftl)
    requires Good(d) && gc < |d.blocks| && Victim(d, |d.blocks|).Some?
  {
    CompactBlock(Merged(d, gc), NextVictim(d))
  }

  /** An iteration relocates exactly its victim's valid pages, for one erase. */
  lemma IterationKeeps(d: Ftl, gc: nat)
    requires Merging(d, gc) && Victim(d, |d.blocks|).Some? && !Merged(d, gc).blocks[NextVictim(d)].AllInvalid()
    ensures var r := Swapped(d, gc);
      && Merging(r, NextVictim(d)) && Mapped(r) == Mapped(d) && r.Valid() == d.Valid()
      && |r.blocks| == |d.blocks| && |r.ltp| == |d.ltp| && r.ppb == d.ppb
      && r.phys == d.phys + d.blocks[NextVictim(d)].validCnt && r.Erases() == d.Erases() + 1
  {
    MergedCounts(d, gc);
    BlockFacts(Merged(d, gc), NextVictim(d));
    CompactEffect(Merged(d, gc), NextVictim(d));
    Counting.ValidCountsMapped(d);
    Counting.ValidCountsMapped(Merged(d, gc));
    hide Good, Conserved, Merged, Mapped, Victim, CompactBlock, Ftl.Valid;
  }

  /** Every iteration that does not free a block comes closer to one that does. */
  lemma IterationDecreases(d: Ftl, gc: nat)
    requires Merging(d, gc) && Room(d) && Victim(d, |d.blocks|).Some?
    requires !Merged(d, gc).blocks[NextVictim(d)].AllInvalid()
    ensures Effort(Swapped(d, gc), NextVictim(d)) < Effort(d, gc)
  {
    var u := NextVictim(d);
    MergedCounts(d, gc);
    BlockFacts(Merged(d, gc), u);
    BlockFacts(d, u);
    BlockFacts(d, gc);
    CompactEffect(Merged(d, gc), u);
    if d.blocks[u].AllValid() {
      VictimAllValid(d);
      NoGainMeansEmpty(d, gc);
      BlockFacts(Merged(d, gc), gc);
      assert u != gc;
      assert !NoGain(Swapped(d, gc)) by {
        hide Good, Conserved, Merged, Mapped, Victim, CompactBlock;
        assert Swapped(d, gc).blocks[gc].FullyWritten() && !Swapped(d, gc).blocks[gc].AllValid();
      }
    }
    hide Good, Conserved, Merged, Mapped, Victim, CompactBlock;
  }

  /* ---------- the loop ---------- */

  /** Whether this iteration empties its victim. */
  predicate Empties(d: Ftl, gc: nat)
    requires Merging(d, gc)
  {
    MergingHasVictim(d, gc);
    Merged(d, gc).blocks[NextVictim(d)].AllInvalid()
  }

  datatype Head = Head(d: Ftl, gc: nat)

  /** The loop head after an iteration that did not empty its victim. */
  function Iterate(d: Ftl, gc: nat): (h: Head)
    requires Merging(d, gc) && !Empties(d, gc)
    ensures Merging(h.d, h.gc) && Mapped(h.d) == Mapped(d) && h.d.Valid() == d.Valid()
    ensures |h.d.blocks| == |d.blocks| && |h.d.ltp| == |d.ltp| && h.d.ppb == d.ppb
    ensures Room(d) ==> Effort(h.d, h.gc) < Effort(d, gc)
    ensures h.d.Erases() == d.Erases() + 1
  {
    MergingHasVictim(d, gc);
    IterationKeeps(d, gc);
    if Room(d) then IterationDecreases(d, gc); Head(Swapped(d, gc), NextVictim(d))
    else Head(Swapped(d, gc), NextVictim(d))
  }

  lemma MergedPages(d: Ftl, gc: nat)
    requires Merging(d, gc) && Victim(d, |d.blocks|).Some?
    ensures var u, r, f := NextVictim(d), Merged(d, gc), d.ppb - d.blocks[gc].writePos;
      var pages := Used(d.blocks[u].ptl);
      var k := Migration.Min(f, |pages|);
      && 0 <= k <= |pages| && |r.blocks| == |d.blocks|
      && Used(r.blocks[u].ptl) == pages[k..]
      && (u != gc ==> Migration.Extended(d, r, gc, pages[..k]))
      && (forall b :: 0 <= b < |d.blocks| && b != u && b != gc ==> r.blocks[b] == d.blocks[b])
      && (pages == [] ==> r == d)
  {
    hide Good, Conserved, Mapped, Migration.MoveValidPages, Migration.Extended, Victim, Used, Ftl.Valid, Ftl.Erases;
    var u := NextVictim(d);
    var pages := Used(d.blocks[u].ptl);
    MergingShape(d, gc);
    BlockFacts(d, gc);
    UsedCount(d, u);
    MergedCounts(d, gc);
    if u == gc {
      assert pages[0..] == pages;
    } else {
      Migration.MovePages(d, u, gc);
    }
    if pages == [] {
      Migration.MoveEmpty(d, u, gc);
    }
  }

  /** Which pages an iteration moves: the first of the victim's, in slot order, fill the
      old collection block; the rest stay in the victim, the new one, from slot 0 on. */
  lemma IteratePages(d: Ftl, gc: nat)
    requires Merging(d, gc) && !Empties(d, gc)
    ensures Victim(d, |d.blocks|) == Some(Iterate(d, gc).gc) && Iterate(d, gc).gc < |d.blocks|
    ensures var h := Iterate(d, gc);
      var pages, f := Used(d.blocks[h.gc].ptl), d.ppb - d.blocks[gc].writePos;
      && 0 <= f <= |pages|
      && HoldsFirst(h.d, h.gc, pages[f..])
      && (h.gc != gc ==> Migration.Extended(d, h.d, gc, pages[..f]))
      && (forall b :: 0 <= b < |d.blocks| && b != h.gc && b != gc ==> h.d.blocks[b] == d.blocks[b])
  {
    hide Good, Conserved, Mapped, CompactBlock, Merged, HoldsFirst, Migration.Extended, Used, Victim, Room, Effort,
         Ftl.Valid, Ftl.Erases;
    MergingHasVictim(d, gc);
    MergingShape(d, gc);
    var u, r := NextVictim(d), Merged(d, gc);
    BlockFacts(d, gc);
    MergedPages(d, gc);
    MergedCounts(d, gc);
    UsedCount(d, u);
    CompactHolds(r, u);
    CompactEffect(r, u);
    if u != gc {
      ExtendedFrame(d, r, CompactBlock(r, u), gc, Used(d.blocks[u].ptl)[..d.ppb - d.blocks[gc].writePos]);
    }
  }

  lemma ExtendedFrame(d: Ftl, r: Ftl, e: Ftl, b: nat, pages: seq<nat>)
    requires b < |d.blocks| && |e.blocks| == |r.blocks| == |d.blocks| && e.blocks[b] == r.blocks[b]
    requires Migration.Extended(d, r, b, pages)
    ensures Migration.Extended(d, e, b, pages)
  {
  }

  datatype Outcome = Outcome(d: Ftl, freed: nat, gcBlock: nat)

  /** The merge loop, which ends whenever there is room. */
  function FreeBlock(d: Ftl, gc: nat): (r: Outcome)
    requires Merging(d, gc) && Room(d)
    ensures FreedOne(d, r.d, r.freed, r.gcBlock)
    decreases Effort(d, gc)
  {
    if Empties(d, gc) then
      LastIteration(d, gc);
      Outcome(EraseBlock(Merged(d, gc), NextVictim(d)), NextVictim(d), gc)
    else
      FreeBlock(Iterate(d, gc).d, Iterate(d, gc).gc)
  }

  /** What the loop delivers, iteration by iteration: if the first empties its victim,
      that victim is erased, for as many relocations as it had valid pages, and the
      collection block stays; if not, what the loop delivers from the next loop head. */
  lemma FreeBlockSteps(d: Ftl, gc: nat)
    requires Merging(d, gc) && Room(d)
    ensures Victim(d, |d.blocks|).Some?
    ensures var o, u := FreeBlock(d, gc), NextVictim(d);
      if Empties(d, gc)
      then o.freed == u && o.gcBlock == gc && o.d.phys == d.phys + d.blocks[u].validCnt && o.d.Erases() == d.Erases() + 1
      else Iterate(d, gc).gc == u && o == FreeBlock(Iterate(d, gc).d, u)
  {
    MergingHasVictim(d, gc);
    if Empties(d, gc) {
      LastIteration(d, gc);
    }
    hide Good, Conserved, Mapped, Merging, Merged, Victim, EraseBlock, Effort, Ftl.Valid, Ftl.Erases;
  }

  /** Whether the loop frees a block within `n` iterations. */
  predicate FreesWithin(d: Ftl, gc: nat, n: nat)
    requires Merging(d, gc)
    decreases n
  {
    n > 0 && (Empties(d, gc) || FreesWithin(Iterate(d, gc).d, Iterate(d, gc).gc, n - 1))
  }

  lemma {:induction false} RoomFrees(d: Ftl, gc: nat, n: nat)
    requires Merging(d, gc) && Room(d) && Effort(d, gc) < n
    ensures FreesWithin(d, gc, n)
    decreases n
  {
    hide Effort, Merging, Empties, Iterate, Ftl.Valid, Mapped;
    if !Empties(d, gc) {
      RoomFrees(Iterate(d, gc).d, Iterate(d, gc).gc, n - 1);
    }
  }

  lemma {:induction false} FreesMeansRoom(d: Ftl, gc: nat, n: nat)
    requires Merging(d, gc) && FreesWithin(d, gc, n)
    ensures Room(d)
    decreases n
  {
    if Empties(d, gc) {
      FreeNeedsRoom(Merged(d, gc), NextVictim(d));
      Counting.ValidCountsMapped(d);
      Counting.ValidCountsMapped(Merged(d, gc));
    } else {
      hide Merging, Empties, Iterate, Ftl.Valid, Mapped;
      FreesMeansRoom(Iterate(d, gc).d, Iterate(d, gc).gc, n - 1);
    }
  }

  /** With room the loop frees a block within 2 * ppb + 2 iterations. */
  lemma MergeLoopBound(d: Ftl, gc: nat)
    requires Merging(d, gc) && Room(d)
    ensures FreesWithin(d, gc, 2 * d.ppb + 2)
  {
    hide Effort, Room, FreesWithin, Good, Conserved;
    EffortBound(d, gc);
    RoomFrees(d, gc, 2 * d.ppb + 2);
  }

  lemma EffortBound(d: Ftl, gc: nat)
    requires Good(d) && gc < |d.blocks|
    ensures Effort(d, gc) < 2 * d.ppb + 2
  {
    BlockFacts(d, gc);
    hide Good, NoGain;
  }

  /** The merge loop ends exactly when a block's worth of pages is not valid. */
  lemma MergeLoopEndsIffRoom(d: Ftl, gc: nat)
    requires Merging(d, gc)
    ensures (exists n: nat :: FreesWithin(d, gc, n)) <==> Room(d)
  {
    if Room(d) {
      RoomFrees(d, gc, Effort(d, gc) + 1);
    }
    hide Merging, FreesWithin;
    forall n: nat | FreesWithin(d, gc, n)
      ensures Room(d)
    {
      FreesMeansRoom(d, gc, n);
    }
  }

  /* ---------- relocations ---------- */

  /** The victim is minimal among all blocks but one, so it holds at most floor(L / (B - 1))
      valid pages. */
  lemma MergeVictimLoad(d: Ftl, gc: nat)
    requires Good(d) && |d.blocks| >= 2 && gc < |d.blocks|
    requires forall b :: 0 <= b < |d.blocks| && b != gc ==> d.blocks[b].FullyWritten()
    ensures Victim(d, |d.blocks|).Some?
    ensures d.blocks[NextVictim(d)].validCnt <= MeanLoad(|d.ltp|, |d.blocks| - 1)
  {
    VictimLeast(d, gc);
    var v := d.blocks[NextVictim(d)].validCnt;
    hide Good, Victim, Mapped, MeanLoad;
    Counting.ValidAtMostLogical(d);
    Sums.SumAtLeastBut(ValidOf, d.blocks, v, gc);
    AtMostQuotient(v, |d.blocks| - 1, |d.ltp|);
  }

  lemma VictimLeast(d: Ftl, gc: nat)
    requires |d.blocks| >= 2 && gc < |d.blocks|
    requires forall b :: 0 <= b < |d.blocks| && b != gc ==> d.blocks[b].FullyWritten()
    ensures Victim(d, |d.blocks|).Some?
    ensures forall b :: 0 <= b < |d.blocks| && b != gc ==> d.blocks[NextVictim(d)].validCnt <= ValidOf(d.blocks[b])
  {
    assert d.blocks[if gc == 0 then 1 else 0].FullyWritten();
  }

  lemma LastAmortized(d: Ftl, gc: nat, hostWrites: nat)
    requires Merging(d, gc) && Empties(d, gc) && Amortized(d, hostWrites, MeanLoad(|d.ltp|, |d.blocks| - 1))
    ensures Victim(d, |d.blocks|).Some?
    ensures Amortized(EraseBlock(Merged(d, gc), NextVictim(d)), hostWrites, MeanLoad(|d.ltp|, |d.blocks| - 1))
  {
    MergeVictimLoad(d, gc);
    LastIteration(d, gc);
    hide Good, Conserved, Merging, Mapped, Merged, Victim, MeanLoad, Amortized, EraseBlock, Ftl.Erases;
    AmortizedErase(d, EraseBlock(Merged(d, gc), NextVictim(d)), hostWrites, MeanLoad(|d.ltp|, |d.blocks| - 1),
                   d.blocks[NextVictim(d)].validCnt);
  }

  lemma IterateAmortized(d: Ftl, gc: nat, hostWrites: nat)
    requires Merging(d, gc) && !Empties(d, gc) && Amortized(d, hostWrites, MeanLoad(|d.ltp|, |d.blocks| - 1))
    ensures Amortized(Iterate(d, gc).d, hostWrites, MeanLoad(|d.ltp|, |d.blocks| - 1))
  {
    MergeVictimLoad(d, gc);
    IterationKeeps(d, gc);
    hide Good, Conserved, Merging, Mapped, Merged, Victim, MeanLoad,
         Amortized, Swapped, Effort, Room, Ftl.Erases, Ftl.Valid;
    AmortizedErase(d, Swapped(d, gc), hostWrites, MeanLoad(|d.ltp|, |d.blocks| - 1), d.blocks[NextVictim(d)].validCnt);
  }

  lemma {:induction false} FreeBlockAmortized(d: Ftl, gc: nat, hostWrites: nat)
    requires Merging(d, gc) && Room(d) && Amortized(d, hostWrites, MeanLoad(|d.ltp|, |d.blocks| - 1))
    ensures Amortized(FreeBlock(d, gc).d, hostWrites, MeanLoad(|d.ltp|, |d.blocks| - 1))
    decreases Effort(d, gc)
  {
    hide Effort, Merging, Empties, Iterate, Ftl.Valid, Mapped, Amortized, MeanLoad, EraseBlock, Merged;
    if Empties(d, gc) {
      LastAmortized(d, gc, hostWrites);
    } else {
      MergingShape(d, gc);
      IterateAmortized(d, gc, hostWrites);
      FreeBlockAmortized(Iterate(d, gc).d, Iterate(d, gc).gc, hostWrites);
    }
  }

  lemma MergingShape(d: Ftl, gc: nat)
    requires Merging(d, gc)
    ensures Good(d) && |d.blocks| >= 2 && gc < |d.blocks|
  {
  }
}
