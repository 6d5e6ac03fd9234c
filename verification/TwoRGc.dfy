/** The 2R collectors as the program keeps them: block lists updated in place over
    the mutable SSD, for the greedy and the FIFO variant. */
module TwoRGc {
  import opened Options
  import opened Flash
  import opened BlockLists
  import opened Chain
  import opened TwoRPolicy
  import opened FifoPolicy
  import opened Ssd
  import Lists

  class TwoRCollector {
    const ssd: SSD
    const fifo: bool
    var currentBlock: nat
    var freeBlocks: seq<nat>
    var normalBlocks: seq<nat>
    var coldBlocks: seq<nat>
    var fifoList: seq<nat>
    var curScan: nat

    ghost function Regions(): TwoR
      reads this, ssd
    {
      TwoR(ssd.state, currentBlock, freeBlocks, normalBlocks, coldBlocks)
    }

    ghost function Queued(): Fifo
      reads this, ssd
    {
      Fifo(ssd.state, currentBlock, freeBlocks, Queue(fifoList, curScan))
    }

    ghost predicate Valid()
      reads this, ssd, ssd.Footprint()
    {
      && ssd.Valid()
      && this !in ssd.Footprint()
      && |ssd.state.ltp| == ssd.logicalPages
      && (if fifo then ReadyFifo(Queued()) else Ready2R(Regions()))
    }

    constructor (ssd: SSD, fifo: bool)
      requires ssd.Valid() && ssd.blockCount > 0
      requires ssd.state == Fresh(ssd.pagesPerBlock, ssd.blockCount, ssd.logicalPages)
      ensures Valid() && this.ssd == ssd && this.fifo == fifo
      ensures Regions() == Start2R(ssd.pagesPerBlock, ssd.blockCount, ssd.logicalPages)
      ensures Queued() == StartFifo(ssd.pagesPerBlock, ssd.blockCount, ssd.logicalPages)
    {
      hide Good, SSD.BlocksMatch, SSD.MapMatches, SSD.Shape, Shelved;
      ssd.Sizes();
      this.ssd := ssd;
      this.fifo := fifo;
      var ids: seq<nat> := [];
      var z := 0;
      while z < ssd.blockCount
        invariant z <= ssd.blockCount && ids == Lists.Ids(z)
      {
        ids := ids + [z];
        z := z + 1;
      }
      currentBlock := ids[0];
      freeBlocks := ids[1..];
      normalBlocks, coldBlocks, fifoList, curScan := [], [], [], 0;
      new;
      assert Regions() == Start2R(ssd.pagesPerBlock, ssd.blockCount, ssd.logicalPages);
    }

    /** The minimum of a region by valid count, the first one winning. */
    method MinElement(region: seq<nat>) returns (v: nat)
      requires ssd.Valid() && |region| > 0 && InRange(ssd.state, region)
      ensures ssd.Valid()
      ensures v == MinValid(ssd.state, region)
    {
      hide Good, SSD.Valid, SSD.ValidCntOf, MinValid;
      ssd.Sizes();
      MinValidOne(ssd.state, region);
      v := region[0];
      var i := 1;
      while i < |region|
        invariant ssd.Valid() && 1 <= i <= |region| && InRange(ssd.state, region[..i])
        invariant v < ssd.blockCount && v == MinValid(ssd.state, region[..i])
      {
        MinValidNext(ssd.state, region, i);
        if ssd.ValidCntOf(region[i]) < ssd.ValidCntOf(v) {
          v := region[i];
        }
        i := i + 1;
      }
      assert region[..i] == region;
    }

    /** The invalid pages of a region. */
    method TotalInvalid(region: seq<nat>) returns (n: int)
      requires ssd.Valid() && InRange(ssd.state, region)
      ensures ssd.Valid()
      ensures n == InvalidSum(ssd.state, region)
    {
      hide Good, SSD.Valid, SSD.ValidCntOf, InvalidSum;
      ssd.Sizes();
      InvalidSumEmpty(ssd.state);
      n := 0;
      var i := 0;
      while i < |region|
        invariant ssd.Valid() && 0 <= i <= |region|
        invariant n == InvalidSum(ssd.state, region[..i])
      {
        InvalidSumLast(ssd.state, region[..i], region[i]);
        assert region[..i + 1] == region[..i] + [region[i]];
        n := n + (ssd.pagesPerBlock - ssd.ValidCntOf(region[i]));
        i := i + 1;
      }
      assert region[..i] == region;
    }

    method GarbageCollectColdRegion() returns (cold: bool)
      requires ssd.Valid() && InRange(ssd.state, normalBlocks) && InRange(ssd.state, coldBlocks)
      ensures ssd.Valid()
      ensures cold == CollectCold(ssd.state, normalBlocks, coldBlocks)
    {
      hide Good, SSD.Valid, SSD.ValidCntOf, InvalidSum, MinValid;
      ssd.Sizes();
      InvalidSumEmpty(ssd.state);
      var c := TotalInvalid(coldBlocks);
      if c < ssd.pagesPerBlock {
        return false;
      }
      var n := TotalInvalid(normalBlocks);
      if n < ssd.pagesPerBlock {
        return true;
      }
      var hot := MinElement(normalBlocks);
      var min := MinElement(coldBlocks);
      cold := !(ssd.ValidCntOf(hot) < ssd.ValidCntOf(min));
    }

    /** The selection loop over one region. */
    method SelectFrom(region: seq<nat>) returns (victims: seq<nat>, rest: seq<nat>, total: int)
      requires ssd.Valid() && InRange(ssd.state, region)
      ensures ssd.Valid()
      ensures Selection(victims, rest) == Select(ssd.state, region, [])
      ensures total == InvalidSum(ssd.state, victims)
    {
      hide Good, SSD.Valid, SSD.ValidCntOf, InvalidSum, MinValid, Remove;
      ssd.Sizes();
      InvalidSumEmpty(ssd.state);
      victims, rest, total := [], region, 0;
      while total < ssd.pagesPerBlock && |rest| > 0
        invariant ssd.Valid() && InRange(ssd.state, rest)
        invariant Select(ssd.state, rest, victims) == Select(ssd.state, region, [])
        invariant total == InvalidSum(ssd.state, victims)
        decreases |rest|
      {
        var victimId := MinElement(rest);
        RemoveInRange(ssd.state, rest, victimId);
        InvalidSumLast(ssd.state, victims, victimId);
        victims := victims + [victimId];
        rest := Remove(rest, victimId);
        total := total + (ssd.pagesPerBlock - ssd.ValidCntOf(victimId));
      }
    }

    /** Sorts compacted victims into full and writable ones, in order. */
    method Sort(victims: seq<nat>) returns (full: seq<nat>, open: seq<nat>)
      requires ssd.Valid() && InRange(ssd.state, victims)
      ensures ssd.Valid()
      ensures full == FullOf(ssd.state, victims) && open == OpenOf(ssd.state, victims)
    {
      hide Good, SSD.Valid, SSD.CanWriteTo;
      ssd.Sizes();
      full, open := [], [];
      var i := 0;
      while i < |victims|
        invariant ssd.Valid() && 0 <= i <= |victims| && InRange(ssd.state, victims[..i])
        invariant full == FullOf(ssd.state, victims[..i]) && open == OpenOf(ssd.state, victims[..i])
      {
        assert victims[..i + 1][..i] == victims[..i];
        if !ssd.CanWriteTo(victims[i]) {
          full := full + [victims[i]];
        } else {
          open := open + [victims[i]];
        }
        i := i + 1;
      }
      assert victims[..i] == victims;
    }

    /** Selects, compacts and sorts the victims of one region. */
    method CollectRegion(region: seq<nat>) returns (ok: bool, open: seq<nat>, rest: seq<nat>, full: seq<nat>)
      requires ssd.Valid() && AllFullIn(ssd.state, region)
      requires multiset(region) <= multiset(Lists.Ids(|ssd.state.blocks|))
      modifies ssd.Footprint()
      ensures ssd.Valid() && ssd.reported == old(ssd.reported)
      ensures Reap(old(ssd.state), region) == if ok then Some(Harvest(ssd.state, open, rest, full)) else None
    {
      hide Good, SSD.Valid, InvalidSum, Select, CompactList, FullOf, OpenOf, Conserved, Mapped, Lists.Ids;
      ssd.Sizes();
      SelectFull(ssd.state, region);
      open, full := [], [];
      var victims, total;
      victims, rest, total := SelectFrom(region);
      if total < ssd.pagesPerBlock {
        return false, open, rest, full;
      }
      ok := ssd.CompactVictims(victims);
      if ok {
        ssd.Sizes();
        full, open := Sort(victims);
      }
    }

    /** 2R-greedy collection; `ok` is false where a check of the program fails. */
    method GarbageCollect2RGreedy() returns (ok: bool)
      requires ssd.Valid() && freeBlocks == []
      requires Shelved(ssd.state, [], [], normalBlocks, coldBlocks)
      modifies `freeBlocks, `normalBlocks, `coldBlocks, ssd.Footprint()
      ensures ssd.Valid() && ssd.reported == old(ssd.reported)
      ensures Gc2R(old(Regions())) == if ok then Some(Regions()) else None
    {
      hide Shelved, Good, SSD.Valid, InvalidSum, Reap, CollectCold, Lists.Ids;
      ssd.Sizes();
      ShelvedParts(ssd.state, normalBlocks, coldBlocks);
      ShelvedFull(ssd.state, normalBlocks, coldBlocks);
      var cold := GarbageCollectColdRegion();
      var open, rest, full;
      if cold {
        ok, open, rest, full := CollectRegion(coldBlocks);
        if ok {
          coldBlocks := rest + full;
          freeBlocks := freeBlocks + open;
        }
      } else {
        ok, open, rest, full := CollectRegion(normalBlocks);
        if ok {
          normalBlocks, coldBlocks := rest, coldBlocks + full;
          freeBlocks := freeBlocks + open;
        }
      }
    }

    /** Erases the first queue node of a block. */
    method EraseNode(victimId: nat)
      requires ssd.Valid() && this !in ssd.Footprint()
      modifies `fifoList, `curScan
      ensures ssd.Valid()
      ensures Queue(fifoList, curScan) == EraseFirst(Queue(old(fifoList), old(curScan)), victimId)
    {
      var it := IndexOf(fifoList, victimId);
      if it != |fifoList| {
        if curScan == it {
          fifoList := fifoList[..it] + fifoList[it + 1..];
        } else {
          fifoList := fifoList[..it] + fifoList[it + 1..];
          if it < curScan {
            curScan := curScan - 1;
          }
        }
      }
    }

    /** 2R-FIFO collection of the scanned `victims`. The program's cold insertion
        point is the past-the-end iterator at every call, so it appends. */
    method GarbageCollect2RFIFO(victims: seq<nat>, scan: nat) returns (ok: bool)
      requires ssd.Valid() && this !in ssd.Footprint() && freeBlocks == []
      requires Shelved(ssd.state, [], [], fifoList, []) && Scanned(Queue(fifoList, curScan), victims, scan)
      modifies `freeBlocks, `coldBlocks, `fifoList, `curScan, ssd.Footprint()
      ensures ssd.Valid() && ssd.reported == old(ssd.reported)
      ensures GcFifo(old(Queued()), victims, scan) == if ok then Some(Queued()) else None
    {
      hide Good, SSD.Valid, InvalidSum, CompactList, Shelved, Scanned, FileAll, OpenOf, Conserved, Mapped;
      ghost var before := Queued();
      ScannedShelved(ssd.state, fifoList, curScan, victims, scan);
      ok := ssd.CompactVictims(victims);
      if ok {
        curScan := scan;
        FileVictims(victims);
      }
    }

    /** Files one compacted victim: still full, it is queued again; writable, it is free;
        its old queue node goes. */
    method FileVictim(victimId: nat)
      requires ssd.Valid() && this !in ssd.Footprint() && victimId < |ssd.state.blocks|
      modifies `freeBlocks, `coldBlocks, `fifoList, `curScan
      ensures ssd.Valid()
      ensures Queue(fifoList, curScan) ==
              File(Queue(old(fifoList), old(curScan)), victimId, !ssd.state.blocks[victimId].CanWrite())
      ensures freeBlocks == old(freeBlocks) + if ssd.state.blocks[victimId].CanWrite() then [victimId] else []
    {
      hide Good, SSD.Valid, SSD.CanWriteTo, EraseFirst;
      ssd.Sizes();
      if !ssd.CanWriteTo(victimId) {
        coldBlocks := coldBlocks + [victimId];
        if curScan >= |fifoList| {
          curScan := curScan + 1;
        }
        fifoList := fifoList + [victimId];
      } else {
        freeBlocks := freeBlocks + [victimId];
      }
      EraseNode(victimId);
    }

    /** The bookkeeping loop over the compacted victims. */
    method FileVictims(victims: seq<nat>)
      requires ssd.Valid() && this !in ssd.Footprint() && InRange(ssd.state, victims)
      modifies `freeBlocks, `coldBlocks, `fifoList, `curScan
      ensures ssd.Valid()
      ensures Queue(fifoList, curScan) == FileAll(Queue(old(fifoList), old(curScan)), ssd.state, victims)
      ensures freeBlocks == old(freeBlocks) + OpenOf(ssd.state, victims)
    {
      hide Good, SSD.Valid, File;
      ghost var q := Queue(fifoList, curScan);
      ghost var free := freeBlocks;
      var i := 0;
      while i < |victims|
        invariant ssd.Valid() && 0 <= i <= |victims| && InRange(ssd.state, victims[..i])
        invariant Queue(fifoList, curScan) == FileAll(q, ssd.state, victims[..i])
        invariant freeBlocks == free + OpenOf(ssd.state, victims[..i])
      {
        FileNext(q, ssd.state, victims, i);
        Lists.ConcatAssoc(free, OpenOf(ssd.state, victims[..i]), if ssd.state.blocks[victims[i]].CanWrite() then [victims[i]] else []);
        FileVictim(victims[i]);
        i := i + 1;
      }
      assert victims[..i] == victims;
    }

    /** One host write; for 2R-FIFO, `victims` and `scan` are what the queue scan
        delivers. `ok` is false where a check of the program fails. */
    method WritePage(pageId: nat, victims: seq<nat>, scan: nat) returns (ok: bool)
      requires Valid() && pageId < ssd.logicalPages
      requires currentBlock < |ssd.state.blocks| && (fifo ==> Delivers(Queued(), victims, scan))
      modifies this, ssd.Footprint()
      ensures ssd.Valid() && ssd.reported == old(ssd.reported)
      ensures ok ==> Valid()
      ensures !fifo ==> HostWrite2R(old(Regions()), pageId) == if ok then Some(Regions()) else None
      ensures fifo ==> HostWriteFifo(old(Queued()), pageId, victims, scan) == if ok then Some(Queued()) else None
    {
      if fifo {
        ok := WriteFifo(pageId, victims, scan);
      } else {
        ok := WriteGreedy(pageId);
      }
    }

    /** One host write under 2R-greedy. */
    method WriteGreedy(pageId: nat) returns (ok: bool)
      requires Valid() && !fifo && pageId < ssd.logicalPages
      modifies this, ssd.Footprint()
      ensures ssd.Valid() && ssd.reported == old(ssd.reported)
      ensures ok ==> Valid()
      ensures HostWrite2R(old(Regions()), pageId) == if ok then Some(Regions()) else None
    {
      hide Good, Conserved, SSD.Valid, Mapped, Ready2R, Flash.WritePage, Provided2R;
      ssd.Sizes();
      Ready2RParts(Regions());
      ghost var t := Regions();
      ok := true;
      if !ssd.CanWriteTo(currentBlock) {
        ok := NextBlockGreedy();
      } else {
        ProvidedCurrent(t);
      }
      if ok {
        ssd.Sizes();
        Ready2RParts(Regions());
        ssd.WritePage(pageId, currentBlock);
        ssd.Sizes();
        assert HostWrite2R(t, pageId) == Some(Regions());
      }
    }

    /** Files the full current block and makes the next free block current,
        collecting first if there is none. */
    method NextBlockGreedy() returns (ok: bool)
      requires Valid() && !fifo && CurrentFull2R(Regions())
      modifies this, ssd.Footprint()
      ensures ssd.Valid() && ssd.reported == old(ssd.reported)
      ensures Provided2R(old(Regions())) == if ok then Some(Regions()) else None
    {
      hide Shelved, Good, Conserved, SSD.Valid, Gc2R, Mapped;
      ghost var t := Regions();
      ssd.Sizes();
      RetireShelves(t);
      fifoList := fifoList + [currentBlock];
      normalBlocks := normalBlocks + [currentBlock];
      ok := true;
      if |freeBlocks| == 0 {
        ok := GarbageCollect2RGreedy();
        if !ok {
          return;
        }
        Gc2RKeeps(Retire(t));
      }
      currentBlock, freeBlocks := freeBlocks[0], freeBlocks[1..];
    }

    /** One host write under 2R-FIFO. */
    method WriteFifo(pageId: nat, victims: seq<nat>, scan: nat) returns (ok: bool)
      requires Valid() && fifo && pageId < ssd.logicalPages && currentBlock < |ssd.state.blocks|
      requires Delivers(Queued(), victims, scan)
      modifies this, ssd.Footprint()
      ensures ssd.Valid() && ssd.reported == old(ssd.reported)
      ensures ok ==> Valid()
      ensures HostWriteFifo(old(Queued()), pageId, victims, scan) == if ok then Some(Queued()) else None
    {
      hide Good, Conserved, SSD.Valid, Mapped, ReadyFifo, Flash.WritePage, ProvidedFifo, Delivers, InvalidSum;
      ssd.Sizes();
      ReadyFifoParts(Queued());
      ghost var t := Queued();
      ok := true;
      if !ssd.CanWriteTo(currentBlock) {
        ok := NextBlockFifo(victims, scan);
      } else {
        ProvidedFifoCurrent(t, victims, scan);
      }
      if ok {
        ssd.Sizes();
        ReadyFifoParts(Queued());
        ssd.WritePage(pageId, currentBlock);
        ssd.Sizes();
        assert HostWriteFifo(t, pageId, victims, scan) == Some(Queued());
      }
    }

    /** Queues the full current block and makes the next free block current, collecting
        first if there is none. */
    method NextBlockFifo(victims: seq<nat>, scan: nat) returns (ok: bool)
      requires Valid() && fifo && currentBlock < |ssd.state.blocks| && CurrentFullFifo(Queued())
      requires Delivers(Queued(), victims, scan)
      modifies this, ssd.Footprint()
      ensures ssd.Valid() && ssd.reported == old(ssd.reported)
      ensures ProvidedFifo(old(Queued()), victims, scan) == if ok then Some(Queued()) else None
    {
      hide Shelved, Good, Conserved, SSD.Valid, GcFifo, Mapped, InvalidSum, Scanned;
      ghost var t := Queued();
      ssd.Sizes();
      RetireFifo(t);
      if curScan >= |fifoList| {
        curScan := curScan + 1;
      }
      fifoList := fifoList + [currentBlock];
      normalBlocks := normalBlocks + [currentBlock];
      assert Queued() == RetiredFifo(t);
      ok := true;
      if |freeBlocks| == 0 {
        ok := GarbageCollect2RFIFO(victims, scan);
        if !ok {
          return;
        }
        GcFifoKeeps(RetiredFifo(t), victims, scan);
      }
      currentBlock, freeBlocks := freeBlocks[0], freeBlocks[1..];
    }
  }

  lemma ProvidedFifoCurrent(t: Fifo, victims: seq<nat>, scan: nat)
    requires ReadyFifo(t) && !CurrentFullFifo(t) && Delivers(t, victims, scan)
    ensures ProvidedFifo(t, victims, scan) == Some(t)
  {
  }

  lemma FileNext(q: Queue, d: Ftl, vs: seq<nat>, i: nat)
    requires InRange(d, vs) && i < |vs|
    ensures InRange(d, vs[..i]) && InRange(d, vs[..i + 1])
    ensures FileAll(q, d, vs[..i + 1]) == File(FileAll(q, d, vs[..i]), vs[i], !d.blocks[vs[i]].CanWrite())
    ensures OpenOf(d, vs[..i + 1]) == OpenOf(d, vs[..i]) + if d.blocks[vs[i]].CanWrite() then [vs[i]] else []
  {
    hide File;
    assert vs[..i + 1][..i] == vs[..i];
  }

  lemma ScannedShelved(d: Ftl, list: seq<nat>, cur: nat, vs: seq<nat>, scan: nat)
    requires Shelved(d, [], [], list, []) && Scanned(Queue(list, cur), vs, scan)
    ensures FullVictims(d, vs) && InRange(d, vs)
    ensures CompactList(d, vs).Some? ==> InRange(CompactList(d, vs).value, vs)
  {
    ScannedFull(d, Queue(list, cur), vs);
  }

  lemma ProvidedCurrent(t: TwoR)
    requires Ready2R(t) && !CurrentFull2R(t)
    ensures Provided2R(t) == Some(t)
  {
  }
}
