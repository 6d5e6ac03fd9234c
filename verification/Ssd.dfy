/** The simulated SSD as the program keeps it: mutable blocks, a packed address
    map and counters, updated in place. The ghost field `state` is its value. */
module Ssd {
  import opened Options
  import opened Flash
  import Address
  import Chain
  import Migration

  class Block {
    const pagesPerBlock: nat
    const blockId: nat
    const ptl: array<Slot>
    var writePos: nat
    var validCnt: nat
    var eraseCount: nat

    ghost function View(): Blk
      reads this, ptl
    {
      Blk(ptl[..], writePos, validCnt, eraseCount)
    }

    constructor (pagesPerBlock: nat, blockId: nat)
      ensures this.pagesPerBlock == pagesPerBlock && this.blockId == blockId
      ensures fresh(ptl) && ptl.Length == pagesPerBlock
      ensures View() == Blk(Pack([], pagesPerBlock), 0, 0, 0)
    {
      this.pagesPerBlock := pagesPerBlock;
      this.blockId := blockId;
      ptl := new Slot[pagesPerBlock](_ => None);
      writePos, validCnt, eraseCount := 0, 0, 0;
    }

    predicate FullyWritten()
      reads this
    {
      writePos == pagesPerBlock
    }

    predicate CanWrite()
      reads this
    {
      writePos < pagesPerBlock
    }

    predicate AllValid()
      reads this
    {
      validCnt == pagesPerBlock
    }

    predicate AllInvalid()
      reads this
    {
      validCnt == 0
    }

    method Write(logPageId: nat) returns (pos: nat)
      requires ptl.Length == pagesPerBlock && WfBlk(View(), pagesPerBlock)
      requires CanWrite()
      modifies this, ptl
      ensures pos == old(writePos)
      ensures View() == BlkWrite(old(View()), logPageId)
    {
      assert ptl[writePos] == View().ptl[writePos] == None;
      ptl[writePos] := Some(logPageId);
      validCnt := validCnt + 1;
      pos := writePos;
      writePos := writePos + 1;
    }

    method SetUnused(pos: nat)
      requires ptl.Length == pagesPerBlock && WfBlk(View(), pagesPerBlock)
      requires pos < pagesPerBlock && ptl[pos].Some?
      modifies this, ptl
      ensures old(View()).validCnt > 0
      ensures View() == BlkSetUnused(old(View()), pos)
    {
      BlkSetUnusedWf(View(), pagesPerBlock, pos);
      ptl[pos] := None;
      validCnt := validCnt - 1;
    }

    /** The overwrite loop leaves the used entries in order, then padding. */
    method CompactNoMappingUpdate()
      requires ptl.Length == pagesPerBlock
      modifies this, ptl
      ensures View() == BlkCompact(old(View()))
    {
      ghost var s := ptl[..];
      writePos := 0;
      var p := 0;
      while p < pagesPerBlock
        invariant p <= pagesPerBlock
        invariant writePos == |Used(s[..p])|
        invariant forall i :: 0 <= i < writePos ==> ptl[i] == Some(Used(s[..p])[i])
        invariant forall i :: p <= i < pagesPerBlock ==> ptl[i] == s[i]
        invariant eraseCount == old(eraseCount)
      {
        assert s[..p + 1][..p] == s[..p];
        var logpagemove := ptl[p];
        if logpagemove.Some? {
          ptl[writePos] := logpagemove;
          writePos := writePos + 1;
        }
        p := p + 1;
      }
      assert s[..p] == s;
      validCnt := writePos;
      var i := writePos;
      while i < pagesPerBlock
        invariant writePos == |Used(s)| <= i <= pagesPerBlock
        invariant forall k :: 0 <= k < writePos ==> ptl[k] == Some(Used(s)[k])
        invariant forall k :: writePos <= k < i ==> ptl[k] == None
        modifies ptl
      {
        ptl[i] := None;
        i := i + 1;
      }
      eraseCount := eraseCount + 1;
      assert ptl[..] == Pack(Used(s), |s|);
    }

    method Erase()
      requires ptl.Length == pagesPerBlock
      modifies this, ptl
      ensures View() == BlkErase(old(View()))
    {
      var i := 0;
      while i < pagesPerBlock
        invariant i <= pagesPerBlock
        invariant forall k :: 0 <= k < i ==> ptl[k] == None
        modifies ptl
      {
        ptl[i] := None;
        i := i + 1;
      }
      writePos := 0;
      eraseCount := eraseCount + 1;
      validCnt := 0;
      assert ptl[..] == Pack([], ptl.Length);
    }
  }

  /** Blocks numbered in order, no two sharing a table. */
  ghost predicate Numbered(bs: seq<Block>, pagesPerBlock: nat)
  {
    && (forall i :: 0 <= i < |bs| ==>
          bs[i].blockId == i && bs[i].pagesPerBlock == pagesPerBlock && bs[i].ptl.Length == pagesPerBlock)
    && (forall i, j :: 0 <= i < j < |bs| ==> bs[i] != bs[j] && bs[i].ptl != bs[j].ptl)
  }

  method NewBlocks(blockCount: nat, pagesPerBlock: nat) returns (bs: seq<Block>)
    ensures |bs| == blockCount && Numbered(bs, pagesPerBlock)
    ensures forall i :: 0 <= i < |bs| ==> fresh(bs[i]) && fresh(bs[i].ptl)
    ensures forall i :: 0 <= i < |bs| ==> bs[i].View() == Blk(Pack([], pagesPerBlock), 0, 0, 0)
  {
    bs := [];
    var z := 0;
    while z < blockCount
      invariant z == |bs| <= blockCount && Numbered(bs, pagesPerBlock)
      invariant forall i :: 0 <= i < z ==> fresh(bs[i]) && fresh(bs[i].ptl)
      invariant forall i :: 0 <= i < z ==> bs[i].View() == Blk(Pack([], pagesPerBlock), 0, 0, 0)
    {
      var b := new Block(pagesPerBlock, z);
      bs := bs + [b];
      z := z + 1;
    }
  }

  /** A map entry as the program stores it. */
  function Encode(ppb: nat, e: Option<Loc>): (a: Option<nat>)
  {
    match e
    case None => None
    case Some(at) => Some(Address.GetPhyAddr(ppb, at.blk, at.pos))
  }

  class SSD {
    const blockCount: nat
    const pagesPerBlock: nat
    const logicalPages: nat
    const blocks: seq<Block>
    const ltpMapping: array<Option<nat>>
    var physWrites: nat

    ghost var state: Ftl
    /** Physical writes counted before the last counter reset. */
    ghost var reported: nat

    ghost function Footprint(): set<object>
    {
      {this, ltpMapping} + (set b | b in blocks) + (set b | b in blocks :: b.ptl)
    }

    ghost predicate Shape()
    {
      && |blocks| == blockCount && pagesPerBlock > 0
      && ltpMapping.Length == logicalPages
      && Numbered(blocks, pagesPerBlock)
      && (forall i :: 0 <= i < blockCount ==> blocks[i].ptl != ltpMapping)
    }

    ghost predicate BlocksMatch(s: Ftl)
      reads blocks, set b | b in blocks :: b.ptl
    {
      && |s.blocks| == |blocks|
      && forall i :: 0 <= i < |blocks| ==> blocks[i].View() == s.blocks[i]
    }

    ghost predicate MapMatches(s: Ftl)
      reads ltpMapping
    {
      && |s.ltp| == ltpMapping.Length
      && forall l :: 0 <= l < |s.ltp| ==> ltpMapping[l] == Encode(s.ppb, s.ltp[l])
    }

    ghost predicate Valid()
      reads Footprint()
    {
      && Shape()
      && state.ppb == pagesPerBlock
      && BlocksMatch(state)
      && MapMatches(state)
      && Good(state)
      && state.phys == reported + physWrites
    }

    constructor (blockCount: nat, pagesPerBlock: nat, logicalPages: nat)
      requires pagesPerBlock > 0
      ensures Valid() && fresh(Footprint())
      ensures this.blockCount == blockCount && this.pagesPerBlock == pagesPerBlock
      ensures this.logicalPages == logicalPages
      ensures state == Fresh(pagesPerBlock, blockCount, logicalPages)
    {
      hide Good, SSD.Shape, SSD.BlocksMatch, SSD.MapMatches;
      var bs := NewBlocks(blockCount, pagesPerBlock);
      this.blockCount := blockCount;
      this.pagesPerBlock := pagesPerBlock;
      this.logicalPages := logicalPages;
      blocks := bs;
      ltpMapping := new Option<nat>[logicalPages](_ => None);
      physWrites := 0;
      state := Fresh(pagesPerBlock, blockCount, logicalPages);
      reported := 0;
      new;
      FreshGood(pagesPerBlock, blockCount, logicalPages);
      FreshShape();
      FreshMatches();
    }

    lemma FreshShape()
      requires |blocks| == blockCount && pagesPerBlock > 0 && ltpMapping.Length == logicalPages
      requires Numbered(blocks, pagesPerBlock)
      requires forall i :: 0 <= i < |blocks| ==> blocks[i].ptl != ltpMapping
      ensures Shape()
    {
    }

    lemma FreshMatches()
      requires |blocks| == blockCount && ltpMapping.Length == logicalPages
      requires forall i :: 0 <= i < |blocks| ==> blocks[i].View() == Blk(Pack([], pagesPerBlock), 0, 0, 0)
      requires forall l :: 0 <= l < logicalPages ==> ltpMapping[l] == None
      ensures BlocksMatch(Fresh(pagesPerBlock, blockCount, logicalPages))
      ensures MapMatches(Fresh(pagesPerBlock, blockCount, logicalPages))
    {
    }

    lemma Sizes()
      requires Valid()
      ensures |state.blocks| == blockCount && |state.ltp| == logicalPages && state.ppb == pagesPerBlock
      ensures Good(state) && pagesPerBlock > 0
    {
    }

    /** The map as the program stores it: entry `l` is the packed address of slot
        `p` of block `b` exactly when that slot holds `l`. */
    lemma PackedMapConsistent(l: nat, b: nat, p: nat)
      requires Valid() && l < logicalPages && b < blockCount && p < pagesPerBlock
      ensures ltpMapping[l] == Some(Address.GetPhyAddr(pagesPerBlock, b, p)) <==> blocks[b].ptl[p] == Some(l)
    {
      assert blocks[b].View() == state.blocks[b];
      if state.ltp[l].Some? {
        var at := state.ltp[l].value;
        assert Holds(state, at, l);
        Address.AddressRoundTrip(pagesPerBlock, at.blk, at.pos, 0);
        Address.AddressRoundTrip(pagesPerBlock, b, p, 0);
      }
    }

    /** Invalidates one slot of one block. */
    method SetUnused(z: nat, p: nat, ghost d: Ftl)
      requires Shape() && BlocksMatch(d) && z < blockCount
      requires WfBlk(d.blocks[z], pagesPerBlock) && p < pagesPerBlock && d.blocks[z].ptl[p].Some?
      modifies blocks[z], blocks[z].ptl
      ensures d.blocks[z].validCnt > 0 && BlocksMatch(Invalidate(d, Loc(z, p)))
    {
      assert blocks[z].View() == d.blocks[z];
      blocks[z].SetUnused(p);
    }

    /** Appends to one block. */
    method Append(block: nat, logPage: nat, ghost d: Ftl) returns (pos: nat)
      requires Shape() && BlocksMatch(d) && block < blockCount
      requires WfBlk(d.blocks[block], pagesPerBlock) && d.blocks[block].CanWrite()
      modifies blocks[block], blocks[block].ptl
      ensures pos == d.blocks[block].writePos
      ensures BlocksMatch(Appended(d, logPage, block))
    {
      assert blocks[block].View() == d.blocks[block];
      pos := blocks[block].Write(logPage);
    }

    /** Points one map entry at slot `pos` of block `block`. */
    method MapPage(logPage: nat, block: nat, pos: nat, ghost d: Ftl)
      requires Shape() && logPage < logicalPages && block < blockCount
      requires BlocksMatch(d) && MapMatches(d) && d.ppb == pagesPerBlock
      modifies ltpMapping
      ensures BlocksMatch(Pointed(d, logPage, Loc(block, pos))) && MapMatches(Pointed(d, logPage, Loc(block, pos)))
    {
      ltpMapping[logPage] := Some(Address.GetPhyAddr(pagesPerBlock, blocks[block].blockId, pos));
      assert forall i :: 0 <= i < |blocks| ==> blocks[i].View() == old(blocks[i].View());
    }

    method Supersede(logPage: nat)
      requires Valid() && logPage < logicalPages
      modifies set b | b in blocks, set b | b in blocks :: b.ptl
      ensures BlocksMatch(Dropped(state, logPage)) && MapMatches(state)
    {
      var addr := ltpMapping[logPage];
      if addr.Some? {
        ghost var at := state.ltp[logPage].value;
        assert Holds(state, at, logPage);
        Address.AddressRoundTrip(pagesPerBlock, at.blk, at.pos, 0);
        SetUnused(Address.GetBlockId(pagesPerBlock, addr.value), Address.GetPagePos(pagesPerBlock, addr.value), state);
      }
    }

    method Store(logPage: nat, block: nat)
      requires Valid() && logPage < logicalPages && block < blockCount
      requires state.blocks[block].CanWrite()
      modifies ltpMapping, set b | b in blocks, set b | b in blocks :: b.ptl
      ensures var r := Flash.WritePage(state, logPage, block); BlocksMatch(r) && MapMatches(r)
    {
      hide Dropped, Appended, Good, BlkWrite;
      Supersede(logPage);
      ghost var d1 := Dropped(state, logPage);
      var pos := Append(block, logPage, d1);
      MapPage(logPage, block, pos, Appended(d1, logPage, block));
    }

    method WritePage(logPage: nat, block: nat)
      requires Valid() && logPage < logicalPages && block < blockCount
      requires state.blocks[block].CanWrite()
      modifies Footprint()
      ensures Valid() && reported == old(reported)
      ensures state == Flash.WritePage(old(state), logPage, block)
    {
      hide Dropped, Appended, Good, BlkWrite;
      Store(logPage, block);
      physWrites := physWrites + 1;
      WritePageGood(state, logPage, block);
      state := Flash.WritePage(state, logPage, block);
    }

    method EraseBlock(blockId: nat)
      requires Valid() && blockId < blockCount
      requires state.blocks[blockId].AllInvalid()
      modifies Footprint()
      ensures Valid() && reported == old(reported)
      ensures state == Flash.EraseBlock(old(state), blockId)
    {
      hide Good, Pack;
      assert blocks[blockId].View() == state.blocks[blockId];
      blocks[blockId].Erase();
      assert BlocksMatch(Flash.EraseBlock(state, blockId));
      EraseGood(state, blockId);
      state := Flash.EraseBlock(state, blockId);
      assert blocks[blockId].View().IsErased();
    }

    /** The entries of the listed pages are those of `r`, all others those of `d`. */
    ghost predicate MapUpTo(d: Ftl, r: Ftl, pages: seq<nat>)
      reads ltpMapping
    {
      && |d.ltp| == |r.ltp| == ltpMapping.Length
      && forall l :: 0 <= l < |d.ltp| ==> ltpMapping[l] == Encode(d.ppb, if l in pages then r.ltp[l] else d.ltp[l])
    }

    /** The loop body of the remapping: the page in slot `p` is mapped there. */
    method RemapSlot(block: nat, p: nat, ghost d: Ftl, ghost pages: seq<nat>)
      requires Shape() && block < blockCount && Good(d) && |d.blocks| == blockCount && d.ppb == pagesPerBlock
      requires pages == Used(d.blocks[block].ptl) && p < |pages| && |pages| <= pagesPerBlock
      requires blocks[block].View() == BlkCompact(d.blocks[block])
      requires MapUpTo(d, Flash.CompactBlock(d, block), pages[..p])
      modifies `physWrites, ltpMapping
      ensures physWrites == old(physWrites) + 1
      ensures blocks[block].View() == BlkCompact(d.blocks[block])
      ensures MapUpTo(d, Flash.CompactBlock(d, block), pages[..p + 1])
    {
      hide Good, Used, Remapped;
      BlockFacts(d, block);
      CompactRemaps(d, block, p);
      assert blocks[block].View().ptl[p] == Some(pages[p]);
      var logPage := blocks[block].ptl[p].value;
      ltpMapping[logPage] := Some(Address.GetPhyAddr(pagesPerBlock, blocks[block].blockId, p));
      physWrites := physWrites + 1;
      assert pages[..p + 1] == pages[..p] + [pages[p]];
    }

    lemma MapDone(block: nat, d: Ftl)
      requires block < |d.blocks| && Good(d)
      requires MapUpTo(d, Flash.CompactBlock(d, block), Used(d.blocks[block].ptl))
      ensures MapMatches(Flash.CompactBlock(d, block))
    {
      forall l | 0 <= l < |d.ltp| && l !in Used(d.blocks[block].ptl)
        ensures Flash.CompactBlock(d, block).ltp[l] == d.ltp[l]
      {
        CompactKeeps(d, block, l);
      }
    }

    /** Points the map at the new place of every page of a compacted block. */
    method UpdateMapping(block: nat, ghost d: Ftl)
      requires Shape() && block < blockCount && Good(d) && |d.blocks| == blockCount && d.ppb == pagesPerBlock
      requires BlocksMatch(Flash.CompactBlock(d, block)) && MapMatches(d)
      modifies `physWrites, ltpMapping
      ensures BlocksMatch(Flash.CompactBlock(d, block)) && MapMatches(Flash.CompactBlock(d, block))
      ensures physWrites == old(physWrites) + |Used(d.blocks[block].ptl)|
    {
      hide Good, Used, Remapped, Pack;
      ghost var r := Flash.CompactBlock(d, block);
      ghost var pages := Used(d.blocks[block].ptl);
      BlockFacts(d, block);
      assert blocks[block].View() == r.blocks[block];
      var p := 0;
      while p < blocks[block].writePos
        invariant BlocksMatch(r) && blocks[block].View() == r.blocks[block]
        invariant p <= |pages| && physWrites == old(physWrites) + p
        invariant MapUpTo(d, r, pages[..p])
      {
        RemapSlot(block, p, d, pages);
        p := p + 1;
      }
      assert pages[..p] == pages;
      MapDone(block, d);
    }

    /** Compacts the slots of a block, then remaps its pages. */
    method CompactBlock(block: nat)
      requires Valid() && block < blockCount
      modifies Footprint()
      ensures Valid() && reported == old(reported)
      ensures state == Flash.CompactBlock(old(state), block)
    {
      hide Good, Pack, Used, Remapped;
      ghost var d := state;
      ghost var r := Flash.CompactBlock(d, block);
      assert blocks[block].View() == d.blocks[block];
      blocks[block].CompactNoMappingUpdate();
      assert BlocksMatch(r);
      CompactGood(d, block);
      UpdateMapping(block, d);
      state := r;
    }

    /** The loop body of the migration scan. */
    method MoveSlot(sourceId: nat, destinationId: nat, p: nat)
      requires Valid() && sourceId < blockCount && destinationId < blockCount
      requires p < pagesPerBlock && state.blocks[destinationId].CanWrite()
      modifies Footprint()
      ensures Valid() && reported == old(reported)
      ensures state == Migration.MoveStep(old(state), sourceId, destinationId, p)
    {
      assert blocks[sourceId].View() == state.blocks[sourceId];
      var slot := blocks[sourceId].ptl[p];
      if slot.Some? {
        assert state.blocks[sourceId].ptl[p].Some?;
        WritePage(slot.value, destinationId);
      }
    }

    /** Moves valid pages until the source is scanned or the destination is full;
        tells whether pages are left behind. */
    method MoveValidPagesTo(sourceId: nat, destinationId: nat) returns (left: bool)
      requires Valid() && sourceId < blockCount && destinationId < blockCount
      modifies Footprint()
      ensures Valid() && reported == old(reported)
      ensures state == Migration.MoveValidPages(old(state), sourceId, destinationId)
      ensures left <==> !state.blocks[sourceId].AllInvalid()
    {
      hide Good, Migration.MoveStep, Valid, Conserved, Mapped;
      Sizes();
      var p := 0;
      ghost var goal := Migration.MoveValidPages(state, sourceId, destinationId);
      while p < pagesPerBlock && CanWriteTo(destinationId)
        invariant Valid() && p <= pagesPerBlock && reported == old(reported)
        invariant Good(state) && |state.blocks| == blockCount && state.ppb == pagesPerBlock
        invariant Migration.MoveFrom(state, sourceId, destinationId, p) == goal
      {
        ghost var next := Migration.MoveStep(state, sourceId, destinationId, p);
        assert Migration.MoveFrom(next, sourceId, destinationId, p + 1) == goal;
        MoveSlot(sourceId, destinationId, p);
        Sizes();
        assert state == next;
        p := p + 1;
      }
      left := !IsAllInvalid(sourceId);
    }

    function ValidCntOf(b: nat): (n: nat)
      requires Valid() && b < blockCount
      reads Footprint()
      ensures n == state.blocks[b].validCnt
    {
      assert blocks[b].View() == state.blocks[b];
      blocks[b].validCnt
    }

    predicate IsFullyWritten(b: nat)
      requires Valid() && b < blockCount
      reads Footprint()
      ensures IsFullyWritten(b) <==> state.blocks[b].FullyWritten()
    {
      assert blocks[b].View() == state.blocks[b];
      blocks[b].FullyWritten()
    }

    predicate IsAllValid(b: nat)
      requires Valid() && b < blockCount
      reads Footprint()
      ensures IsAllValid(b) <==> state.blocks[b].AllValid()
    {
      assert blocks[b].View() == state.blocks[b];
      blocks[b].AllValid()
    }

    predicate IsAllInvalid(b: nat)
      requires Valid() && b < blockCount
      reads Footprint()
      ensures IsAllInvalid(b) <==> state.blocks[b].AllInvalid()
    {
      assert blocks[b].View() == state.blocks[b];
      blocks[b].AllInvalid()
    }

    predicate CanWriteTo(b: nat)
      requires Valid() && b < blockCount
      reads Footprint()
      ensures CanWriteTo(b) <==> state.blocks[b].CanWrite()
    {
      assert blocks[b].View() == state.blocks[b];
      blocks[b].CanWrite()
    }

    /** Chained compaction of a victim list; `ok` is false where the program throws:
        an empty list, or valid pages left in the first victim. */
    method CompactVictims(victims: seq<nat>) returns (ok: bool)
      requires Valid() && Chain.FullVictims(state, victims)
      modifies Footprint()
      ensures Valid() && reported == old(reported)
      ensures Chain.CompactList(old(state), victims) == if ok then Some(state) else None
    {
      hide Valid, Good, Conserved, Mapped, Chain.Link, Chain.Links, Flash.EraseBlock;
      Sizes();
      if |victims| == 0 {
        return false;
      }
      Chain.LinksOne(state, victims);
      if |victims| == 1 {
        ok := IsAllInvalid(victims[0]);
        if ok {
          EraseBlock(victims[0]);
        }
        return;
      }
      ghost var goal := Chain.Links(state, victims);
      var i := |victims| - 1;
      assert victims[..i + 1] == victims;
      while i > 0
        invariant Valid() && reported == old(reported) && 0 <= i < |victims|
        invariant Good(state) && |state.blocks| == blockCount
        invariant Chain.FullVictims(state, victims[..i + 1]) && Chain.Links(state, victims[..i + 1]) == goal
      {
        ghost var us := victims[..i + 1];
        assert us[..i] == victims[..i] && us[i] == victims[i] && us[i - 1] == victims[i - 1];
        Chain.LinksStep(state, us);
        Chain.LinkIs(state, victims[i - 1], victims[i]);
        CompactBlock(victims[i]);
        var left := MoveValidPagesTo(victims[i - 1], victims[i]);
        Sizes();
        i := i - 1;
      }
      Chain.LinksOne(state, victims[..1]);
      ok := IsAllInvalid(victims[0]);
      if ok {
        EraseBlock(victims[0]);
      }
    }

    /** The report counter restarts; the cumulative count does not. */
    method ResetPhysicalCounters()
      requires Valid()
      modifies `physWrites, `reported
      ensures Valid() && state == old(state) && physWrites == 0
    {
      reported := reported + physWrites;
      physWrites := 0;
    }
  }
}
