/** The flash translation layer as a value: per-block physical-to-logical tables,
    the logical-to-physical map and the counters, with every operation of the
    simulated device as a function on that value. */
module Flash {
  import opened Options
  import opened Sums
  import Lists

  /** A table slot: the logical page it holds, or unused. */
  type Slot = Option<nat>

  datatype Loc = Loc(blk: nat, pos: nat)

  /* ---------- one erase block ---------- */

  datatype Blk = Blk(ptl: seq<Slot>, writePos: nat, validCnt: nat, eraseCount: nat) {
    predicate FullyWritten() { writePos == |ptl| }
    predicate CanWrite() { writePos < |ptl| }
    predicate AllValid() { validCnt == |ptl| }
    predicate AllInvalid() { validCnt == 0 }
    predicate IsErased() { writePos == 0 }
  }

  function ValidOf(b: Blk): nat { b.validCnt }
  function WrittenOf(b: Blk): nat { b.writePos }
  function ErasesOf(b: Blk): nat { b.eraseCount }

  /** The logical pages held by a table, in slot order. */
  function Used(s: seq<Slot>): (r: seq<nat>)
    ensures |r| <= |s|
  {
    if |s| == 0 then []
    else
      var last := s[|s| - 1];
      Used(s[..|s| - 1]) + if last.Some? then [last.value] else []
  }

  /** How many used slots precede `p`: the slot's place after compaction. */
  function Rank(s: seq<Slot>, p: nat): (r: nat)
    requires p <= |s|
  {
    |Used(s[..p])|
  }

  /** A table whose used slots come first, followed by unused padding. */
  function Pack(pages: seq<nat>, n: nat): (s: seq<Slot>)
    requires |pages| <= n
    ensures |s| == n
    ensures forall i :: 0 <= i < |pages| ==> s[i] == Some(pages[i])
    ensures forall i :: |pages| <= i < n ==> s[i] == None
  {
    seq(n, i requires 0 <= i < n => if i < |pages| then Some(pages[i]) else None)
  }

  ghost predicate WfBlk(b: Blk, ppb: nat)
  {
    && |b.ptl| == ppb
    && b.writePos <= ppb
    && b.validCnt == |Used(b.ptl)|
    && forall p :: b.writePos <= p < ppb ==> b.ptl[p] == None
  }

  lemma {:induction false} UsedConcat(a: seq<Slot>, b: seq<Slot>)
    ensures Used(a + b) == Used(a) + Used(b)
  {
    if |b| == 0 {
      assert a + b == a;
    } else {
      var n := |b| - 1;
      UsedConcat(a, b[..n]);
      assert (a + b)[..|a + b| - 1] == a + b[..n];
    }
  }

  lemma UsedOne(x: Slot)
    ensures Used([x]) == if x.Some? then [x.value] else []
  {
    var one: seq<Slot> := [x];
    assert one[..0] == [];
  }

  lemma UsedAround(a: seq<Slot>, x: Slot, b: seq<Slot>)
    ensures Used(a + [x] + b) == Used(a) + (if x.Some? then [x.value] else []) + Used(b)
  {
    hide Used;
    UsedConcat(a + [x], b);
    UsedConcat(a, [x]);
    UsedOne(x);
  }

  /** A table splits at any slot. */
  lemma UsedSplit(s: seq<Slot>, p: nat)
    requires p < |s|
    ensures Used(s) == Used(s[..p]) + (if s[p].Some? then [s[p].value] else []) + Used(s[p + 1..])
  {
    hide Used;
    Lists.SplitAt(s, p);
    UsedAround(s[..p], s[p], s[p + 1..]);
  }

  lemma UsedUpdate(s: seq<Slot>, p: nat, x: Slot)
    requires p < |s|
    ensures |Used(s[p := x])| + (if s[p].Some? then 1 else 0) == |Used(s)| + (if x.Some? then 1 else 0)
  {
    UsedSplit(s, p);
    UsedSplit(s[p := x], p);
    assert s[p := x][..p] == s[..p];
    assert s[p := x][p + 1..] == s[p + 1..];
  }

  /** The used slot `p` is entry `Rank(s, p)` of the filtered table. */
  lemma UsedAtRank(s: seq<Slot>, p: nat)
    requires p < |s| && s[p].Some?
    ensures Rank(s, p) < |Used(s)| && Used(s)[Rank(s, p)] == s[p].value
  {
    UsedSplit(s, p);
  }

  /** Every entry of the filtered table comes from a slot of that rank. */
  lemma {:induction false} UsedSource(s: seq<Slot>, q: nat) returns (p: nat)
    requires q < |Used(s)|
    ensures p < |s| && s[p] == Some(Used(s)[q]) && Rank(s, p) == q
  {
    var n := |s| - 1;
    if q < |Used(s[..n])| {
      p := UsedSource(s[..n], q);
      assert s[..n][..p] == s[..p];
    } else {
      p := n;
    }
  }

  /** A table is all used exactly when as many pages as slots are counted. */
  lemma {:induction false} UsedNone(s: seq<Slot>)
    requires |Used(s)| == 0
    ensures forall p :: 0 <= p < |s| ==> s[p] == None
  {
    if |s| == 0 {
    } else {
      UsedNone(s[..|s| - 1]);
    }
  }

  lemma {:induction false} UsedBound(s: seq<Slot>, w: nat)
    requires w <= |s|
    requires forall p :: w <= p < |s| ==> s[p] == None
    ensures |Used(s)| <= w
  {
    if w == |s| {
    } else {
      UsedBound(s[..|s| - 1], w);
    }
  }

  lemma {:induction false} UsedPack(pages: seq<nat>, n: nat)
    requires |pages| <= n
    ensures Used(Pack(pages, n)) == pages
    decreases n
  {
    var s := Pack(pages, n);
    if n == 0 {
    } else {
      if |pages| == n {
        UsedPack(pages[..n - 1], n - 1);
        assert s[..n - 1] == Pack(pages[..n - 1], n - 1);
        assert pages == pages[..n - 1] + [pages[n - 1]];
      } else {
        UsedPack(pages, n - 1);
        assert s[..n - 1] == Pack(pages, n - 1);
      }
    }
  }

  function BlkWrite(b: Blk, l: nat): (r: Blk)
    requires b.CanWrite()
  {
    Blk(b.ptl[b.writePos := Some(l)], b.writePos + 1, b.validCnt + 1, b.eraseCount)
  }

  function BlkSetUnused(b: Blk, p: nat): (r: Blk)
    requires p < |b.ptl| && b.ptl[p].Some? && b.validCnt > 0
  {
    Blk(b.ptl[p := None], b.writePos, b.validCnt - 1, b.eraseCount)
  }

  function BlkCompact(b: Blk): (r: Blk)
  {
    var u := Used(b.ptl);
    Blk(Pack(u, |b.ptl|), |u|, |u|, b.eraseCount + 1)
  }

  function BlkErase(b: Blk): (r: Blk)
  {
    Blk(Pack([], |b.ptl|), 0, 0, b.eraseCount + 1)
  }

  lemma BlkWriteWf(b: Blk, ppb: nat, l: nat)
    requires WfBlk(b, ppb) && b.CanWrite()
    ensures b.ptl[b.writePos] == None
    ensures WfBlk(BlkWrite(b, l), ppb)
  {
    UsedUpdate(b.ptl, b.writePos, Some(l));
  }

  lemma BlkSetUnusedWf(b: Blk, ppb: nat, p: nat)
    requires WfBlk(b, ppb) && p < ppb && b.ptl[p].Some?
    ensures b.validCnt > 0 && WfBlk(BlkSetUnused(b, p), ppb)
  {
    UsedUpdate(b.ptl, p, None);
  }

  lemma BlkCompactWf(b: Blk, ppb: nat)
    requires WfBlk(b, ppb)
    ensures WfBlk(BlkCompact(b), ppb) && BlkCompact(b).validCnt == b.validCnt
  {
    UsedPack(Used(b.ptl), |b.ptl|);
  }

  lemma BlkEraseWf(b: Blk, ppb: nat)
    requires WfBlk(b, ppb)
    ensures WfBlk(BlkErase(b), ppb)
  {
    UsedPack([], |b.ptl|);
  }

  lemma ValidAtMostWritten(b: Blk, ppb: nat)
    requires WfBlk(b, ppb)
    ensures b.validCnt <= b.writePos
  {
    UsedBound(b.ptl, b.writePos);
  }

  /* ---------- the whole device ---------- */

  /** `phys` counts physical page writes since construction; the simulator's own
      counter is reset between reports. */
  datatype Ftl = Ftl(ppb: nat, blocks: seq<Blk>, ltp: seq<Option<Loc>>, phys: nat) {
    function Valid(): nat { Sum(ValidOf, blocks) }
    function Written(): nat { Sum(WrittenOf, blocks) }
    function Erases(): nat { Sum(ErasesOf, blocks) }
    function Capacity(): nat { ppb * |blocks| }
  }

  ghost predicate Wf(d: Ftl)
  {
    && d.ppb > 0
    && forall b :: 0 <= b < |d.blocks| ==> WfBlk(d.blocks[b], d.ppb)
  }

  ghost predicate Holds(d: Ftl, at: Loc, l: nat)
  {
    && at.blk < |d.blocks|
    && at.pos < |d.blocks[at.blk].ptl|
    && d.blocks[at.blk].ptl[at.pos] == Some(l)
  }

  /** The two tables are inverse to each other. */
  ghost predicate Consistent(d: Ftl)
  {
    && (forall l :: 0 <= l < |d.ltp| && d.ltp[l].Some? ==> Holds(d, d.ltp[l].value, l))
    && (forall b, p :: 0 <= b < |d.blocks| && 0 <= p < |d.blocks[b].ptl| && d.blocks[b].ptl[p].Some? ==>
          && d.blocks[b].ptl[p].value < |d.ltp|
          && d.ltp[d.blocks[b].ptl[p].value] == Some(Loc(b, p)))
  }

  ghost predicate Good(d: Ftl)
  {
    Wf(d) && Consistent(d)
  }

  lemma BlockFacts(d: Ftl, b: nat)
    requires Good(d) && b < |d.blocks|
    ensures |d.blocks[b].ptl| == d.ppb && d.blocks[b].validCnt <= d.blocks[b].writePos <= d.ppb && d.ppb > 0
  {
    assert WfBlk(d.blocks[b], d.ppb);
    ValidAtMostWritten(d.blocks[b], d.ppb);
  }

  /** Flash conservation: every physical write still occupies a slot or was
      wiped by an erase of a fully written block. */
  ghost predicate Conserved(d: Ftl)
  {
    d.phys == d.Written() + d.ppb * d.Erases()
  }

  ghost function Mapped(d: Ftl): set<nat>
  {
    set l | 0 <= l < |d.ltp| && d.ltp[l].Some?
  }

  function Fresh(ppb: nat, blockCount: nat, logicalPages: nat): (d: Ftl)
  {
    Ftl(ppb,
        seq(blockCount, _ => Blk(Pack([], ppb), 0, 0, 0)),
        seq(logicalPages, _ => None),
        0)
  }

  lemma FreshGood(ppb: nat, blockCount: nat, logicalPages: nat)
    requires ppb > 0
    ensures var d := Fresh(ppb, blockCount, logicalPages);
            Good(d) && Conserved(d) && Mapped(d) == {} && d.Valid() == 0 && d.Written() == 0 && d.Erases() == 0
  {
    var d := Fresh(ppb, blockCount, logicalPages);
    UsedPack([], ppb);
    SumZero(ValidOf, d.blocks);
    SumZero(WrittenOf, d.blocks);
    SumZero(ErasesOf, d.blocks);
  }

  /* ---------- operations ---------- */

  function Invalidate(d: Ftl, at: Loc): (r: Ftl)
    requires at.blk < |d.blocks| && at.pos < |d.blocks[at.blk].ptl|
    requires d.blocks[at.blk].ptl[at.pos].Some? && d.blocks[at.blk].validCnt > 0
  {
    d.(blocks := d.blocks[at.blk := BlkSetUnused(d.blocks[at.blk], at.pos)])
  }

  /** The blocks after the superseded copy of `l`, if any, is marked unused. */
  function Dropped(d: Ftl, l: nat): (r: Ftl)
    requires Good(d) && l < |d.ltp|
    ensures Wf(r) && |r.blocks| == |d.blocks| && r.ltp == d.ltp && r.ppb == d.ppb && r.phys == d.phys
    ensures forall b :: 0 <= b < |d.blocks| ==> r.blocks[b].writePos == d.blocks[b].writePos
  {
    if d.ltp[l].Some? then
      var at := d.ltp[l].value;
      assert Holds(d, at, l);
      BlkSetUnusedWf(d.blocks[at.blk], d.ppb, at.pos);
      Invalidate(d, at)
    else d
  }

  /** The device after `l` is appended to block `b`, before the map knows. */
  function Appended(d: Ftl, l: nat, b: nat): (r: Ftl)
    requires b < |d.blocks| && d.blocks[b].CanWrite()
    ensures |r.blocks| == |d.blocks| && r.ltp == d.ltp && r.ppb == d.ppb && r.phys == d.phys
  {
    d.(blocks := d.blocks[b := BlkWrite(d.blocks[b], l)])
  }

  /** The map is pointed at the new copy and the physical write is counted. */
  function Pointed(d: Ftl, l: nat, at: Loc): (r: Ftl)
    requires l < |d.ltp|
  {
    d.(ltp := d.ltp[l := Some(at)], phys := d.phys + 1)
  }

  function WritePage(d: Ftl, l: nat, b: nat): (r: Ftl)
    requires Good(d) && l < |d.ltp| && b < |d.blocks| && d.blocks[b].CanWrite()
  {
    var d1 := Dropped(d, l);
    Pointed(Appended(d1, l, b), l, Loc(b, d1.blocks[b].writePos))
  }

  function Remapped(d: Ftl, b: nat): (r: seq<Option<Loc>>)
    requires b < |d.blocks|
    ensures |r| == |d.ltp|
  {
    seq(|d.ltp|, l requires 0 <= l < |d.ltp| =>
      if d.ltp[l].Some? && d.ltp[l].value.blk == b && d.ltp[l].value.pos <= |d.blocks[b].ptl|
      then Some(Loc(b, Rank(d.blocks[b].ptl, d.ltp[l].value.pos)))
      else d.ltp[l])
  }

  function CompactBlock(d: Ftl, b: nat): (r: Ftl)
    requires b < |d.blocks|
  {
    d.(blocks := d.blocks[b := BlkCompact(d.blocks[b])],
       ltp := Remapped(d, b),
       phys := d.phys + |Used(d.blocks[b].ptl)|)
  }

  function EraseBlock(d: Ftl, b: nat): (r: Ftl)
    requires b < |d.blocks|
  {
    d.(blocks := d.blocks[b := BlkErase(d.blocks[b])])
  }

  /* ---------- host and migration writes ---------- */

  lemma WritePageWf(d: Ftl, l: nat, b: nat)
    requires Good(d) && l < |d.ltp| && b < |d.blocks| && d.blocks[b].CanWrite()
    ensures Wf(WritePage(d, l, b))
  {
    BlkWriteWf(Dropped(d, l).blocks[b], d.ppb, l);
  }

  lemma WritePageMapHolds(d: Ftl, l: nat, b: nat, k: nat)
    requires Good(d) && l < |d.ltp| && b < |d.blocks| && d.blocks[b].CanWrite()
    requires k < |d.ltp| && WritePage(d, l, b).ltp[k].Some?
    ensures Holds(WritePage(d, l, b), WritePage(d, l, b).ltp[k].value, k)
  {
    BlkWriteWf(Dropped(d, l).blocks[b], d.ppb, l);
    if k != l {
      assert Holds(d, d.ltp[k].value, k);
    }
  }

  lemma WritePageSlotMapped(d: Ftl, l: nat, b: nat, c: nat, p: nat)
    requires Good(d) && l < |d.ltp| && b < |d.blocks| && d.blocks[b].CanWrite()
    requires c < |d.blocks| && p < |WritePage(d, l, b).blocks[c].ptl|
    requires WritePage(d, l, b).blocks[c].ptl[p].Some?
    ensures var r := WritePage(d, l, b);
            r.blocks[c].ptl[p].value < |r.ltp| && r.ltp[r.blocks[c].ptl[p].value] == Some(Loc(c, p))
  {
    var d1 := Dropped(d, l);
    var r := WritePage(d, l, b);
    if c != b || p != d1.blocks[b].writePos {
      assert r.blocks[c].ptl[p] == d1.blocks[c].ptl[p] == d.blocks[c].ptl[p];
    }
  }

  lemma WritePageConsistent(d: Ftl, l: nat, b: nat)
    requires Good(d) && l < |d.ltp| && b < |d.blocks| && d.blocks[b].CanWrite()
    ensures Consistent(WritePage(d, l, b))
  {
    hide Good, Dropped, Holds;
    var r := WritePage(d, l, b);
    forall k | 0 <= k < |r.ltp| && r.ltp[k].Some?
      ensures Holds(r, r.ltp[k].value, k)
    {
      WritePageMapHolds(d, l, b, k);
    }
    forall c, p | 0 <= c < |r.blocks| && 0 <= p < |r.blocks[c].ptl| && r.blocks[c].ptl[p].Some?
      ensures r.blocks[c].ptl[p].value < |r.ltp| && r.ltp[r.blocks[c].ptl[p].value] == Some(Loc(c, p))
    {
      WritePageSlotMapped(d, l, b, c, p);
    }
  }

  lemma WritePageGood(d: Ftl, l: nat, b: nat)
    requires Good(d) && l < |d.ltp| && b < |d.blocks| && d.blocks[b].CanWrite()
    ensures Good(WritePage(d, l, b))
  {
    WritePageWf(d, l, b);
    WritePageConsistent(d, l, b);
  }

  lemma CompactGood(d: Ftl, b: nat)
    requires Good(d) && b < |d.blocks|
    ensures Good(CompactBlock(d, b))
  {
    CompactWf(d, b);
    CompactConsistent(d, b);
  }

  lemma DroppedSums(d: Ftl, l: nat)
    requires Good(d) && l < |d.ltp|
    ensures Dropped(d, l).Written() == d.Written() && Dropped(d, l).Erases() == d.Erases()
  {
    if d.ltp[l].Some? {
      var at := d.ltp[l].value;
      assert Holds(d, at, l);
      BlkSetUnusedWf(d.blocks[at.blk], d.ppb, at.pos);
      var b := BlkSetUnused(d.blocks[at.blk], at.pos);
      SumUpdate(WrittenOf, d.blocks, at.blk, b);
      SumUpdate(ErasesOf, d.blocks, at.blk, b);
    }
  }

  lemma WritePageSums(d: Ftl, l: nat, b: nat)
    requires Good(d) && l < |d.ltp| && b < |d.blocks| && d.blocks[b].CanWrite()
    ensures var r := WritePage(d, l, b); r.Written() == d.Written() + 1 && r.Erases() == d.Erases()
  {
    var d1 := Dropped(d, l);
    DroppedSums(d, l);
    var w := BlkWrite(d1.blocks[b], l);
    SumUpdate(WrittenOf, d1.blocks, b, w);
    SumUpdate(ErasesOf, d1.blocks, b, w);
  }

  /** What one page write does to the map and to every counter. */
  lemma WritePageEffect(d: Ftl, l: nat, b: nat)
    requires Good(d) && l < |d.ltp| && b < |d.blocks| && d.blocks[b].CanWrite()
    ensures var r := WritePage(d, l, b);
      && Good(r)
      && Mapped(r) == Mapped(d) + {l}
      && r.Written() == d.Written() + 1
      && r.Erases() == d.Erases()
      && r.phys == d.phys + 1
      && (Conserved(d) ==> Conserved(r))
      && |r.blocks| == |d.blocks| && |r.ltp| == |d.ltp| && r.ppb == d.ppb
      && r.blocks[b].writePos == d.blocks[b].writePos + 1
      && (forall c :: 0 <= c < |d.blocks| && c != b ==> r.blocks[c].writePos == d.blocks[c].writePos)
  {
    WritePageGood(d, l, b);
    WritePageSums(d, l, b);
    WritePageMapped(d, l, b);
  }

  lemma WritePageMapped(d: Ftl, l: nat, b: nat)
    requires Good(d) && l < |d.ltp| && b < |d.blocks| && d.blocks[b].CanWrite()
    ensures Mapped(WritePage(d, l, b)) == Mapped(d) + {l}
  {
    var r := WritePage(d, l, b);
    forall k | 0 <= k < |d.ltp|
      ensures k in Mapped(r) <==> k in Mapped(d) + {l}
    {
      assert r.ltp[k] == if k == l then Some(Loc(b, Dropped(d, l).blocks[b].writePos)) else d.ltp[k];
    }
  }

  /** Where a written page goes, and that nothing else moves: its map entry points at
      the next slot of the target block, its old slot is unused, every other map entry
      and every other slot is as before. */
  lemma WritePagePlaces(d: Ftl, l: nat, b: nat)
    requires Good(d) && l < |d.ltp| && b < |d.blocks| && d.blocks[b].CanWrite()
    ensures var r, w := WritePage(d, l, b), d.blocks[b].writePos;
      && |r.ltp| == |d.ltp| && |r.blocks| == |d.blocks|
      && r.ltp[l] == Some(Loc(b, w))
      && (forall k :: 0 <= k < |d.ltp| && k != l ==> r.ltp[k] == d.ltp[k])
      && (forall c :: 0 <= c < |d.blocks| ==>
            |r.blocks[c].ptl| == |d.blocks[c].ptl| && r.blocks[c].eraseCount == d.blocks[c].eraseCount)
      && w < |r.blocks[b].ptl| && r.blocks[b].ptl[w] == Some(l)
      && (forall c, p :: 0 <= c < |d.blocks| && 0 <= p < |d.blocks[c].ptl| && (c != b || p != w) ==>
            r.blocks[c].ptl[p] == if d.ltp[l] == Some(Loc(c, p)) then None else d.blocks[c].ptl[p])
  {
    hide Used, ValidOf, WrittenOf, ErasesOf;
    if d.ltp[l].Some? {
      assert Holds(d, d.ltp[l].value, l);
    }
  }

  /* ---------- compaction ---------- */

  lemma CompactWf(d: Ftl, b: nat)
    requires Good(d) && b < |d.blocks|
    ensures Wf(CompactBlock(d, b))
  {
    BlkCompactWf(d.blocks[b], d.ppb);
  }

  lemma CompactConsistent(d: Ftl, b: nat)
    requires Good(d) && b < |d.blocks|
    ensures Consistent(CompactBlock(d, b))
  {
    var r := CompactBlock(d, b);
    var s := d.blocks[b].ptl;
    forall k | 0 <= k < |r.ltp| && r.ltp[k].Some?
      ensures Holds(r, r.ltp[k].value, k)
    {
      assert Holds(d, d.ltp[k].value, k);
      if d.ltp[k].value.blk == b {
        UsedAtRank(s, d.ltp[k].value.pos);
      }
    }
    forall c, p | 0 <= c < |r.blocks| && 0 <= p < |r.blocks[c].ptl| && r.blocks[c].ptl[p].Some?
      ensures r.blocks[c].ptl[p].value < |r.ltp| && r.ltp[r.blocks[c].ptl[p].value] == Some(Loc(c, p))
    {
      if c == b {
        assert p < |Used(s)|;
        var q := UsedSource(s, p);
        assert d.blocks[b].ptl[q].Some?;
      } else {
        assert d.blocks[c].ptl[p].Some?;
      }
    }
  }

  lemma CompactSums(d: Ftl, b: nat)
    requires Good(d) && b < |d.blocks|
    ensures var r := CompactBlock(d, b);
      && r.blocks[b].writePos == r.blocks[b].validCnt == d.blocks[b].validCnt
      && r.Valid() == d.Valid()
      && r.Written() + d.blocks[b].writePos == d.Written() + d.blocks[b].validCnt
      && r.Erases() == d.Erases() + 1
      && r.phys == d.phys + d.blocks[b].validCnt
  {
    var c := BlkCompact(d.blocks[b]);
    assert WfBlk(d.blocks[b], d.ppb);
    BlkCompactWf(d.blocks[b], d.ppb);
    hide Sum;
    SumUpdate(ValidOf, d.blocks, b, c);
    SumUpdate(WrittenOf, d.blocks, b, c);
    SumUpdate(ErasesOf, d.blocks, b, c);
  }

  lemma CompactMapped(d: Ftl, b: nat)
    requires b < |d.blocks|
    ensures Mapped(CompactBlock(d, b)) == Mapped(d)
  {
    forall l | 0 <= l < |d.ltp|
      ensures d.ltp[l].Some? <==> CompactBlock(d, b).ltp[l].Some?
    {
    }
  }

  lemma ConservedAfterWipe(d: Ftl, r: Ftl, kept: nat)
    requires Conserved(d) && r.ppb == d.ppb
    requires r.Written() + d.ppb == d.Written() + kept
    requires r.Erases() == d.Erases() + 1 && r.phys == d.phys + kept
    ensures Conserved(r)
  {
    hide Ftl.Written, Ftl.Erases;
    assert d.ppb * (d.Erases() + 1) == d.ppb * d.Erases() + d.ppb;
  }

  /** What compacting a block does to the map and to every counter. */
  lemma CompactEffect(d: Ftl, b: nat)
    requires Good(d) && b < |d.blocks|
    ensures var r := CompactBlock(d, b);
      && Good(r)
      && Mapped(r) == Mapped(d)
      && r.blocks[b].writePos == r.blocks[b].validCnt == d.blocks[b].validCnt
      && r.Valid() == d.Valid()
      && r.Written() + d.blocks[b].writePos == d.Written() + d.blocks[b].validCnt
      && r.Erases() == d.Erases() + 1
      && r.phys == d.phys + d.blocks[b].validCnt
      && (Conserved(d) && d.blocks[b].FullyWritten() ==> Conserved(r))
      && |r.blocks| == |d.blocks| && |r.ltp| == |d.ltp| && r.ppb == d.ppb
      && (forall c :: 0 <= c < |d.blocks| && c != b ==> r.blocks[c] == d.blocks[c])
  {
    CompactGood(d, b);
    CompactSums(d, b);
    CompactMapped(d, b);
    assert WfBlk(d.blocks[b], d.ppb);
    hide Good, Conserved, BlkCompact, Remapped, Mapped, Ftl.Valid, Ftl.Written, Ftl.Erases;
    if Conserved(d) && d.blocks[b].FullyWritten() {
      ConservedAfterWipe(d, CompactBlock(d, b), d.blocks[b].validCnt);
    }
  }

  /** Compaction maps the q-th page kept to slot q. */
  lemma CompactRemaps(d: Ftl, b: nat, q: nat)
    requires Good(d) && b < |d.blocks| && q < |Used(d.blocks[b].ptl)|
    ensures Used(d.blocks[b].ptl)[q] < |d.ltp|
    ensures CompactBlock(d, b).ltp[Used(d.blocks[b].ptl)[q]] == Some(Loc(b, q))
  {
    var p := UsedSource(d.blocks[b].ptl, q);
    assert d.blocks[b].ptl[p].Some?;
  }

  /** Block `b` holds `pages` in order from slot 0 on. */
  ghost predicate HoldsFirst(d: Ftl, b: nat, pages: seq<nat>)
  {
    && b < |d.blocks| && |pages| <= |d.blocks[b].ptl|
    && forall i :: 0 <= i < |pages| ==> d.blocks[b].ptl[i] == Some(pages[i])
  }

  lemma UsedCount(d: Ftl, b: nat)
    requires Good(d) && b < |d.blocks|
    ensures |Used(d.blocks[b].ptl)| == d.blocks[b].validCnt
  {
    assert WfBlk(d.blocks[b], d.ppb);
  }

  /** The table of a compacted block holds its pages in order, from slot 0 on. */
  lemma CompactHolds(d: Ftl, b: nat)
    requires Good(d) && b < |d.blocks|
    ensures HoldsFirst(CompactBlock(d, b), b, Used(d.blocks[b].ptl))
    ensures Used(CompactBlock(d, b).blocks[b].ptl) == Used(d.blocks[b].ptl)
  {
    assert WfBlk(d.blocks[b], d.ppb);
    UsedPack(Used(d.blocks[b].ptl), |d.blocks[b].ptl|);
  }

  /** Compaction leaves the map entry of every other page alone. */
  lemma CompactKeeps(d: Ftl, b: nat, l: nat)
    requires Good(d) && b < |d.blocks| && l < |d.ltp| && l !in Used(d.blocks[b].ptl)
    ensures CompactBlock(d, b).ltp[l] == d.ltp[l]
  {
    if d.ltp[l].Some? && d.ltp[l].value.blk == b {
      assert Holds(d, d.ltp[l].value, l);
      UsedAtRank(d.blocks[b].ptl, d.ltp[l].value.pos);
    }
  }

  /* ---------- erase ---------- */

  lemma EraseGood(d: Ftl, b: nat)
    requires Good(d) && b < |d.blocks| && d.blocks[b].AllInvalid()
    ensures Good(EraseBlock(d, b))
  {
    var r := EraseBlock(d, b);
    BlkEraseWf(d.blocks[b], d.ppb);
    UsedNone(d.blocks[b].ptl);
    forall k | 0 <= k < |r.ltp| && r.ltp[k].Some?
      ensures Holds(r, r.ltp[k].value, k)
    {
      assert Holds(d, d.ltp[k].value, k);
    }
  }

  lemma UsedSome(s: seq<Slot>)
    requires |Used(s)| > 0
    ensures exists p :: 0 <= p < |s| && s[p].Some?
  {
    var p := UsedSource(s, 0);
  }

  /** Erasing keeps the tables inverse exactly when the block has no valid page. */
  lemma EraseGoodIff(d: Ftl, b: nat)
    requires Good(d) && b < |d.blocks|
    ensures Good(EraseBlock(d, b)) <==> d.blocks[b].AllInvalid()
  {
    if d.blocks[b].AllInvalid() {
      EraseGood(d, b);
    } else {
      UsedSome(d.blocks[b].ptl);
      var p :| 0 <= p < d.ppb && d.blocks[b].ptl[p].Some?;
      var l := d.blocks[b].ptl[p].value;
      assert d.ltp[l] == Some(Loc(b, p));
      assert !Holds(EraseBlock(d, b), Loc(b, p), l);
    }
  }

  lemma EraseSums(d: Ftl, b: nat)
    requires Good(d) && b < |d.blocks| && d.blocks[b].AllInvalid()
    ensures var r := EraseBlock(d, b);
      && r.Valid() == d.Valid()
      && r.Written() + d.blocks[b].writePos == d.Written()
      && r.Erases() == d.Erases() + 1
  {
    var c := BlkErase(d.blocks[b]);
    hide Sum;
    SumUpdate(ValidOf, d.blocks, b, c);
    SumUpdate(WrittenOf, d.blocks, b, c);
    SumUpdate(ErasesOf, d.blocks, b, c);
  }

  /** What erasing a block without valid pages does: it loses no page. */
  lemma EraseEffect(d: Ftl, b: nat)
    requires Good(d) && b < |d.blocks| && d.blocks[b].AllInvalid()
    ensures var r := EraseBlock(d, b);
      && Good(r)
      && Mapped(r) == Mapped(d)
      && r.blocks[b].IsErased() && r.blocks[b].AllInvalid()
      && r.Valid() == d.Valid()
      && r.Written() + d.blocks[b].writePos == d.Written()
      && r.Erases() == d.Erases() + 1
      && r.phys == d.phys
      && (Conserved(d) && d.blocks[b].FullyWritten() ==> Conserved(r))
      && |r.blocks| == |d.blocks| && |r.ltp| == |d.ltp| && r.ppb == d.ppb
      && (forall c :: 0 <= c < |d.blocks| && c != b ==> r.blocks[c] == d.blocks[c])
  {
    EraseGood(d, b);
    EraseSums(d, b);
    assert WfBlk(d.blocks[b], d.ppb);
    hide Good, Conserved, Ftl.Valid, Ftl.Written, Ftl.Erases;
    if Conserved(d) && d.blocks[b].FullyWritten() {
      ConservedAfterWipe(d, EraseBlock(d, b), 0);
    }
  }
}
