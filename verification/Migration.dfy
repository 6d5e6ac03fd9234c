/** Moving the valid pages of one block into another, as the collectors do. */
module Migration {
  import opened Options
  import opened Flash

  /** One step of the scan: slot `p` of `source` moves if it is used. */
  function MoveStep(d: Ftl, source: nat, dest: nat, p: nat): (r: Ftl)
    requires Good(d) && source < |d.blocks| && dest < |d.blocks| && p < d.ppb && d.blocks[dest].CanWrite()
    ensures Good(r) && Mapped(r) == Mapped(d)
    ensures |r.blocks| == |d.blocks| && |r.ltp| == |d.ltp| && r.ppb == d.ppb
    ensures Conserved(d) ==> Conserved(r)
    ensures r.Erases() == d.Erases()
  {
    var slot := d.blocks[source].ptl[p];
    if slot.Some? then
      WritePageEffect(d, slot.value, dest);
      assert Mapped(d) + {slot.value} == Mapped(d);
      WritePage(d, slot.value, dest)
    else d
  }

  /** The scan of `source` from slot `p` on, stopping when `dest` is full. */
  function MoveFrom(d: Ftl, source: nat, dest: nat, p: nat): (r: Ftl)
    requires Good(d) && source < |d.blocks| && dest < |d.blocks| && p <= d.ppb
    ensures Good(r) && Mapped(r) == Mapped(d)
    ensures |r.blocks| == |d.blocks| && |r.ltp| == |d.ltp| && r.ppb == d.ppb
    ensures Conserved(d) ==> Conserved(r)
    ensures r.Erases() == d.Erases()
    decreases d.ppb - p
  {
    if p < d.ppb && d.blocks[dest].CanWrite() then
      MoveFrom(MoveStep(d, source, dest, p), source, dest, p + 1)
    else d
  }

  function MoveValidPages(d: Ftl, source: nat, dest: nat): (r: Ftl)
    requires Good(d) && source < |d.blocks| && dest < |d.blocks|
  {
    MoveFrom(d, source, dest, 0)
  }

  function Free(d: Ftl, b: nat): (f: int)
    requires b < |d.blocks|
  {
    d.ppb - d.blocks[b].writePos
  }

  function Min(a: int, b: int): (m: int)
  {
    if a < b then a else b
  }

  /** `r` is `d` after `k` valid pages left block `source` for the end of block
      `dest`; no other block changes. */
  ghost predicate Moved(d: Ftl, r: Ftl, source: nat, dest: nat, k: int)
    requires source < |d.blocks| && dest < |d.blocks|
  {
    && |r.blocks| == |d.blocks| && r.ppb == d.ppb
    && r.blocks[source].validCnt == d.blocks[source].validCnt - k
    && r.blocks[source].writePos == d.blocks[source].writePos
    && r.blocks[dest].validCnt == d.blocks[dest].validCnt + k
    && r.blocks[dest].writePos == d.blocks[dest].writePos + k
    && r.phys == d.phys + k
    && (forall c :: 0 <= c < |d.blocks| && c != source && c != dest ==> r.blocks[c] == d.blocks[c])
  }

  lemma MoveOne(d: Ftl, source: nat, dest: nat, p: nat)
    requires Good(d) && source < |d.blocks| && dest < |d.blocks| && source != dest
    requires p < d.ppb && d.blocks[source].ptl[p].Some? && d.blocks[dest].CanWrite()
    ensures d.blocks[source].ptl[p].value < |d.ltp|
    ensures var r := WritePage(d, d.blocks[source].ptl[p].value, dest);
            && Good(r) && Moved(d, r, source, dest, 1)
            && r.blocks[source].ptl[p + 1..] == d.blocks[source].ptl[p + 1..]
  {
    var l := d.blocks[source].ptl[p].value;
    assert d.ltp[l] == Some(Loc(source, p));
    BlkSetUnusedWf(d.blocks[source], d.ppb, p);
    WritePageWf(d, l, dest);
    WritePageConsistent(d, l, dest);
  }

  lemma UsedTail(s: seq<Slot>, p: nat)
    requires p < |s|
    ensures Used(s[p..]) == (if s[p].Some? then [s[p].value] else []) + Used(s[p + 1..])
  {
    hide Used;
    assert s[p..] == [s[p]] + s[p + 1..];
    UsedConcat([s[p]], s[p + 1..]);
    UsedOne(s[p]);
  }

  /** The number of pages moved is the smaller of the room in `dest` and the
      pages left to scan. */
  lemma {:induction false} MoveFromCounts(d: Ftl, source: nat, dest: nat, p: nat)
    requires Good(d) && source < |d.blocks| && dest < |d.blocks| && source != dest && p <= d.ppb
    ensures Moved(d, MoveFrom(d, source, dest, p), source, dest,
                  Min(Free(d, dest), |Used(d.blocks[source].ptl[p..])|))
    decreases d.ppb - p
  {
    hide Good, Conserved, Mapped, WritePage, Used;
    var s := d.blocks[source].ptl;
    BlockFacts(d, source);
    BlockFacts(d, dest);
    if p == d.ppb {
      UsedEmpty(s[p..]);
    } else {
      UsedTail(s, p);
      if d.blocks[dest].CanWrite() {
        if s[p].Some? {
          MoveOne(d, source, dest, p);
          MoveFromCounts(WritePage(d, s[p].value, dest), source, dest, p + 1);
        } else {
          MoveFromCounts(d, source, dest, p + 1);
        }
      }
    }
  }

  lemma UsedEmpty(s: seq<Slot>)
    requires |s| == 0
    ensures |Used(s)| == 0
  {
  }

  /** Moving the valid pages of a block: as many move as fit. */
  lemma MoveCounts(d: Ftl, source: nat, dest: nat)
    requires Good(d) && source < |d.blocks| && dest < |d.blocks| && source != dest
    ensures Moved(d, MoveValidPages(d, source, dest), source, dest,
                  Min(Free(d, dest), d.blocks[source].validCnt))
  {
    assert WfBlk(d.blocks[source], d.ppb);
    assert d.blocks[source].ptl[0..] == d.blocks[source].ptl;
    MoveFromCounts(d, source, dest, 0);
  }

  /** A full destination takes nothing, whichever block is the source. */
  lemma MoveToFull(d: Ftl, source: nat, dest: nat)
    requires Good(d) && source < |d.blocks| && dest < |d.blocks| && d.blocks[dest].FullyWritten()
    ensures MoveValidPages(d, source, dest) == d
  {
  }

  /* ---------- which pages move, and where to ---------- */

  /** The destination holds `pages`, in order, from its old write position on, and
      before that what it held. */
  ghost predicate Extended(d: Ftl, r: Ftl, dest: nat, pages: seq<nat>)
    requires dest < |d.blocks|
  {
    var w := d.blocks[dest].writePos;
    && |r.blocks| == |d.blocks|
    && |r.blocks[dest].ptl| == |d.blocks[dest].ptl| && w + |pages| <= |d.blocks[dest].ptl|
    && (forall p :: 0 <= p < w && p < |d.blocks[dest].ptl| ==> r.blocks[dest].ptl[p] == d.blocks[dest].ptl[p])
    && (forall i :: 0 <= i < |pages| ==> r.blocks[dest].ptl[w + i] == Some(pages[i]))
  }

  /** The first `k` of the pages from slot `p` on moved, in slot order. */
  ghost predicate MovedFirst(d: Ftl, r: Ftl, source: nat, dest: nat, p: nat, k: int)
    requires source < |d.blocks| && dest < |d.blocks| && p <= |d.blocks[source].ptl|
  {
    var s := d.blocks[source].ptl;
    && 0 <= k <= |Used(s[p..])| && |r.blocks| == |d.blocks|
    && Used(r.blocks[source].ptl) == Used(s[..p]) + Used(s[p..])[k..]
    && Extended(d, r, dest, Used(s[p..])[..k])
  }

  lemma MoveOnePlaces(d: Ftl, source: nat, dest: nat, p: nat)
    requires Good(d) && source < |d.blocks| && dest < |d.blocks| && source != dest
    requires p < d.ppb && d.blocks[source].ptl[p].Some? && d.blocks[dest].CanWrite()
    ensures d.blocks[source].ptl[p].value < |d.ltp|
    ensures var l := d.blocks[source].ptl[p].value; var r := WritePage(d, l, dest);
      && Good(r) && |r.blocks| == |d.blocks| && r.ppb == d.ppb && |r.ltp| == |d.ltp|
      && r.blocks[source].ptl == d.blocks[source].ptl[p := None]
      && r.blocks[dest].ptl == d.blocks[dest].ptl[d.blocks[dest].writePos := Some(l)]
      && r.blocks[dest].writePos == d.blocks[dest].writePos + 1
  {
    var l := d.blocks[source].ptl[p].value;
    assert d.ltp[l] == Some(Loc(source, p));
    WritePageEffect(d, l, dest);
    WritePagePlaces(d, l, dest);
    BlockFacts(d, source);
    BlockFacts(d, dest);
    hide Good, WritePage, Mapped, Conserved;
    var r := WritePage(d, l, dest);
    assert r.blocks[source].ptl == d.blocks[source].ptl[p := None];
    assert r.blocks[dest].ptl == d.blocks[dest].ptl[d.blocks[dest].writePos := Some(l)];
  }

  lemma DropUsed(s: seq<Slot>, p: nat)
    requires p < |s|
    ensures Used(s[p := None][..p + 1]) == Used(s[..p]) && s[p := None][p + 1..] == s[p + 1..]
    ensures s[p] == None ==> Used(s[..p + 1]) == Used(s[..p])
  {
    assert s[p := None][..p + 1] == s[..p] + [None];
    assert (s[..p] + [None])[..p] == s[..p];
    assert s[..p + 1][..p] == s[..p];
  }

  lemma TakeOne(l: nat, rest: seq<nat>, k: int)
    requires 1 <= k <= |rest| + 1
    ensures ([l] + rest)[k..] == rest[k - 1..] && ([l] + rest)[..k] == [l] + rest[..k - 1]
  {
  }

  /** After one page moved, the pages that follow it move behind it. */
  lemma ExtendedOne(d: Ftl, e: Ftl, r: Ftl, dest: nat, l: nat, pages: seq<nat>)
    requires dest < |d.blocks| && |e.blocks| == |d.blocks| && d.blocks[dest].CanWrite()
    requires e.blocks[dest].ptl == d.blocks[dest].ptl[d.blocks[dest].writePos := Some(l)]
    requires e.blocks[dest].writePos == d.blocks[dest].writePos + 1
    requires Extended(e, r, dest, pages)
    ensures Extended(d, r, dest, [l] + pages)
  {
    var w := d.blocks[dest].writePos;
    forall i | 0 <= i < |[l] + pages|
      ensures r.blocks[dest].ptl[w + i] == Some(([l] + pages)[i])
    {
      if i > 0 {
        assert r.blocks[dest].ptl[w + 1 + (i - 1)] == Some(pages[i - 1]);
      }
    }
  }

  lemma {:induction false} MoveFromPages(d: Ftl, source: nat, dest: nat, p: nat)
    requires Good(d) && source < |d.blocks| && dest < |d.blocks| && source != dest && p <= d.ppb
    requires |d.blocks[source].ptl| == d.ppb
    ensures MovedFirst(d, MoveFrom(d, source, dest, p), source, dest, p,
                       Min(Free(d, dest), |Used(d.blocks[source].ptl[p..])|))
    decreases d.ppb - p
  {
    hide Good, Conserved, Mapped, WritePage, Used, Extended;
    var s := d.blocks[source].ptl;
    BlockFacts(d, dest);
    if p == d.ppb || !d.blocks[dest].CanWrite() {
      NothingMoves(d, source, dest, p);
    } else {
      UsedTail(s, p);
      DropUsed(s, p);
      if s[p].Some? {
        var l, rest := s[p].value, Used(s[p + 1..]);
        MoveOnePlaces(d, source, dest, p);
        var e := WritePage(d, l, dest);
        MoveFromPages(e, source, dest, p + 1);
        var k := Min(Free(d, dest), |rest| + 1);
        TakeOne(l, rest, k);
        ExtendedOne(d, e, MoveFrom(e, source, dest, p + 1), dest, l, rest[..k - 1]);
      } else {
        MoveFromPages(d, source, dest, p + 1);
        assert [] + Used(s[p + 1..]) == Used(s[p + 1..]);
      }
    }
  }

  lemma NothingMoves(d: Ftl, source: nat, dest: nat, p: nat)
    requires Good(d) && source < |d.blocks| && dest < |d.blocks| && p <= |d.blocks[source].ptl| == d.ppb
    requires p == d.ppb || !d.blocks[dest].CanWrite()
    ensures MoveFrom(d, source, dest, p) == d
    ensures Min(Free(d, dest), |Used(d.blocks[source].ptl[p..])|) == 0
    ensures MovedFirst(d, d, source, dest, p, 0)
  {
    var s := d.blocks[source].ptl;
    BlockFacts(d, dest);
    assert s == s[..p] + s[p..];
    UsedConcat(s[..p], s[p..]);
    if p == d.ppb {
      UsedEmpty(s[p..]);
    }
    hide Used;
    assert Used(s[p..])[0..] == Used(s[p..]);
  }

  /** Which pages move: those in the first used slots of the source, as many as fit, to
      the end of the destination in the same order; the others stay, in order. */
  lemma MovePages(d: Ftl, source: nat, dest: nat)
    requires Good(d) && source < |d.blocks| && dest < |d.blocks| && source != dest
    ensures var r, pages := MoveValidPages(d, source, dest), Used(d.blocks[source].ptl);
      var k := Min(Free(d, dest), |pages|);
      && 0 <= k <= |pages| == d.blocks[source].validCnt && |r.blocks| == |d.blocks|
      && Used(r.blocks[source].ptl) == pages[k..]
      && Extended(d, r, dest, pages[..k])
  {
    assert WfBlk(d.blocks[source], d.ppb) && WfBlk(d.blocks[dest], d.ppb);
    var s := d.blocks[source].ptl;
    assert s[0..] == s;
    UsedEmptyPrefix(s);
    hide Good, Used, MoveFrom, Extended;
    MoveFromPages(d, source, dest, 0);
    var k := Min(Free(d, dest), |Used(s)|);
    assert [] + Used(s)[k..] == Used(s)[k..];
  }

  lemma UsedEmptyPrefix(s: seq<Slot>)
    ensures Used(s[..0]) == []
  {
  }

  /** A source without valid pages leaves everything as it is. */
  lemma {:induction false} MoveFromEmpty(d: Ftl, source: nat, dest: nat, p: nat)
    requires Good(d) && source < |d.blocks| && dest < |d.blocks| && p <= d.ppb
    requires forall q :: 0 <= q < |d.blocks[source].ptl| ==> d.blocks[source].ptl[q] == None
    ensures MoveFrom(d, source, dest, p) == d
    decreases d.ppb - p
  {
    hide Used, Mapped, Conserved, WritePage;
    if p == d.ppb || !d.blocks[dest].CanWrite() {
    } else {
      MoveFromEmpty(d, source, dest, p + 1);
    }
  }

  lemma MoveEmpty(d: Ftl, source: nat, dest: nat)
    requires Good(d) && source < |d.blocks| && dest < |d.blocks| && d.blocks[source].AllInvalid()
    ensures MoveValidPages(d, source, dest) == d
  {
    assert WfBlk(d.blocks[source], d.ppb);
    UsedNone(d.blocks[source].ptl);
    hide Good;
    MoveFromEmpty(d, source, dest, 0);
  }
}
