/** 2R-FIFO: full blocks queue up; a scan pointer walks the queue to pick victims,
    victims that stay full go to the back. Which victims the scan picks is left
    open; the queue and its scan pointer are not. */
module FifoPolicy {
  import opened Options
  import opened Lists
  import opened Flash
  import opened BlockLists
  import opened Chain
  import opened TwoRPolicy
  import Migration

  /** The queue and its scan iterator; `scan == |list|` is the past-the-end iterator. */
  datatype Queue = Queue(list: seq<nat>, scan: nat)

  function IndexOf(xs: seq<nat>, v: nat): (k: nat)
    ensures k <= |xs|
    ensures k < |xs| ==> xs[k] == v
    ensures k == |xs| <==> v !in xs
    ensures forall i :: 0 <= i < k ==> xs[i] != v
  {
    if |xs| == 0 then 0
    else
      var k := IndexOf(xs[..|xs| - 1], v);
      if k < |xs| - 1 then k
      else if xs[|xs| - 1] == v then |xs| - 1
      else |xs|
  }

  function PushBack(q: Queue, v: nat): (r: Queue)
  {
    Queue(q.list + [v], if q.scan >= |q.list| then q.scan + 1 else q.scan)
  }

  /** Erases the first occurrence; iterators behind it move up, and the scan
      iterator, if it stood on the erased node, moves to the next one. */
  function EraseFirst(q: Queue, v: nat): (r: Queue)
  {
    var k := IndexOf(q.list, v);
    if k == |q.list| then q
    else Queue(q.list[..k] + q.list[k + 1..], if k < q.scan then q.scan - 1 else q.scan)
  }

  /** Files one compacted victim: a full one is queued again before its old node goes. */
  function File(q: Queue, v: nat, full: bool): (r: Queue)
  {
    EraseFirst(if full then PushBack(q, v) else q, v)
  }

  function FileAll(q: Queue, d: Ftl, vs: seq<nat>): (r: Queue)
    requires InRange(d, vs)
  {
    if |vs| == 0 then q
    else
      var n := |vs| - 1;
      File(FileAll(q, d, vs[..n]), vs[n], !d.blocks[vs[n]].CanWrite())
  }

  /** In a list without repetition, erasing a block is dropping it. */
  lemma EraseIsWithout(xs: seq<nat>, v: nat)
    requires Distinct(xs) && v in xs
    ensures var k := IndexOf(xs, v); xs[..k] + xs[k + 1..] == Without(xs, {v})
  {
    hide IndexOf, Without;
    var k := IndexOf(xs, v);
    WithoutDrop(xs, k, {v});
    WithoutNone(xs[..k] + xs[k + 1..], {v});
  }

  lemma {:induction false} IndexInPrefix(xs: seq<nat>, ys: seq<nat>, v: nat)
    requires v in xs
    ensures IndexOf(xs + ys, v) == IndexOf(xs, v)
  {
    hide IndexOf;
    var k := IndexOf(xs + ys, v);
    var j := IndexOf(xs, v);
    assert (xs + ys)[j] == v;
    assert k <= j;
    assert xs[k] == (xs + ys)[k];
  }

  /* ---------- where the blocks go ---------- */

  lemma FileList(kept: seq<nat>, back: seq<nat>, scan: nat, v: nat, full: bool)
    requires Distinct(kept) && v in kept
    ensures File(Queue(kept + back, scan), v, full).list ==
      Without(kept, {v}) + (back + if full then [v] else [])
  {
    hide IndexOf, Without;
    var tail := back + if full then [v] else [];
    EraseIsWithout(kept, v);
    IndexInPrefix(kept, tail, v);
    var k := IndexOf(kept, v);
    ConcatAssoc(kept, back, [v]);
    assert back + [] == back;
    DropInPrefix(kept, tail, k);
  }

  /** Filing keeps the other blocks in order and rotates the victims that are still
      full to the back, in victim order. */
  lemma {:induction false} FileAllList(q: Queue, d: Ftl, vs: seq<nat>)
    requires InRange(d, vs) && Distinct(q.list) && Distinct(vs)
    requires forall i :: 0 <= i < |vs| ==> vs[i] in q.list
    ensures FileAll(q, d, vs).list == Without(q.list, Members(vs)) + FullOf(d, vs)
  {
    hide Without, File;
    if |vs| == 0 {
      WithoutNone(q.list, {});
      assert Members(vs) == {};
    } else {
      var n := |vs| - 1;
      var v := vs[n];
      FileAllList(q, d, vs[..n]);
      MembersLast(vs);
      var before := FileAll(q, d, vs[..n]);
      var kept := Without(q.list, Members(vs[..n]));
      WithoutDistinct(q.list, Members(vs[..n]));
      assert v in kept;
      FileList(kept, FullOf(d, vs[..n]), before.scan, v, !d.blocks[v].CanWrite());
      WithoutTwice(q.list, Members(vs[..n]), {v});
    }
  }

  lemma {:induction false} WithoutCounts(xs: seq<nat>, vs: seq<nat>)
    requires Distinct(xs) && Distinct(vs) && forall i :: 0 <= i < |vs| ==> vs[i] in xs
    ensures multiset(Without(xs, Members(vs))) + multiset(vs) == multiset(xs)
  {
    hide Without;
    if |vs| == 0 {
      WithoutNone(xs, {});
      assert Members(vs) == {};
    } else {
      var n := |vs| - 1;
      WithoutCounts(xs, vs[..n]);
      MembersLast(vs);
      MultisetLast(vs);
      var kept := Without(xs, Members(vs[..n]));
      WithoutDistinct(xs, Members(vs[..n]));
      WithoutTwice(xs, Members(vs[..n]), {vs[n]});
      assert vs[n] in kept;
      EraseIsWithout(kept, vs[n]);
      DropCounts(kept, IndexOf(kept, vs[n]));
    }
  }

  lemma DropCounts(xs: seq<nat>, k: nat)
    requires k < |xs|
    ensures multiset(xs[..k] + xs[k + 1..]) + multiset{xs[k]} == multiset(xs)
  {
    SplitAt(xs, k);
    assert multiset(xs) == multiset(xs[..k] + [xs[k]] + xs[k + 1..]);
  }

  /* ---------- where the scan pointer goes ---------- */

  /** The queued blocks at or after the scan pointer that are not among `vs`. */
  ghost function Ahead(q: Queue, vs: seq<nat>): (r: seq<nat>)
    requires q.scan <= |q.list|
  {
    Without(q.list[q.scan..], Members(vs))
  }

  ghost function Behind(q: Queue, vs: seq<nat>): (r: seq<nat>)
    requires q.scan <= |q.list|
  {
    Without(q.list[..q.scan], Members(vs))
  }

  /** The pointer runs off the end: at some point of the filing no node ahead of it is
      left and no victim has been queued again. */
  ghost predicate RunsOff(q: Queue, d: Ftl, vs: seq<nat>)
    requires InRange(d, vs) && q.scan <= |q.list|
  {
    || (Ahead(q, vs) == [] && FullOf(d, vs) == [])
    || (|vs| > 0 && RunsOff(q, d, vs[..|vs| - 1]))
  }

  lemma AheadBehind(q: Queue, vs: seq<nat>)
    requires q.scan <= |q.list|
    ensures Without(q.list, Members(vs)) == Behind(q, vs) + Ahead(q, vs)
  {
    assert q.list == q.list[..q.scan] + q.list[q.scan..];
    WithoutConcat(q.list[..q.scan], q.list[q.scan..], Members(vs));
  }

  lemma WithoutLength(xs: seq<nat>, v: nat)
    requires Distinct(xs)
    ensures |Without(xs, {v})| == |xs| - (if v in xs then 1 else 0)
  {
    if v in xs {
      EraseIsWithout(xs, v);
    } else {
      WithoutNone(xs, {v});
    }
  }

  /** One more victim leaves either the nodes behind the pointer or those ahead. */
  lemma LeavesOne(q: Queue, vs: seq<nat>)
    requires q.scan <= |q.list| && Distinct(q.list) && |vs| > 0
    ensures var n := |vs| - 1;
      && |Behind(q, vs)| == |Behind(q, vs[..n])| - (if vs[n] in Behind(q, vs[..n]) then 1 else 0)
      && |Ahead(q, vs)| == |Ahead(q, vs[..n])| - (if vs[n] in Ahead(q, vs[..n]) then 1 else 0)
  {
    var gone, v := Members(vs[..|vs| - 1]), vs[|vs| - 1];
    MembersLast(vs);
    hide Without;
    WithoutDistinct(q.list[q.scan..], gone);
    WithoutDistinct(q.list[..q.scan], gone);
    WithoutTwice(q.list[q.scan..], gone, {v});
    WithoutTwice(q.list[..q.scan], gone, {v});
    WithoutLength(Without(q.list[q.scan..], gone), v);
    WithoutLength(Without(q.list[..q.scan], gone), v);
  }

  /** Filing one victim moves the pointer with its node: up by one if the victim stood
      before it, not at all otherwise. */
  lemma FileScan(behind: seq<nat>, ahead: seq<nat>, back: seq<nat>, scan: nat, v: nat, full: bool)
    requires Distinct(behind + ahead) && v in behind + ahead
    requires scan == |behind| || scan == |behind + ahead + back|
    ensures var r := File(Queue(behind + ahead + back, scan), v, full);
      r.scan ==
        if scan == |behind + ahead + back| then |behind + ahead + back| - (if full then 0 else 1)
        else if v in behind then |behind| - 1 else |behind|
  {
    hide IndexOf;
    var list := behind + ahead + back;
    var tail := back + if full then [v] else [];
    var k := IndexOf(behind + ahead, v);
    IndexInPrefix(behind + ahead, back, v);
    IndexInPrefix(behind + ahead, back + [v], v);
    assert behind + ahead + back + [v] == behind + ahead + (back + [v]);
    if v in behind {
      IndexInPrefix(behind, ahead, v);
    }
  }

  lemma ScanStart(q: Queue, d: Ftl)
    requires q.scan <= |q.list|
    ensures FileAll(q, d, []) == q && Behind(q, []) == q.list[..q.scan] && Ahead(q, []) == q.list[q.scan..]
    ensures FullOf(d, []) == [] && (RunsOff(q, d, []) <==> q.scan == |q.list|)
  {
    assert Members([]) == {};
    WithoutNone(q.list[..q.scan], {});
    WithoutNone(q.list[q.scan..], {});
  }

  lemma FullOfLast(d: Ftl, vs: seq<nat>)
    requires InRange(d, vs) && |vs| > 0
    ensures FullOf(d, vs) == FullOf(d, vs[..|vs| - 1]) +
      if d.blocks[vs[|vs| - 1]].CanWrite() then [] else [vs[|vs| - 1]]
  {
  }

  lemma StillQueued(q: Queue, vs: seq<nat>)
    requires Distinct(q.list) && Distinct(vs) && |vs| > 0 && forall i :: 0 <= i < |vs| ==> vs[i] in q.list
    ensures vs[|vs| - 1] in Without(q.list, Members(vs[..|vs| - 1]))
    ensures Distinct(Without(q.list, Members(vs[..|vs| - 1])))
  {
    WithoutDistinct(q.list, Members(vs[..|vs| - 1]));
  }

  /** The scan pointer is never left on an erased node. It stays behind the same nodes:
      it ends on the first node ahead of it that was not collected, failing that on the
      first victim queued again; and past the end exactly when there was a moment with
      neither. */
  lemma {:induction false} ScanEnds(q: Queue, d: Ftl, vs: seq<nat>)
    requires InRange(d, vs) && Distinct(q.list) && Distinct(vs) && q.scan <= |q.list|
    requires forall i :: 0 <= i < |vs| ==> vs[i] in q.list
    ensures var r := FileAll(q, d, vs);
      && r.list == Behind(q, vs) + Ahead(q, vs) + FullOf(d, vs)
      && r.scan == (if RunsOff(q, d, vs) then |r.list| else |Behind(q, vs)|)
      && (!RunsOff(q, d, vs) ==> r.scan < |r.list|)
  {
    hide Without, File, FullOf, Behind, Ahead, Members, Distinct;
    FileAllList(q, d, vs);
    AheadBehind(q, vs);
    if |vs| == 0 {
      ScanStart(q, d);
    } else {
      var n := |vs| - 1;
      DistinctPrefix(vs, n);
      ScanEnds(q, d, vs[..n]);
      StillQueued(q, vs);
      AheadBehind(q, vs[..n]);
      LeavesOne(q, vs);
      FullOfLast(d, vs);
      var b := FileAll(q, d, vs[..n]);
      FileScan(Behind(q, vs[..n]), Ahead(q, vs[..n]), FullOf(d, vs[..n]), b.scan, vs[n], !d.blocks[vs[n]].CanWrite());
      ApartOrNot(Behind(q, vs[..n]), Ahead(q, vs[..n]), vs[n]);
    }
  }

  lemma DistinctPrefix(vs: seq<nat>, n: nat)
    requires Distinct(vs) && n <= |vs|
    ensures Distinct(vs[..n])
  {
  }

  lemma ApartOrNot(xs: seq<nat>, ys: seq<nat>, v: nat)
    requires Distinct(xs + ys) && v in xs + ys
    ensures v in xs <==> v !in ys
  {
    forall i, j | 0 <= i < |xs| && 0 <= j < |ys|
      ensures xs[i] != ys[j]
    {
      assert (xs + ys)[i] == xs[i] && (xs + ys)[|xs| + j] == ys[j];
    }
  }

  /* ---------- collection and host writes ---------- */

  datatype Fifo = Fifo(d: Ftl, current: nat, free: seq<nat>, queue: Queue)

  /** The current block, the free blocks and the queue partition the block ids;
      queued blocks are full, free ones writable, the scan pointer is in range. */
  ghost predicate ReadyFifo(t: Fifo)
  {
    && Shelved(t.d, [t.current], t.free, t.queue.list, [])
    && t.current < |t.d.blocks| && t.queue.scan <= |t.queue.list|
  }

  /** What a scan may deliver: distinct queued blocks, and a new pointer. */
  ghost predicate Scanned(q: Queue, vs: seq<nat>, scan: nat)
  {
    Distinct(vs) && (forall i :: 0 <= i < |vs| ==> vs[i] in q.list) && scan <= |q.list|
  }

  lemma ScanStays(q: Queue, v: nat, full: bool)
    requires q.scan <= |q.list|
    ensures File(q, v, full).scan <= |File(q, v, full).list|
  {
    hide IndexOf;
  }

  lemma {:induction false} FileAllInRange(q: Queue, d: Ftl, vs: seq<nat>)
    requires InRange(d, vs) && q.scan <= |q.list|
    ensures FileAll(q, d, vs).scan <= |FileAll(q, d, vs).list|
  {
    hide File;
    if |vs| == 0 {
    } else {
      FileAllInRange(q, d, vs[..|vs| - 1]);
      ScanStays(FileAll(q, d, vs[..|vs| - 1]), vs[|vs| - 1], !d.blocks[vs[|vs| - 1]].CanWrite());
    }
  }

  lemma ScannedFull(d: Ftl, q: Queue, vs: seq<nat>)
    requires AllFullIn(d, q.list) && Distinct(vs) && forall i :: 0 <= i < |vs| ==> vs[i] in q.list
    ensures FullVictims(d, vs) && InRange(d, vs)
  {
  }

  /** One collection of the scanned victims; None if the chained compaction throws. */
  function GcFifo(t: Fifo, vs: seq<nat>, scan: nat): (r: Option<Fifo>)
    requires Shelved(t.d, [], [], t.queue.list, []) && Scanned(t.queue, vs, scan)
  {
    ScannedFull(t.d, t.queue, vs);
    var e := CompactList(t.d, vs);
    if e.None? then None
    else Some(Fifo(e.value, t.current, t.free + OpenOf(e.value, vs), FileAll(Queue(t.queue.list, scan), e.value, vs)))
  }

  lemma QueueDistinct(d: Ftl, xs: seq<nat>)
    requires Shelved(d, [], [], xs, [])
    ensures Distinct(xs) && multiset(xs) == multiset(Ids(|d.blocks|))
  {
    ShelvedParts(d, xs, []);
    hide Shelved, Ids;
    assert multiset(xs) + multiset([]) == multiset(xs);
    OnceEach(xs, |d.blocks|);
  }

  lemma FifoRegroup(kept: multiset<nat>, full: multiset<nat>, open: multiset<nat>, vs: multiset<nat>, all: multiset<nat>)
    requires kept + vs == all && full + open == vs
    ensures multiset([]) + open + (kept + full) + multiset([]) == all
  {
    assert multiset([]) + open + (kept + full) + multiset([]) == kept + (full + open);
  }

  /** A collection keeps the partition, loses no page, and frees an erased block. */
  lemma GcFifoKeeps(t: Fifo, vs: seq<nat>, scan: nat)
    requires Shelved(t.d, [], [], t.queue.list, []) && Scanned(t.queue, vs, scan)
    requires t.free == [] && GcFifo(t, vs, scan).Some?
    ensures var r := GcFifo(t, vs, scan).value;
      && Shelved(r.d, [], r.free, r.queue.list, []) && Mapped(r.d) == Mapped(t.d) && r.queue.scan <= |r.queue.list|
      && |r.d.blocks| == |t.d.blocks| && |r.d.ltp| == |t.d.ltp| && r.d.ppb == t.d.ppb
      && |r.free| > 0
  {
    hide Good, Conserved, Mapped, CompactList, InvalidSum, Without, FileAll,
         FullOf, OpenOf, Ids, Surplus, Migration.Free, AllOpenIn, AllFullIn;
    var list := t.queue.list;
    ScannedFull(t.d, t.queue, vs);
    QueueDistinct(t.d, list);
    var e := CompactList(t.d, vs).value;
    CompactListFrees(t.d, vs);
    CompactListEffect(t.d, vs);
    FileAllList(Queue(list, scan), e, vs);
    FileAllInRange(Queue(list, scan), e, vs);
    var kept, full, open := Without(list, Members(vs)), FullOf(e, vs), OpenOf(e, vs);
    WithoutCounts(list, vs);
    SortedOut(e, vs);
    FullSorted(e, vs);
    BlockFacts(e, vs[0]);
    FirstOpen(e, vs);
    FifoRegroup(multiset(kept), multiset(full), multiset(open), multiset(vs), multiset(list));
    AllFullSub(t.d, kept, list);
    FullStays(t.d, e, kept, vs);
    Refile(e, kept, full);
    NoneFull(e);
    assert t.free + open == open;
  }

  lemma NoneFull(d: Ftl)
    ensures AllFullIn(d, [])
  {
  }

  lemma RetireFifo(t: Fifo)
    requires ReadyFifo(t) && CurrentFullFifo(t)
    ensures Shelved(t.d, [], t.free, RetiredFifo(t).queue.list, [])
    ensures RetiredFifo(t).queue.scan <= |RetiredFifo(t).queue.list|
  {
    var r := TwoR(t.d, t.current, t.free, t.queue.list, []);
    hide Shelved;
    RetireShelves(r);
  }

  function NextFreeFifo(t: Fifo): (r: Fifo)
    requires |t.free| > 0
  {
    t.(current := t.free[0], free := t.free[1..])
  }

  lemma NextFreeFifoReady(t: Fifo)
    requires Shelved(t.d, [], t.free, t.queue.list, []) && t.queue.scan <= |t.queue.list| && |t.free| > 0
    ensures ReadyFifo(NextFreeFifo(t)) && !CurrentFullFifo(NextFreeFifo(t))
  {
    hide Shelved;
    NextFreeReady(TwoR(t.d, t.current, t.free, t.queue.list, []));
  }

  function StartFifo(ppb: nat, blockCount: nat, logicalPages: nat): (t: Fifo)
    requires ppb > 0 && blockCount > 0
    ensures ReadyFifo(t) && Mapped(t.d) == {} && t.d.phys == 0 && t.d.Erases() == 0
    ensures |t.d.blocks| == blockCount && |t.d.ltp| == logicalPages && t.d.ppb == ppb
  {
    var s := Start2R(ppb, blockCount, logicalPages);
    assert s.normal == [] && s.cold == [];
    Fifo(s.d, s.current, s.free, Queue([], 0))
  }

  predicate CurrentFullFifo(t: Fifo)
    requires t.current < |t.d.blocks|
  {
    !t.d.blocks[t.current].CanWrite()
  }

  predicate NeedsGcFifo(t: Fifo)
    requires t.current < |t.d.blocks|
  {
    CurrentFullFifo(t) && |t.free| == 0
  }

  function RetiredFifo(t: Fifo): (r: Fifo)
  {
    t.(queue := PushBack(t.queue, t.current))
  }

  /** What the scan delivers, should this host write collect. */
  ghost predicate Delivers(t: Fifo, vs: seq<nat>, scan: nat)
    requires t.current < |t.d.blocks|
  {
    NeedsGcFifo(t) ==> Scanned(RetiredFifo(t).queue, vs, scan)
  }

  /** The state the write goes to; None if collection fails. */
  function ProvidedFifo(t: Fifo, vs: seq<nat>, scan: nat): (r: Option<Fifo>)
    requires ReadyFifo(t) && Delivers(t, vs, scan)
    ensures r.Some? ==> ReadyFifo(r.value) && !CurrentFullFifo(r.value) && Mapped(r.value.d) == Mapped(t.d)
    ensures r.Some? ==> |r.value.d.blocks| == |t.d.blocks| && |r.value.d.ltp| == |t.d.ltp| && r.value.d.ppb == t.d.ppb
    ensures r.None? <==> NeedsGcFifo(t) && (vs == [] || InvalidSum(t.d, vs) < t.d.ppb)
  {
    hide Shelved, Mapped, GcFifo, InvalidSum, Scanned;
    if !CurrentFullFifo(t) then Some(t)
    else
      RetireFifo(t);
      if |t.free| > 0 then
        NextFreeFifoReady(RetiredFifo(t));
        Some(NextFreeFifo(RetiredFifo(t)))
      else
        ScannedFails(RetiredFifo(t), vs, scan);
        var c := GcFifo(RetiredFifo(t), vs, scan);
        if c.None? then None
        else
          GcFifoKeeps(RetiredFifo(t), vs, scan);
          NextFreeFifoReady(c.value);
          Some(NextFreeFifo(c.value))
  }

  /** One host write; `vs` and `scan` are what the scan delivers if it is needed. It
      keeps the partition and the scan pointer in range, and fails exactly when
      collection is needed and the scanned victims are too poor. */
  function HostWriteFifo(t: Fifo, l: nat, vs: seq<nat>, scan: nat): (r: Option<Fifo>)
    requires ReadyFifo(t) && l < |t.d.ltp| && Delivers(t, vs, scan)
    ensures r.Some? ==> ReadyFifo(r.value) && Mapped(r.value.d) == Mapped(t.d) + {l}
    ensures r.Some? ==> |r.value.d.blocks| == |t.d.blocks| && |r.value.d.ltp| == |t.d.ltp| && r.value.d.ppb == t.d.ppb
    ensures r.None? <==> NeedsGcFifo(t) && (vs == [] || InvalidSum(t.d, vs) < t.d.ppb)
  {
    hide ReadyFifo, ProvidedFifo, CurrentFullFifo, Delivers, Mapped, Good, Conserved, WritePage, InvalidSum;
    ReadyFifoParts(t);
    var p := ProvidedFifo(t, vs, scan);
    if p.None? then None
    else
      ReadyFifoParts(p.value);
      PutFifoReady(p.value, l);
      Some(PutFifo(p.value, l))
  }

  lemma ReadyFifoParts(t: Fifo)
    requires ReadyFifo(t)
    ensures Good(t.d) && Conserved(t.d) && t.current < |t.d.blocks|
  {
  }

  function PutFifo(t: Fifo, l: nat): (r: Fifo)
    requires Good(t.d) && t.current < |t.d.blocks| && l < |t.d.ltp| && !CurrentFullFifo(t)
  {
    t.(d := WritePage(t.d, l, t.current))
  }

  lemma PutFifoReady(t: Fifo, l: nat)
    requires ReadyFifo(t) && l < |t.d.ltp| && !CurrentFullFifo(t)
    ensures ReadyFifo(PutFifo(t, l)) && Mapped(PutFifo(t, l).d) == Mapped(t.d) + {l}
    ensures |PutFifo(t, l).d.blocks| == |t.d.blocks| && |PutFifo(t, l).d.ltp| == |t.d.ltp|
    ensures PutFifo(t, l).d.ppb == t.d.ppb
  {
    hide Shelved, WritePage, Mapped;
    var r := TwoR(t.d, t.current, t.free, t.queue.list, []);
    PutReady2R(r, l);
    ReadyFifoParts(t);
    WritePageEffect(t.d, l, t.current);
  }

  lemma ScannedFails(t: Fifo, vs: seq<nat>, scan: nat)
    requires Shelved(t.d, [], [], t.queue.list, []) && Scanned(t.queue, vs, scan)
    ensures GcFifo(t, vs, scan).None? <==> vs == [] || InvalidSum(t.d, vs) < t.d.ppb
  {
    hide CompactList, InvalidSum, Good, FileAll, OpenOf;
    ScannedFull(t.d, t.queue, vs);
    CompactListFrees(t.d, vs);
  }

  /** The queue once the full current block has joined its end; a scan iterator past the
      end stays past the end. */
  function Joined(t: Fifo): (q: Queue)
  {
    Queue(t.queue.list + [t.current], if t.queue.scan < |t.queue.list| then t.queue.scan else |t.queue.list| + 1)
  }

  lemma JoinedIs(t: Fifo)
    requires t.queue.scan <= |t.queue.list|
    ensures RetiredFifo(t).queue == Joined(t)
  {
  }

  /** The queue and the free list after a collection: victims that can be written are
      free, in victim order, the first victim first; victims that are full follow the
      other queued blocks, in victim order. */
  lemma GcFifoLists(t: Fifo, vs: seq<nat>, scan: nat)
    requires Shelved(t.d, [], [], t.queue.list, []) && Scanned(t.queue, vs, scan)
    requires t.free == [] && GcFifo(t, vs, scan).Some?
    ensures FullVictims(t.d, vs) && CompactList(t.d, vs).Some? && |vs| > 0
    ensures var r, e := GcFifo(t, vs, scan).value, CompactList(t.d, vs).value;
      && r.d == e && r.current == t.current && InRange(e, vs)
      && r.free == OpenOf(e, vs) && |r.free| > 0 && r.free[0] == vs[0]
      && r.queue.list == Without(t.queue.list, Members(vs)) + FullOf(e, vs)
      && r.queue == FileAll(Queue(t.queue.list, scan), e, vs)
  {
    hide Good, Conserved, Mapped, CompactList, InvalidSum, Without, FileAll, FullOf, OpenOf, Ids, Surplus,
         Migration.Free, AllOpenIn, AllFullIn;
    ScannedFull(t.d, t.queue, vs);
    QueueDistinct(t.d, t.queue.list);
    CompactListFrees(t.d, vs);
    CompactListEffect(t.d, vs);
    var e := CompactList(t.d, vs).value;
    FileAllList(Queue(t.queue.list, scan), e, vs);
    BlockFacts(e, vs[0]);
    FirstOpen(e, vs);
    assert [] + OpenOf(e, vs) == OpenOf(e, vs);
  }

  lemma ProvidedFifoGc(t: Fifo, vs: seq<nat>, scan: nat)
    requires ReadyFifo(t) && Delivers(t, vs, scan) && NeedsGcFifo(t) && ProvidedFifo(t, vs, scan).Some?
    ensures Shelved(t.d, [], [], RetiredFifo(t).queue.list, []) && Scanned(RetiredFifo(t).queue, vs, scan)
    ensures GcFifo(RetiredFifo(t), vs, scan).Some? && |GcFifo(RetiredFifo(t), vs, scan).value.free| > 0
    ensures ProvidedFifo(t, vs, scan).value == NextFreeFifo(GcFifo(RetiredFifo(t), vs, scan).value)
  {
    hide Shelved, Mapped, GcFifo, Scanned, InvalidSum;
    RetireFifo(t);
    ScannedFails(RetiredFifo(t), vs, scan);
    GcFifoKeeps(RetiredFifo(t), vs, scan);
  }

  /** Where the blocks are after the collection of `vs` on behalf of `t`; `e` is the device
      the collection leaves. The full current block joined the end of the queue first. The
      victims that can be written are the current block, the first victim, and the free
      list, in victim order; the full ones follow the other queued blocks. */
  ghost predicate Refiled(t: Fifo, r: Fifo, e: Ftl, vs: seq<nat>, scan: nat)
  {
    && |vs| > 0 && InRange(e, vs)
    && OpenOf(e, vs) == [r.current] + r.free && r.current == vs[0]
    && r.queue.list == Without(t.queue.list + [t.current], Members(vs)) + FullOf(e, vs)
    && r.queue == FileAll(Queue(t.queue.list + [t.current], scan), e, vs)
  }

  lemma RefiledNext(t: Fifo, c: Fifo, e: Ftl, vs: seq<nat>, scan: nat)
    requires |vs| > 0 && InRange(e, vs) && c.free == OpenOf(e, vs) && |c.free| > 0 && c.free[0] == vs[0]
    requires c.queue.list == Without(t.queue.list + [t.current], Members(vs)) + FullOf(e, vs)
    requires c.queue == FileAll(Queue(t.queue.list + [t.current], scan), e, vs)
    ensures Refiled(t, NextFreeFifo(c), e, vs, scan)
  {
    hide OpenOf, FullOf, Without, FileAll, Members;
    assert c.free == [c.free[0]] + c.free[1..];
  }

  /** The state a write goes to after a collection. */
  lemma CollectedFifo(t: Fifo, vs: seq<nat>, scan: nat)
    requires ReadyFifo(t) && Delivers(t, vs, scan) && NeedsGcFifo(t) && ProvidedFifo(t, vs, scan).Some?
    ensures FullVictims(t.d, vs) && CompactList(t.d, vs).Some?
    ensures var p, e := ProvidedFifo(t, vs, scan).value, CompactList(t.d, vs).value;
            p.d == e && Refiled(t, p, e, vs, scan)
  {
    hide ReadyFifo, Delivers, ProvidedFifo, Shelved, GcFifo, Scanned, CompactList, Without, FileAll, FullOf, OpenOf,
         FullVictims, InRange, Refiled, Members;
    ReadyFifoParts(t);
    ProvidedFifoGc(t, vs, scan);
    GcFifoLists(RetiredFifo(t), vs, scan);
    RefiledNext(t, GcFifo(RetiredFifo(t), vs, scan).value, CompactList(t.d, vs).value, vs, scan);
  }

  lemma ProvidedFifoPlain(t: Fifo, vs: seq<nat>, scan: nat)
    requires ReadyFifo(t) && Delivers(t, vs, scan) && !NeedsGcFifo(t)
    ensures ProvidedFifo(t, vs, scan) ==
      Some(if CurrentFullFifo(t) then t.(current := t.free[0], free := t.free[1..], queue := Joined(t)) else t)
  {
    hide Shelved, GcFifo, Scanned, InvalidSum;
    JoinedIs(t);
  }

  /** Which blocks a host write uses, and where the full current block goes. The page goes
      to the last written slot of the current block. A current block with room is kept and
      the queue is left alone; a full one joins the end of the queue, before any
      collection, and the front of the free list takes its place. */
  lemma HostWriteFifoBlocks(t: Fifo, l: nat, vs: seq<nat>, scan: nat)
    requires ReadyFifo(t) && l < |t.d.ltp| && Delivers(t, vs, scan) && HostWriteFifo(t, l, vs, scan).Some?
    ensures var r := HostWriteFifo(t, l, vs, scan).value;
      && PageWritten(r.d, l, r.current)
      && (!CurrentFullFifo(t) ==> r == t.(d := r.d) && OnlyMoves(t.d, r.d, l))
      && (CurrentFullFifo(t) && |t.free| > 0 ==>
            && r == t.(d := r.d, current := t.free[0], free := t.free[1..], queue := Joined(t))
            && OnlyMoves(t.d, r.d, l))
      && (NeedsGcFifo(t) ==>
            && FullVictims(t.d, vs) && CompactList(t.d, vs).Some?
            && var e := CompactList(t.d, vs).value;
               r.d.phys == e.phys + 1 && Refiled(t, r, e, vs, scan))
  {
    hide ReadyFifo, Good, Conserved, Mapped, WritePage, ProvidedFifo, Delivers, CompactList, Without, FileAll, FullOf,
         OpenOf, InvalidSum, FullVictims, Joined, Ftl.Erases, Ftl.Written;
    ReadyFifoParts(t);
    var p := ProvidedFifo(t, vs, scan).value;
    ReadyFifoParts(p);
    WritePageEffect(p.d, l, p.current);
    WritePagePlaces(p.d, l, p.current);
    if NeedsGcFifo(t) {
      CollectedFifo(t, vs, scan);
    } else {
      ProvidedFifoPlain(t, vs, scan);
    }
  }
}
