/** Policy-independent safety: what holds after any sequence of device operations,
    provided only fully written blocks are compacted or erased and only blocks
    without valid pages are erased. */
module FlashRuns {
  import opened Options
  import opened Flash
  import Counting
  import Migration

  datatype Op = Write(page: nat, blk: nat) | Migrate(source: nat, dest: nat) | Compact(blk: nat) | Erase(blk: nat)

  /** The conditions under which the collectors issue an operation. */
  predicate Allowed(d: Ftl, op: Op)
  {
    match op
    case Write(l, b) => l < |d.ltp| && b < |d.blocks| && d.blocks[b].CanWrite()
    case Migrate(s, t) => s < |d.blocks| && t < |d.blocks|
    case Compact(b) => b < |d.blocks| && d.blocks[b].FullyWritten()
    case Erase(b) => b < |d.blocks| && d.blocks[b].FullyWritten() && d.blocks[b].AllInvalid()
  }

  /** Consistent tables and conserved flash, for a device of a given shape. */
  ghost predicate Sane(d: Ftl, ppb: nat, blockCount: nat, logicalPages: nat)
  {
    Good(d) && Conserved(d) && d.ppb == ppb && |d.blocks| == blockCount && |d.ltp| == logicalPages
  }

  function Apply(d: Ftl, op: Op): (r: Ftl)
    requires Good(d) && Conserved(d) && Allowed(d, op)
    ensures Sane(r, d.ppb, |d.blocks|, |d.ltp|)
    ensures Mapped(r) == Mapped(d) + if op.Write? then {op.page} else {}
  {
    hide Good, Conserved, Mapped, WritePage, CompactBlock, EraseBlock, Migration.MoveValidPages;
    match op
    case Write(l, b) => WritePageEffect(d, l, b); WritePage(d, l, b)
    case Migrate(s, t) => MoveSane(d, s, t); Migration.MoveValidPages(d, s, t)
    case Compact(b) => CompactEffect(d, b); CompactBlock(d, b)
    case Erase(b) => EraseEffect(d, b); EraseBlock(d, b)
  }

  lemma MoveSane(d: Ftl, s: nat, t: nat)
    requires Good(d) && Conserved(d) && s < |d.blocks| && t < |d.blocks|
    ensures Sane(Migration.MoveValidPages(d, s, t), d.ppb, |d.blocks|, |d.ltp|)
    ensures Mapped(Migration.MoveValidPages(d, s, t)) == Mapped(d)
  {
  }

  ghost predicate AllAllowed(d: Ftl, ops: seq<Op>)
    requires Good(d) && Conserved(d)
    decreases |ops|
  {
    |ops| == 0 || (Allowed(d, ops[0]) && AllAllowed(Apply(d, ops[0]), ops[1..]))
  }

  function ApplyAll(d: Ftl, ops: seq<Op>): (r: Ftl)
    requires Good(d) && Conserved(d) && AllAllowed(d, ops)
    decreases |ops|
  {
    if |ops| == 0 then d else ApplyAll(Apply(d, ops[0]), ops[1..])
  }

  ghost function HostPages(ops: seq<Op>): set<nat>
  {
    set op | op in ops && op.Write? :: op.page
  }

  /** After any run of operations: the tables are inverse, every physical write is
      accounted for by occupied slots and erases, the mapped pages are those ever
      written, and the valid counters add up to their number. */
  lemma {:induction false} AnyRun(d: Ftl, ops: seq<Op>)
    requires Good(d) && Conserved(d) && AllAllowed(d, ops)
    ensures var r := ApplyAll(d, ops);
      && Sane(r, d.ppb, |d.blocks|, |d.ltp|)
      && Mapped(r) == Mapped(d) + HostPages(ops)
      && r.Valid() == |Mapped(d) + HostPages(ops)|
    decreases |ops|
  {
    hide Good, Conserved, Mapped, Apply, HostPages, Ftl.Valid;
    if |ops| == 0 {
      NoHostPages();
      Counting.ValidCountsMapped(d);
      assert Mapped(d) + {} == Mapped(d);
    } else {
      var e := Apply(d, ops[0]);
      AnyRun(e, ops[1..]);
      FirstHostPage(ops);
      assert Mapped(e) + HostPages(ops[1..]) == Mapped(d) + HostPages(ops);
    }
  }

  lemma NoHostPages()
    ensures HostPages([]) == {}
  {
  }

  lemma FirstHostPage(ops: seq<Op>)
    requires |ops| > 0
    ensures HostPages(ops) == (if ops[0].Write? then {ops[0].page} else {}) + HostPages(ops[1..])
  {
    assert ops == [ops[0]] + ops[1..];
  }

  /** In a consistent device the map points at a slot exactly when the slot holds the
      page. */
  lemma TablesInverse(d: Ftl, l: nat, b: nat, p: nat)
    requires Good(d) && l < |d.ltp| && b < |d.blocks| && p < d.ppb
    ensures d.ltp[l] == Some(Loc(b, p)) <==> d.blocks[b].ptl[p] == Some(l)
  {
    if d.ltp[l].Some? {
      assert Holds(d, d.ltp[l].value, l);
    }
  }

  /** Compaction is a stable filter: the table becomes its used entries in order,
      then padding, and each page moves to its rank. */
  lemma CompactionIsStableFilter(d: Ftl, b: nat, p: nat, q: nat)
    requires Good(d) && b < |d.blocks| && p < q < d.ppb
    requires d.blocks[b].ptl[p].Some? && d.blocks[b].ptl[q].Some?
    ensures var r := CompactBlock(d, b);
      && Used(r.blocks[b].ptl) == Used(d.blocks[b].ptl)
      && (forall k :: 0 <= k < d.ppb ==> (r.blocks[b].ptl[k].Some? <==> k < d.blocks[b].validCnt))
      && Rank(d.blocks[b].ptl, p) < Rank(d.blocks[b].ptl, q)
      && r.blocks[b].ptl[Rank(d.blocks[b].ptl, p)] == d.blocks[b].ptl[p]
      && r.ltp[d.blocks[b].ptl[p].value] == Some(Loc(b, Rank(d.blocks[b].ptl, p)))
  {
    var s := d.blocks[b].ptl;
    assert WfBlk(d.blocks[b], d.ppb);
    BlkCompactWf(d.blocks[b], d.ppb);
    UsedPack(Used(s), |s|);
    UsedAtRank(s, p);
    CompactRemaps(d, b, Rank(s, p));
    RankIncreases(s, p, q);
  }

  lemma RankIncreases(s: seq<Slot>, p: nat, q: nat)
    requires p < q <= |s| && s[p].Some?
    ensures Rank(s, p) < Rank(s, q)
  {
    UsedSplit(s[..q], p);
    assert s[..q][..p] == s[..p];
  }
}
