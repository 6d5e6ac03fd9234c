/** Chained compaction: each victim is compacted and takes in the valid pages of
    the one before it, until the first victim is empty. */
module Chain {
  import opened Options
  import opened Flash
  import opened Migration

  /** Slots of a block that hold no valid page; an id that names no block has none. */
  function InvalidCnt(d: Ftl, b: nat): (n: int)
  {
    if b < |d.blocks| then d.ppb - d.blocks[b].validCnt else 0
  }

  function InvalidSum(d: Ftl, vs: seq<nat>): (n: int)
  {
    if |vs| == 0 then 0 else InvalidSum(d, vs[..|vs| - 1]) + InvalidCnt(d, vs[|vs| - 1])
  }

  /** Distinct, fully written blocks. */
  ghost predicate FullVictims(d: Ftl, vs: seq<nat>)
  {
    && (forall i :: 0 <= i < |vs| ==> vs[i] < |d.blocks| && d.blocks[vs[i]].FullyWritten())
    && (forall i, j :: 0 <= i < j < |vs| ==> vs[i] != vs[j])
  }

  /** One link: the last victim is compacted and filled from the one before it. */
  function Link(d: Ftl, source: nat, dest: nat): (r: Ftl)
    requires Good(d) && source < |d.blocks| && dest < |d.blocks|
    ensures Good(r) && Mapped(r) == Mapped(d)
    ensures |r.blocks| == |d.blocks| && |r.ltp| == |d.ltp| && r.ppb == d.ppb
    ensures Conserved(d) && d.blocks[dest].FullyWritten() ==> Conserved(r)
  {
    CompactEffect(d, dest);
    MoveValidPages(CompactBlock(d, dest), source, dest)
  }

  /** The backward loop over the victims. */
  function Links(d: Ftl, vs: seq<nat>): (r: Ftl)
    requires Good(d) && FullVictims(d, vs)
    ensures Good(r) && Mapped(r) == Mapped(d)
    ensures |r.blocks| == |d.blocks| && |r.ltp| == |d.ltp| && r.ppb == d.ppb
    ensures Conserved(d) ==> Conserved(r)
    decreases |vs|
  {
    hide Link, Good, Mapped, Conserved;
    if |vs| <= 1 then d
    else
      var n := |vs| - 1;
      LinkVictims(d, vs);
      Links(Link(d, vs[n - 1], vs[n]), vs[..n])
  }

  lemma LinksOne(d: Ftl, vs: seq<nat>)
    requires Good(d) && FullVictims(d, vs)
    ensures |vs| == 1 ==> Links(d, vs) == d
  {
  }

  lemma LinkIs(d: Ftl, source: nat, dest: nat)
    requires Good(d) && source < |d.blocks| && dest < |d.blocks|
    ensures Good(CompactBlock(d, dest))
    ensures Link(d, source, dest) == MoveValidPages(CompactBlock(d, dest), source, dest)
  {
    CompactGood(d, dest);
  }

  /** One turn of the backward loop. */
  lemma LinksStep(d: Ftl, vs: seq<nat>)
    requires Good(d) && FullVictims(d, vs) && |vs| >= 2
    ensures FullVictims(Link(d, vs[|vs| - 2], vs[|vs| - 1]), vs[..|vs| - 1])
    ensures Links(d, vs) == Links(Link(d, vs[|vs| - 2], vs[|vs| - 1]), vs[..|vs| - 1])
  {
    hide Good, Conserved, Mapped, Link;
    LinkVictims(d, vs);
  }

  /** What a link does: the source keeps what does not fit, the destination is
      left with the surplus room, no other block changes. */
  lemma LinkCounts(d: Ftl, source: nat, dest: nat)
    requires Good(d) && source < |d.blocks| && dest < |d.blocks| && source != dest
    ensures var r := Link(d, source, dest);
      && r.blocks[source].writePos == d.blocks[source].writePos
      && InvalidCnt(r, source) == Min(d.ppb, InvalidCnt(d, source) + InvalidCnt(d, dest))
      && Free(r, dest) == Max(0, InvalidCnt(d, source) + InvalidCnt(d, dest) - d.ppb)
      && (forall b :: 0 <= b < |d.blocks| && b != source && b != dest ==> r.blocks[b] == d.blocks[b])
  {
    CompactEffect(d, dest);
    MoveCounts(CompactBlock(d, dest), source, dest);
    hide Good, Conserved, Mapped, CompactBlock, MoveValidPages, Ftl.Valid, Ftl.Written, Ftl.Erases;
  }

  lemma ExtendedHolds(d: Ftl, r: Ftl, b: nat, own: seq<nat>, pages: seq<nat>)
    requires HoldsFirst(d, b, own) && d.blocks[b].writePos == |own| && Extended(d, r, b, pages)
    ensures HoldsFirst(r, b, own + pages)
  {
  }

  /** Where a link puts the pages: the destination's own first, then those of the source
      that fit, from its first slot on; the others stay in the source, in order. */
  lemma LinkPages(d: Ftl, source: nat, dest: nat)
    requires Good(d) && source < |d.blocks| && dest < |d.blocks| && source != dest
    ensures var r, own, pages := Link(d, source, dest), Used(d.blocks[dest].ptl), Used(d.blocks[source].ptl);
      var k := Min(d.ppb - |own|, |pages|);
      && 0 <= k <= |pages| && source < |r.blocks|
      && HoldsFirst(r, dest, own + pages[..k])
      && Used(r.blocks[source].ptl) == pages[k..]
  {
    hide Good, Conserved, Mapped, CompactBlock, MoveValidPages, Used, HoldsFirst, Extended, Ftl.Valid, Ftl.Written, Ftl.Erases;
    CompactEffect(d, dest);
    CompactHolds(d, dest);
    UsedCount(d, dest);
    var c := CompactBlock(d, dest);
    MovePages(c, source, dest);
    var own, pages := Used(d.blocks[dest].ptl), Used(d.blocks[source].ptl);
    ExtendedHolds(c, Link(d, source, dest), dest, own, pages[..Min(d.ppb - |own|, |pages|)]);
  }

  function Max(a: int, b: int): (m: int)
  {
    if a < b then b else a
  }

  lemma LinkVictims(d: Ftl, vs: seq<nat>)
    requires Good(d) && FullVictims(d, vs) && |vs| >= 2
    ensures var r := Link(d, vs[|vs| - 2], vs[|vs| - 1]);
            FullVictims(r, vs[..|vs| - 1])
  {
    var n := |vs| - 1;
    LinkCounts(d, vs[n - 1], vs[n]);
    var r := Link(d, vs[n - 1], vs[n]);
    forall i | 0 <= i < n
      ensures r.blocks[vs[i]].FullyWritten()
    {
      BlockFacts(d, vs[i]);
      BlockFacts(r, vs[i]);
    }
    hide Good, Link;
  }

  /** Blocks that are not victims are left alone. */
  lemma {:induction false} LinksKeep(d: Ftl, vs: seq<nat>, b: nat)
    requires Good(d) && FullVictims(d, vs) && b < |d.blocks| && b !in vs
    ensures Links(d, vs).blocks[b] == d.blocks[b]
    decreases |vs|
  {
    hide Good, Link, Conserved, Mapped, InvalidCnt;
    if |vs| < 2 {
    } else {
      var n := |vs| - 1;
      LinkVictims(d, vs);
      LinkCounts(d, vs[n - 1], vs[n]);
      assert b !in vs[..n] && b != vs[n - 1] && b != vs[n];
      LinksKeep(Link(d, vs[n - 1], vs[n]), vs[..n], b);
    }
  }

  lemma {:induction false} InvalidSumFrame(d: Ftl, r: Ftl, vs: seq<nat>)
    requires |r.blocks| == |d.blocks| && r.ppb == d.ppb
    requires forall i :: 0 <= i < |vs| && vs[i] < |d.blocks| ==> r.blocks[vs[i]] == d.blocks[vs[i]]
    ensures InvalidSum(r, vs) == InvalidSum(d, vs)
  {
    if |vs| == 0 {
    } else {
      InvalidSumFrame(d, r, vs[..|vs| - 1]);
    }
  }

  lemma {:induction false} InvalidSumNat(d: Ftl, vs: seq<nat>)
    requires Good(d)
    ensures 0 <= InvalidSum(d, vs)
  {
    if |vs| == 0 {
    } else {
      InvalidSumNat(d, vs[..|vs| - 1]);
      if vs[|vs| - 1] < |d.blocks| {
        BlockFacts(d, vs[|vs| - 1]);
      }
    }
  }

  lemma InvalidSumLast(d: Ftl, vs: seq<nat>, b: nat)
    ensures InvalidSum(d, vs + [b]) == InvalidSum(d, vs) + InvalidCnt(d, b)
  {
    assert (vs + [b])[..|vs|] == vs;
  }

  /** A link merges the invalid pages of its two blocks into the source, up to one
      block; a prefix of other victims keeps its own. */
  lemma LinkSums(d: Ftl, prefix: seq<nat>, source: nat, dest: nat)
    requires Good(d) && source < |d.blocks| && dest < |d.blocks| && source != dest
    requires source !in prefix && dest !in prefix
    ensures var r := Link(d, source, dest);
      && InvalidSum(d, prefix + [source] + [dest]) == InvalidSum(d, prefix) + InvalidCnt(d, source) + InvalidCnt(d, dest)
      && InvalidSum(r, prefix + [source]) == InvalidSum(d, prefix) + Min(d.ppb, InvalidCnt(d, source) + InvalidCnt(d, dest))
      && 0 <= InvalidSum(d, prefix)
  {
    hide Good, Link, Conserved, Mapped;
    LinkCounts(d, source, dest);
    InvalidSumNat(d, prefix);
    InvalidSumLast(d, prefix + [source], dest);
    InvalidSumLast(d, prefix, source);
    InvalidSumLast(Link(d, source, dest), prefix, source);
    InvalidSumFrame(d, Link(d, source, dest), prefix);
  }

  lemma TailShape(vs: seq<nat>, j: nat)
    requires j + 2 <= |vs|
    ensures var n := |vs| - 1;
      && vs[j..] == vs[j..n - 1] + [vs[n - 1]] + [vs[n]]
      && vs[..n][j..] == vs[j..n - 1] + [vs[n - 1]]
  {
  }

  /** The invalid total of any tail of the victims, one link later. */
  lemma LinkTail(d: Ftl, vs: seq<nat>, j: nat)
    requires Good(d) && FullVictims(d, vs) && j + 2 <= |vs|
    ensures var n := |vs| - 1;
      Min(d.ppb, InvalidSum(Link(d, vs[n - 1], vs[n]), vs[..n][j..])) == Min(d.ppb, InvalidSum(d, vs[j..]))
  {
    hide Good, Link, InvalidSum, InvalidCnt;
    var n := |vs| - 1;
    TailShape(vs, j);
    LinkSums(d, vs[j..n - 1], vs[n - 1], vs[n]);
  }

  lemma FirstAlone(d: Ftl, vs: seq<nat>)
    requires Good(d) && |vs| == 1 && vs[0] < |d.blocks|
    ensures InvalidCnt(d, vs[0]) == Min(d.ppb, InvalidSum(d, vs))
  {
    BlockFacts(d, vs[0]);
    assert vs[..0] == [];
  }

  /** The carried room: after the loop the first victim has lost as many valid
      pages as the victims had invalid ones, up to all of them. */
  lemma {:induction false} FirstVictim(d: Ftl, vs: seq<nat>)
    requires Good(d) && FullVictims(d, vs) && |vs| > 0
    ensures InvalidCnt(Links(d, vs), vs[0]) == Min(d.ppb, InvalidSum(d, vs))
    ensures Links(d, vs).blocks[vs[0]].FullyWritten()
    decreases |vs|
  {
    hide Good, Link, Mapped, Conserved, InvalidCnt;
    if |vs| == 1 {
      FirstAlone(d, vs);
    } else {
      var n := |vs| - 1;
      LinkVictims(d, vs);
      LinkTail(d, vs, 0);
      assert vs[0..] == vs && vs[..n][0..] == vs[..n];
      FirstVictim(Link(d, vs[n - 1], vs[n]), vs[..n]);
    }
  }

  /** What the tail from `j` on carried plus the invalid pages of the victim before
      `j`, less one block. */
  function Surplus(d: Ftl, vs: seq<nat>, j: nat): (n: int)
    requires 0 < j < |vs|
  {
    Max(0, Min(d.ppb, InvalidSum(d, vs[j..])) + InvalidCnt(d, vs[j - 1]) - d.ppb)
  }

  /** The room left in every later victim: what the tail carried plus the invalid
      pages of its predecessor, less one block. */
  lemma {:induction false} LaterVictim(d: Ftl, vs: seq<nat>, j: nat)
    requires Good(d) && FullVictims(d, vs) && 0 < j < |vs|
    ensures Free(Links(d, vs), vs[j]) == Surplus(d, vs, j)
    decreases |vs|
  {
    hide Good, Link, Mapped, Conserved, InvalidSum, InvalidCnt, Free;
    var n := |vs| - 1;
    var r := Link(d, vs[n - 1], vs[n]);
    LinkVictims(d, vs);
    LinkCounts(d, vs[n - 1], vs[n]);
    if j == n {
      LastAlone(d, vs);
      LinksKeep(r, vs[..n], vs[n]);
      FreeFrame(r, Links(r, vs[..n]), vs[n]);
    } else {
      LinkTail(d, vs, j);
      InvalidFrame(d, r, vs[j - 1]);
      LaterVictim(r, vs[..n], j);
    }
  }

  lemma LastAlone(d: Ftl, vs: seq<nat>)
    requires Good(d) && |vs| > 0 && vs[|vs| - 1] < |d.blocks|
    ensures Min(d.ppb, InvalidSum(d, vs[|vs| - 1..])) == InvalidCnt(d, vs[|vs| - 1])
  {
    var n := |vs| - 1;
    assert vs[n..] == [vs[n]];
    FirstAlone(d, [vs[n]]);
  }

  lemma FreeFrame(d: Ftl, r: Ftl, b: nat)
    requires b < |d.blocks| && b < |r.blocks| && r.blocks[b] == d.blocks[b] && r.ppb == d.ppb
    ensures Free(r, b) == Free(d, b)
  {
  }

  lemma InvalidFrame(d: Ftl, r: Ftl, b: nat)
    requires b < |d.blocks| && b < |r.blocks| && r.blocks[b] == d.blocks[b] && r.ppb == d.ppb
    ensures InvalidCnt(r, b) == InvalidCnt(d, b)
  {
  }

  lemma InvalidSumOne(d: Ftl, b: nat)
    ensures InvalidSum(d, [b]) == InvalidCnt(d, b)
  {
    var one: seq<nat> := [b];
    assert one[..0] == [];
  }

  /* ---------- the whole operation ---------- */

  /** Chained compaction of a victim list; None stands for the exceptions: an
      empty list, or a first victim that still holds valid pages. */
  function CompactList(d: Ftl, vs: seq<nat>): (r: Option<Ftl>)
    requires Good(d) && FullVictims(d, vs)
    ensures r.Some? ==> Good(r.value) && Mapped(r.value) == Mapped(d) && (Conserved(d) ==> Conserved(r.value))
    ensures r.Some? ==> |r.value.blocks| == |d.blocks| && |r.value.ltp| == |d.ltp| && r.value.ppb == d.ppb
  {
    if |vs| == 0 then None
    else
      var e := Links(d, vs);
      if e.blocks[vs[0]].AllInvalid() then
        FirstVictim(d, vs);
        EraseEffect(e, vs[0]);
        Some(EraseBlock(e, vs[0]))
      else None
  }

  /** A block is freed exactly when the victims hold a block's worth of invalid
      pages between them. */
  lemma CompactListFrees(d: Ftl, vs: seq<nat>)
    requires Good(d) && FullVictims(d, vs)
    ensures CompactList(d, vs).Some? <==> |vs| > 0 && d.ppb <= InvalidSum(d, vs)
  {
    if |vs| > 0 {
      FirstVictim(d, vs);
      BlockFacts(d, vs[0]);
    }
  }

  lemma LinkErases(d: Ftl, source: nat, dest: nat)
    requires Good(d) && source < |d.blocks| && dest < |d.blocks|
    ensures Link(d, source, dest).Erases() == d.Erases() + 1
  {
    CompactEffect(d, dest);
    hide Good, Conserved, Mapped, CompactBlock, Ftl.Valid, Ftl.Written, Ftl.Erases;
  }

  lemma {:induction false} LinksErases(d: Ftl, vs: seq<nat>)
    requires Good(d) && FullVictims(d, vs) && |vs| > 0
    ensures Links(d, vs).Erases() == d.Erases() + |vs| - 1
    decreases |vs|
  {
    hide Good, Link, Mapped, Conserved, Ftl.Erases;
    if |vs| == 1 {
    } else {
      var n := |vs| - 1;
      LinkVictims(d, vs);
      LinkErases(d, vs[n - 1], vs[n]);
      LinksErases(Link(d, vs[n - 1], vs[n]), vs[..n]);
    }
  }

  /** Every victim is erased or compacted exactly once. */
  lemma CompactListErases(d: Ftl, vs: seq<nat>)
    requires Good(d) && FullVictims(d, vs) && CompactList(d, vs).Some?
    ensures CompactList(d, vs).value.Erases() == d.Erases() + |vs|
  {
    hide Good, Links, Mapped, Conserved, EraseBlock, Ftl.Erases, Ftl.Valid, Ftl.Written;
    LinksErases(d, vs);
    EraseEffect(Links(d, vs), vs[0]);
  }

  /** Where the invalid space ends up: the first victim is erased, each later one
      has the room given by the carry, and no other block changes. */
  lemma CompactListEffect(d: Ftl, vs: seq<nat>)
    requires Good(d) && FullVictims(d, vs) && CompactList(d, vs).Some?
    ensures var r := CompactList(d, vs).value;
      && r.blocks[vs[0]].IsErased()
      && (forall j :: 0 < j < |vs| ==>
            Free(r, vs[j]) == Surplus(d, vs, j))
      && (forall b :: 0 <= b < |d.blocks| && b !in vs ==> r.blocks[b] == d.blocks[b])
  {
    hide Good, Conserved, Mapped, Links, EraseBlock, InvalidSum, InvalidCnt, Free, Ftl.Valid, Ftl.Written, Ftl.Erases;
    var e := Links(d, vs);
    var r := CompactList(d, vs).value;
    EraseEffect(e, vs[0]);
    forall j | 0 < j < |vs|
      ensures Free(r, vs[j]) == Surplus(d, vs, j)
    {
      LaterVictim(d, vs, j);
      FreeFrame(e, r, vs[j]);
    }
    forall b | 0 <= b < |d.blocks| && b !in vs
      ensures r.blocks[b] == d.blocks[b]
    {
      LinksKeep(d, vs, b);
    }
  }

  /** Victims in greedy order: no fewer invalid pages first, and no more victims
      than needed. */
  ghost predicate GreedyOrder(d: Ftl, vs: seq<nat>)
  {
    && |vs| > 0
    && (forall i, j :: 0 <= i <= j < |vs| ==> InvalidCnt(d, vs[j]) <= InvalidCnt(d, vs[i]))
    && InvalidSum(d, vs[..|vs| - 1]) < d.ppb <= InvalidSum(d, vs)
  }

  lemma {:induction false} InvalidSumSplit(d: Ftl, vs: seq<nat>, j: nat)
    requires j <= |vs|
    ensures InvalidSum(d, vs) == InvalidSum(d, vs[..j]) + InvalidSum(d, vs[j..])
    decreases |vs|
  {
    if j == |vs| {
      assert vs[..j] == vs && vs[j..] == [];
    } else {
      var n := |vs| - 1;
      InvalidSumSplit(d, vs[..n], j);
      assert vs[..n][..j] == vs[..j];
      assert vs[j..][..|vs[j..]| - 1] == vs[..n][j..];
    }
  }

  /** In greedy order all victims but the first fall short of a block. */
  lemma SecondOnShort(d: Ftl, vs: seq<nat>)
    requires GreedyOrder(d, vs)
    ensures InvalidSum(d, vs[1..]) < d.ppb
    ensures InvalidSum(d, vs[1..]) + InvalidCnt(d, vs[0]) == InvalidSum(d, vs)
  {
    var n := |vs| - 1;
    InvalidSumSplit(d, vs, 1);
    InvalidSumHead(d, vs);
    InvalidSumSplit(d, vs, n);
    assert vs[n..] == [vs[n]];
    InvalidSumOne(d, vs[n]);
    assert InvalidCnt(d, vs[n]) <= InvalidCnt(d, vs[0]);
  }

  /** In greedy order only the first victim and possibly the second end writable;
      the second gets exactly the surplus over one block. */
  lemma GreedyOrderOutcome(d: Ftl, vs: seq<nat>)
    requires Good(d) && FullVictims(d, vs) && GreedyOrder(d, vs)
    ensures CompactList(d, vs).Some?
    ensures var r := CompactList(d, vs).value;
      && r.blocks[vs[0]].IsErased()
      && (|vs| > 1 ==> Free(r, vs[1]) == InvalidSum(d, vs) - d.ppb)
      && (forall j :: 2 <= j < |vs| ==> Free(r, vs[j]) == 0)
  {
    CompactListFrees(d, vs);
    CompactListEffect(d, vs);
    hide Good, CompactList, InvalidSum, InvalidCnt, Free, Mapped, Conserved, GreedyOrder, Surplus;
    forall j | 0 < j < |vs|
      ensures Surplus(d, vs, j) == if j == 1 then InvalidSum(d, vs) - d.ppb else 0
    {
      GreedySurplus(d, vs, j);
    }
  }

  lemma GreedySurplus(d: Ftl, vs: seq<nat>, j: nat)
    requires Good(d) && GreedyOrder(d, vs) && 0 < j < |vs|
    ensures Surplus(d, vs, j) == if j == 1 then InvalidSum(d, vs) - d.ppb else 0
  {
    SecondOnShort(d, vs);
    InvalidSumNat(d, vs[j..]);
    if j > 1 {
      TailBelow(d, vs, j);
    }
    hide Good, InvalidSum, InvalidCnt;
  }

  lemma InvalidSumHead(d: Ftl, vs: seq<nat>)
    requires |vs| > 0
    ensures InvalidSum(d, vs[..1]) == InvalidCnt(d, vs[0])
  {
    assert vs[..1] == [vs[0]];
    InvalidSumOne(d, vs[0]);
  }

  lemma TailBelow(d: Ftl, vs: seq<nat>, j: nat)
    requires Good(d) && 2 <= j < |vs|
    ensures InvalidSum(d, vs[j..]) + InvalidCnt(d, vs[j - 1]) <= InvalidSum(d, vs[1..])
  {
    InvalidSumSplit(d, vs[1..], j - 1);
    assert vs[1..][j - 1..] == vs[j..];
    assert vs[1..][..j - 1][..j - 2] == vs[1..j - 1];
    InvalidSumNat(d, vs[1..j - 1]);
  }
}
