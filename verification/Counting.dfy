/** The counting bijection: in a consistent device the valid counters add up to
    the number of mapped logical pages. */
module Counting {
  import opened Options
  import opened Flash
  import Sums

  /** Logical pages mapped into block `b` below slot `p`. */
  ghost function MappedInBlock(d: Ftl, b: nat, p: nat): set<nat>
  {
    set l | 0 <= l < |d.ltp| && d.ltp[l].Some? && d.ltp[l].value.blk == b && d.ltp[l].value.pos < p
  }

  /** Logical pages mapped into the first `k` blocks. */
  ghost function MappedBelow(d: Ftl, k: nat): set<nat>
  {
    set l | 0 <= l < |d.ltp| && d.ltp[l].Some? && d.ltp[l].value.blk < k
  }

  lemma MapHolds(d: Ftl)
    requires Good(d)
    ensures forall l :: 0 <= l < |d.ltp| && d.ltp[l].Some? ==> Holds(d, d.ltp[l].value, l)
  {
  }

  /** Slot `p` contributes its page, if any, to the pages mapped into its block. */
  lemma MappedInBlockStep(d: Ftl, b: nat, p: nat)
    requires Good(d) && b < |d.blocks| && p < d.ppb
    ensures var slot := d.blocks[b].ptl[p];
            var here := if slot.Some? then {slot.value} else {};
            MappedInBlock(d, b, p + 1) == MappedInBlock(d, b, p) + here && MappedInBlock(d, b, p) !! here
  {
    MapHolds(d);
    hide Used;
    var slot := d.blocks[b].ptl[p];
    forall l | l in MappedInBlock(d, b, p + 1) && l !in MappedInBlock(d, b, p)
      ensures slot == Some(l)
    {
      assert d.ltp[l] == Some(Loc(b, p));
      assert Holds(d, Loc(b, p), l);
    }
    if slot.Some? {
      assert d.ltp[slot.value] == Some(Loc(b, p));
    }
  }

  lemma {:induction false} BlockCount(d: Ftl, b: nat, p: nat)
    requires Good(d) && b < |d.blocks| && p <= d.ppb
    ensures |MappedInBlock(d, b, p)| == |Used(d.blocks[b].ptl[..p])|
  {
    var s := d.blocks[b].ptl;
    if p == 0 {
      assert MappedInBlock(d, b, p) == {};
    } else {
      assert Used(s[..p]) == Used(s[..p - 1]) + if s[p - 1].Some? then [s[p - 1].value] else [] by {
        assert s[..p][..p - 1] == s[..p - 1];
      }
      MappedInBlockStep(d, b, p - 1);
      hide Used, MappedInBlock, Good;
      BlockCount(d, b, p - 1);
    }
  }

  lemma {:induction false} PrefixCount(d: Ftl, k: nat)
    requires Good(d) && k <= |d.blocks|
    ensures |MappedBelow(d, k)| == Sums.Sum(ValidOf, d.blocks[..k])
  {
    if k == 0 {
      assert MappedBelow(d, k) == {};
    } else {
      PrefixCount(d, k - 1);
      BlockCount(d, k - 1, d.ppb);
      assert d.blocks[..k][..k - 1] == d.blocks[..k - 1];
      var s := d.blocks[k - 1].ptl;
      assert s[..d.ppb] == s;
      forall l | 0 <= l < |d.ltp| && d.ltp[l].Some?
        ensures Holds(d, d.ltp[l].value, l)
      {
      }
      assert MappedBelow(d, k) == MappedBelow(d, k - 1) + MappedInBlock(d, k - 1, d.ppb);
      assert MappedBelow(d, k - 1) !! MappedInBlock(d, k - 1, d.ppb);
    }
  }

  /** The valid counters count the mapped logical pages. */
  lemma ValidCountsMapped(d: Ftl)
    requires Good(d)
    ensures d.Valid() == |Mapped(d)|
  {
    PrefixCount(d, |d.blocks|);
    assert d.blocks[..|d.blocks|] == d.blocks;
    forall l | 0 <= l < |d.ltp| && d.ltp[l].Some?
      ensures Holds(d, d.ltp[l].value, l)
    {
    }
    assert Mapped(d) == MappedBelow(d, |d.blocks|);
  }

  ghost function Below(n: nat): (s: set<nat>)
    ensures forall l :: l in s <==> 0 <= l < n
  {
    if n == 0 then {} else Below(n - 1) + {n - 1}
  }

  lemma {:induction false} BelowSize(n: nat)
    ensures |Below(n)| == n
  {
    if n == 0 {
    } else {
      BelowSize(n - 1);
    }
  }

  lemma {:induction false} SubsetSize<T>(a: set<T>, b: set<T>)
    requires a <= b
    ensures |a| <= |b|
    ensures |a| == |b| ==> a == b
    decreases a
  {
    if a == {} {
    } else {
      var x :| x in a;
      SubsetSize(a - {x}, b - {x});
      assert a == (a - {x}) + {x} && b == (b - {x}) + {x};
    }
  }

  /** No more valid pages than logical pages, with equality exactly when every
      logical page is mapped. */
  lemma ValidAtMostLogical(d: Ftl)
    requires Good(d)
    ensures d.Valid() <= |d.ltp|
    ensures d.Valid() == |d.ltp| <==> Mapped(d) == Below(|d.ltp|)
  {
    ValidCountsMapped(d);
    BelowSize(|d.ltp|);
    SubsetSize(Mapped(d), Below(|d.ltp|));
  }

  /** A write of a mapped page replaces a valid copy; a write of a new page adds one. */
  lemma WritePageValid(d: Ftl, l: nat, b: nat)
    requires Good(d) && l < |d.ltp| && b < |d.blocks| && d.blocks[b].CanWrite()
    ensures WritePage(d, l, b).Valid() == d.Valid() + if d.ltp[l].Some? then 0 else 1
  {
    hide Good, WritePage, Ftl.Valid;
    WritePageGood(d, l, b);
    WritePageMapped(d, l, b);
    ValidCountsMapped(d);
    ValidCountsMapped(WritePage(d, l, b));
    assert l in Mapped(d) <==> d.ltp[l].Some?;
    assert l in Mapped(d) ==> Mapped(d) + {l} == Mapped(d);
  }
}
