/** Write amplification: how many pages a collection relocates on average, and the
    bound that follows for the physical writes of a whole run. */
module Amortization {
  import opened Options
  import opened Flash
  import opened GreedyPolicy
  import Address
  import Counting
  import Sums

  /** Pigeonhole: among all-full blocks the victim has at most the average number
      of valid pages, and is all valid only if the whole device is. */
  lemma VictimBelowAverage(d: Ftl)
    requires Good(d) && AllFull(d) && |d.blocks| > 0
    ensures var v := Victim(d, |d.blocks|);
      && v.Some?
      && d.blocks[v.value].validCnt * |d.blocks| <= d.Valid()
      && (d.blocks[v.value].AllValid() <==> d.Valid() == d.Capacity())
  {
    AllFullHasVictim(d);
    var v := Victim(d, |d.blocks|).value;
    VictimMinimal(d, v);
    forall b | 0 <= b < |d.blocks|
      ensures ValidOf(d.blocks[b]) <= d.ppb
    {
      BlockFacts(d, b);
    }
    BlockFacts(d, v);
    hide Victim, Good;
    Sums.SumAtLeast(ValidOf, d.blocks, d.blocks[v].validCnt);
    Sums.SumAtMost(ValidOf, d.blocks, d.ppb);
    if d.blocks[v].validCnt < d.ppb {
      var b := d.blocks[v].(validCnt := d.ppb);
      Sums.SumUpdate(ValidOf, d.blocks, v, b);
      Sums.SumAtMost(ValidOf, d.blocks[v := b], d.ppb);
    }
  }

  lemma VictimMinimal(d: Ftl, v: nat)
    requires AllFull(d) && Victim(d, |d.blocks|) == Some(v)
    ensures forall b :: 0 <= b < |d.blocks| ==> d.blocks[v].validCnt <= ValidOf(d.blocks[b])
  {
  }

  /** Greedy makes progress unless every physical page is valid; with spare capacity
      it always does. */
  lemma GreedyProgress(g: Gc, l: nat)
    requires Ready(g) && g.gcBlock.None? && l < |g.d.ltp|
    ensures HostWrite(g, l, Pick(g, false, [])).None? <==> NeedsGc(g) && g.d.Valid() == g.d.Capacity()
    ensures |g.d.ltp| < g.d.Capacity() ==> HostWrite(g, l, Pick(g, false, [])).Some?
  {
    HostWriteFails(g, l, Pick(g, false, []));
    Counting.ValidAtMostLogical(g.d);
    if NeedsGc(g) {
      GcMeansAllFull(g);
      VictimBelowAverage(g.d);
    }
  }

  /** Logical pages per block, rounded down. */
  function MeanLoad(logicalPages: nat, blockCount: nat): (m: nat)
    requires blockCount > 0
  {
    logicalPages / blockCount
  }

  lemma AtMostQuotient(v: nat, n: nat, total: nat)
    requires n > 0 && v * n <= total
    ensures v <= MeanLoad(total, n)
  {
    Address.DivModSplit(n, total);
    if total / n < v {
      Address.MulMono(total / n + 1, v, n);
    }
  }

  lemma QuotientBelow(total: nat, n: nat, c: nat)
    requires n > 0 && total < c * n
    ensures MeanLoad(total, n) < c
  {
    Address.DivModSplit(n, total);
    if c <= total / n {
      Address.MulMono(c, total / n, n);
    }
  }

  /** Relocations never exceed `m` pages per collection. */
  ghost predicate Amortized(d: Ftl, hostWrites: nat, m: nat)
  {
    d.phys <= hostWrites + m * d.Erases()
  }

  /** One more erase, with at most `m` pages relocated. */
  lemma AmortizedErase(d: Ftl, r: Ftl, hostWrites: nat, m: nat, v: nat)
    requires Amortized(d, hostWrites, m) && v <= m
    requires r.phys == d.phys + v && r.Erases() == d.Erases() + 1
    ensures Amortized(r, hostWrites, m)
  {
    hide Ftl.Erases;
    assert m * (d.Erases() + 1) == m * d.Erases() + m;
  }

  lemma AmortizedWrite(d: Ftl, r: Ftl, hostWrites: nat, m: nat)
    requires Amortized(d, hostWrites, m) && r.phys == d.phys + 1 && r.Erases() == d.Erases()
    ensures Amortized(r, hostWrites + 1, m)
  {
  }

  lemma AmortizedBoth(d: Ftl, r: Ftl, hostWrites: nat, m: nat, v: nat)
    requires Amortized(d, hostWrites, m) && v <= m
    requires r.phys == d.phys + v + 1 && r.Erases() == d.Erases() + 1
    ensures Amortized(r, hostWrites + 1, m)
  {
    hide Ftl.Erases;
    assert m * (d.Erases() + 1) == m * d.Erases() + m;
  }

  /** A greedy victim holds at most the average number of logical pages a block. */
  lemma VictimLoad(d: Ftl, v: nat)
    requires Good(d) && AllFull(d) && Victim(d, |d.blocks|) == Some(v)
    ensures d.blocks[v].validCnt <= MeanLoad(|d.ltp|, |d.blocks|)
  {
    VictimBelowAverage(d);
    Counting.ValidAtMostLogical(d);
    hide Good, Victim;
    AtMostQuotient(d.blocks[v].validCnt, |d.blocks|, |d.ltp|);
  }

  /** A greedy host write keeps relocations within floor(L / B) per erase. */
  lemma GreedyKeepsAmortized(g: Gc, l: nat, hostWrites: nat)
    requires Ready(g) && g.gcBlock.None? && l < |g.d.ltp|
    requires Amortized(g.d, hostWrites, MeanLoad(|g.d.ltp|, |g.d.blocks|))
    requires HostWrite(g, l, Pick(g, false, [])).Some?
    ensures Amortized(HostWrite(g, l, Pick(g, false, [])).value.d, hostWrites + 1, MeanLoad(|g.d.ltp|, |g.d.blocks|))
  {
    var v := Pick(g, false, []);
    HostWriteEffect(g, l, v);
    ReadyParts(g);
    hide Ready, HostWrite, Mapped, MeanLoad, Amortized, Ftl.Erases, Victim, Pick;
    if NeedsGc(g) {
      GcMeansAllFull(g);
      VictimLoad(g.d, v);
      AmortizedBoth(g.d, HostWrite(g, l, v).value.d, hostWrites, MeanLoad(|g.d.ltp|, |g.d.blocks|), g.d.blocks[v].validCnt);
    } else {
      AmortizedWrite(g.d, HostWrite(g, l, v).value.d, hostWrites, MeanLoad(|g.d.ltp|, |g.d.blocks|));
    }
  }

  /** The amplification bound: phys / host is at most ppb / (ppb - m). */
  ghost predicate AmplificationWithin(phys: nat, host: nat, ppb: nat, m: nat)
  {
    phys * (ppb - m) <= ppb * host
  }

  /** From the relocation bound to the amplification bound. */
  lemma AmplificationAlgebra(phys: nat, host: nat, written: nat, erases: nat, ppb: nat, m: nat)
    requires phys == written + ppb * erases && phys <= host + m * erases
    ensures AmplificationWithin(phys, host, ppb, m)
  {
    assert phys * (ppb - m) == ppb * phys - m * phys;
    assert ppb * phys <= ppb * host + ppb * (m * erases) by {
      assert ppb * phys <= ppb * (host + m * erases);
      assert ppb * (host + m * erases) == ppb * host + ppb * (m * erases);
    }
    assert m * phys == m * written + m * (ppb * erases);
    assert m * (ppb * erases) == ppb * (m * erases);
  }

  lemma AmortizedBound(d: Ftl, hostWrites: nat, m: nat)
    requires Conserved(d) && Amortized(d, hostWrites, m)
    ensures AmplificationWithin(d.phys, hostWrites, d.ppb, m)
  {
    hide Ftl.Written, Ftl.Erases;
    AmplificationAlgebra(d.phys, hostWrites, d.Written(), d.Erases(), d.ppb, m);
  }
}
