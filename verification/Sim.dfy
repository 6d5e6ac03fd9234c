/** The benchmark run over the mutable collectors: sequential fill, pattern writes, and
    reports that reset the physical write counter. */
module Sim {
  import opened Options
  import opened Runs
  import GreedyGc
  import Ssd
  import TwoRGc

  /** The collector the benchmark is instantiated with. */
  datatype Algo = OneList(one: GreedyGc.GreedyGC) | TwoLists(two: TwoRGc.TwoRCollector)

  function SsdOf(a: Algo): (ssd: Ssd.SSD)
  {
    match a
    case OneList(gc) => gc.ssd
    case TwoLists(gc) => gc.ssd
  }

  ghost function Frame(a: Algo): set<object>
  {
    match a
    case OneList(gc) => {gc} + gc.ssd.Footprint()
    case TwoLists(gc) => {gc} + gc.ssd.Footprint()
  }

  ghost predicate Valid(a: Algo)
    reads Frame(a)
  {
    match a
    case OneList(gc) => gc.Valid()
    case TwoLists(gc) => gc.Valid()
  }

  ghost function View(a: Algo): (c: Collector)
    reads Frame(a)
  {
    match a
    case OneList(gc) =>
      if gc.simpleTwoR then S2R(gc.View()) else if gc.k == 0 then Greedy(gc.View()) else KGreedy(gc.View())
    case TwoLists(gc) =>
      if gc.fifo then Queued(gc.Queued()) else Regions(gc.Regions())
  }

  lemma ValidUsable(a: Algo)
    requires Valid(a)
    ensures Usable(View(a)) && Device(View(a)) == SsdOf(a).state && SsdOf(a).Valid()
    ensures |SsdOf(a).state.ltp| == SsdOf(a).logicalPages
  {
  }

  /** One host write by the collector at hand; `ok` is false where a check fails. */
  method WritePage(a: Algo, s: Step) returns (ok: bool)
    requires Valid(a) && Usable(View(a)) && Can(View(a), s) && Returns(View(a))
    modifies Frame(a)
    ensures SsdOf(a).Valid() && SsdOf(a).reported == old(SsdOf(a).reported)
    ensures ok ==> Valid(a)
    ensures Write(old(View(a)), s) == if ok then Some(View(a)) else None
  {
    ValidUsable(a);
    match a
    case OneList(gc) =>
      ok := gc.WritePage(s.page, s.draws);
    case TwoLists(gc) =>
      ok := gc.WritePage(s.page, s.draws, s.scan);
  }

  /** A run that from `c` has come as far as the collector's present state. */
  ghost predicate Reached(c: Collector, ss: seq<Step>, r: Collector)
  {
    Usable(c) && Feasible(c, ss) && Run(c, ss) == Some(r)
  }

  /** What the run still to come asks for: possible steps, and no endless collection. */
  ghost predicate Planned(c: Collector, ss: seq<Step>)
  {
    Usable(c) && Feasible(c, ss) && AllReturn(c, ss)
  }

  lemma ReachedNone(c: Collector)
    requires Usable(c)
    ensures Reached(c, [], c)
  {
  }

  lemma PlannedPrefix(c: Collector, xs: seq<Step>, ys: seq<Step>)
    requires Planned(c, xs + ys)
    ensures Planned(c, xs) && (Run(c, xs).None? ==> Run(c, xs + ys).None?)
  {
    ReturnPrefix(c, xs, ys);
    RunPrefix(c, xs, ys);
  }

  /** The next step of a planned run can be taken and returns. */
  lemma NextStep(c: Collector, ss: seq<Step>, s: Step, r: Collector)
    requires Planned(c, ss + [s]) && Reached(c, ss, r)
    ensures Usable(r) && Can(r, s) && Returns(r) && Run(c, ss + [s]) == Write(r, s)
  {
    hide Usable, Can, Write, Returns;
    assert (ss + [s])[..|ss|] == ss;
  }

  lemma StepAppend(before: seq<Step>, ss: seq<Step>, i: nat)
    requires i < |ss|
    ensures before + ss[..i + 1] == before + ss[..i] + [ss[i]]
    ensures before + ss == before + ss[..i + 1] + ss[i + 1..]
  {
  }

  lemma ReachedWrite(c: Collector, ss: seq<Step>, s: Step, r: Collector)
    requires Planned(c, ss + [s]) && Run(c, ss + [s]) == Some(r)
    ensures Reached(c, ss + [s], r)
  {
  }

  /** Issues the host writes `ss` in order, as the continuation of a run `before` from
      state `c`; `ok` is false where one of them fails. */
  method WritePages(a: Algo, ss: seq<Step>, ghost c: Collector, ghost before: seq<Step>) returns (ok: bool)
    requires Valid(a) && Reached(c, before, View(a)) && Planned(c, before + ss)
    modifies Frame(a)
    ensures SsdOf(a).Valid() && SsdOf(a).reported == old(SsdOf(a).reported)
    ensures if ok then Valid(a) && Reached(c, before + ss, View(a)) else Run(c, before + ss).None?
  {
    hide Valid, View, Usable, Reached, Planned, Can, Write, Returns, Ssd.SSD.Valid;
    ValidUsable(a);
    var i := 0;
    assert before + ss[..0] == before;
    while i < |ss|
      invariant 0 <= i <= |ss| && Valid(a) && SsdOf(a).Valid() && SsdOf(a).reported == old(SsdOf(a).reported)
      invariant Reached(c, before + ss[..i], View(a))
    {
      StepAppend(before, ss, i);
      PlannedPrefix(c, before + ss[..i + 1], ss[i + 1..]);
      NextStep(c, before + ss[..i], ss[i], View(a));
      ok := WritePage(a, ss[i]);
      if !ok {
        return;
      }
      ReachedWrite(c, before + ss[..i], ss[i], View(a));
      i := i + 1;
    }
    assert ss[..i] == ss;
    ok := true;
  }

  function Flatten(reps: seq<seq<Step>>): (ss: seq<Step>)
  {
    if |reps| == 0 then [] else Flatten(reps[..|reps| - 1]) + reps[|reps| - 1]
  }

  lemma {:induction false} FlattenTail(reps: seq<seq<Step>>, r: nat) returns (tail: seq<Step>)
    requires r <= |reps|
    ensures Flatten(reps) == Flatten(reps[..r]) + tail
    decreases |reps|
  {
    if r == |reps| {
      assert reps[..r] == reps;
      tail := [];
    } else {
      var n := |reps| - 1;
      assert reps[..n][..r] == reps[..r];
      var t := FlattenTail(reps[..n], r);
      tail := t + reps[n];
    }
  }

  lemma FlattenNext(reps: seq<seq<Step>>, r: nat) returns (tail: seq<Step>)
    requires r < |reps|
    ensures Flatten(reps[..r + 1]) == Flatten(reps[..r]) + reps[r]
    ensures Flatten(reps) == Flatten(reps[..r]) + reps[r] + tail
  {
    assert reps[..r + 1][..r] == reps[..r];
    tail := FlattenTail(reps, r + 1);
  }

  /** One repetition: its writes, the physical writes they cost, and the reset. */
  method Repeat(a: Algo, rep: seq<Step>, ghost c: Collector, ghost before: seq<Step>)
    returns (ok: bool, physWrites: nat)
    requires Valid(a) && SsdOf(a).physWrites == 0 && Reached(c, before, View(a)) && Planned(c, before + rep)
    modifies Frame(a)
    ensures !ok ==> Run(c, before + rep).None?
    ensures ok ==> Valid(a) && SsdOf(a).physWrites == 0 && Reached(c, before + rep, View(a))
    ensures ok ==> physWrites == Device(View(a)).phys - Device(old(View(a))).phys
  {
    hide Valid, View, Usable, Reached, Planned, Ssd.SSD.Valid, Run, Feasible;
    physWrites := 0;
    PhysOf(a);
    ok := WritePages(a, rep, c, before);
    if ok {
      PhysOf(a);
      physWrites := SsdOf(a).physWrites;
      ResetCounters(a);
    }
  }

  /** The sequential fill and the load that precede the measurement. */
  method FillAndLoad(a: Algo, load: seq<Step>, ghost c: Collector) returns (ok: bool)
    requires Valid(a) && c == View(a) && Planned(c, Sequential(SsdOf(a).logicalPages) + load)
    modifies Frame(a)
    ensures !ok ==> Run(c, Sequential(SsdOf(a).logicalPages) + load).None?
    ensures ok ==> Valid(a) && SsdOf(a).physWrites == 0
    ensures ok ==> Reached(c, Sequential(SsdOf(a).logicalPages) + load, View(a))
  {
    hide Valid, View, Usable, Reached, Planned, Ssd.SSD.Valid, Run, Feasible;
    var fill := Sequential(SsdOf(a).logicalPages);
    ValidUsable(a);
    ReachedNone(c);
    assert [] + fill == fill;
    PlannedPrefix(c, fill, load);
    ok := WritePages(a, fill, c, []);
    if ok {
      ok := WritePages(a, load, c, fill);
    }
    if ok {
      ResetCounters(a);
    }
  }

  lemma RepNext(c: Collector, start: seq<Step>, reps: seq<seq<Step>>, r: nat)
    requires r < |reps| && Planned(c, start + Flatten(reps))
    ensures var before := start + Flatten(reps[..r]);
      && before + reps[r] == start + Flatten(reps[..r + 1])
      && |Flatten(reps[..r + 1])| == |Flatten(reps[..r])| + |reps[r]|
      && Planned(c, before + reps[r])
      && (Run(c, before + reps[r]).None? ==> Run(c, start + Flatten(reps)).None?)
  {
    hide Planned, Run;
    var tail := FlattenNext(reps, r);
    var before := start + Flatten(reps[..r]);
    assert before + reps[r] + tail == start + Flatten(reps);
    assert before + reps[r] == start + Flatten(reps[..r + 1]);
    PlannedPrefix(c, before + reps[r], tail);
  }

  /** The benchmark over any collector: fill, load, then repetitions whose physical
      writes are summed and reset. The sum is what the cumulative count grew by. */
  method RunBench(a: Algo, load: seq<Step>, reps: seq<seq<Step>>)
    returns (ok: bool, cumulativePhysWrites: nat, cumulativeLogWrites: nat, ghost mid: Collector)
    requires Valid(a) && Planned(View(a), Sequential(SsdOf(a).logicalPages) + load + Flatten(reps))
    modifies Frame(a)
    ensures !ok ==> Usable(old(View(a))) && Run(old(View(a)), Sequential(SsdOf(a).logicalPages) + load + Flatten(reps)).None?
    ensures ok ==>
      && Valid(a) && SsdOf(a).physWrites == 0
      && Reached(old(View(a)), Sequential(SsdOf(a).logicalPages) + load, mid)
      && Reached(old(View(a)), Sequential(SsdOf(a).logicalPages) + load + Flatten(reps), View(a))
      && cumulativePhysWrites == Device(View(a)).phys - Device(mid).phys
      && cumulativeLogWrites == |Flatten(reps)|
  {
    hide Valid, View, Usable, Reached, Planned, Ssd.SSD.Valid, Run, Feasible;
    ghost var c := View(a);
    ghost var start := Sequential(SsdOf(a).logicalPages) + load;
    cumulativePhysWrites, cumulativeLogWrites, mid := 0, 0, c;
    ValidUsable(a);
    PlannedPrefix(c, start, Flatten(reps));
    ok := FillAndLoad(a, load, c);
    if !ok {
      return;
    }
    mid := View(a);
    var rep := 0;
    assert start + [] == start;
    while rep < |reps|
      invariant 0 <= rep <= |reps| && Valid(a) && SsdOf(a).physWrites == 0
      invariant Reached(c, start + Flatten(reps[..rep]), View(a))
      invariant cumulativePhysWrites == Device(View(a)).phys - Device(mid).phys
      invariant cumulativeLogWrites == |Flatten(reps[..rep])|
    {
      RepNext(c, start, reps, rep);
      var physWrites;
      ok, physWrites := Repeat(a, reps[rep], c, start + Flatten(reps[..rep]));
      if !ok {
        return;
      }
      cumulativeLogWrites := cumulativeLogWrites + |reps[rep]|;
      cumulativePhysWrites := cumulativePhysWrites + physWrites;
      rep := rep + 1;
    }
    assert reps[..rep] == reps;
    ok := true;
  }

  lemma PhysOf(a: Algo)
    requires Valid(a)
    ensures Device(View(a)).phys == SsdOf(a).reported + SsdOf(a).physWrites
  {
  }

  method ResetCounters(a: Algo)
    requires Valid(a)
    modifies Frame(a)
    ensures Valid(a) && View(a) == old(View(a)) && SsdOf(a).physWrites == 0
  {
    ValidUsable(a);
    SsdOf(a).ResetPhysicalCounters();
  }
}
