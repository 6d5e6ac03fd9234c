/** The two request pools that must agree: the generator's stack of free request
    ids and the channel's stacks of request objects. The device completes
    outstanding requests in any order. */
module Pools {
  import opened Options
  import opened RequestStacks
  import Address
  import Lists
  import Raid

  /** What a request object carries: the generator's id, its address and, once
      submitted, its place on the array. */
  datatype Req = Req(id: nat, addr: nat, place: Option<Raid.Place>)

  datatype Pools = Pools(stacks: Stacks, avail: seq<nat>, reqs: seq<Req>, issued: nat, done: nat)

  datatype Array = Array(devices: nat, chunkSize: nat)

  ghost predicate Busy(p: Pools, r: nat)
  {
    r in p.stacks.submit || r in p.stacks.flight
  }

  ghost predicate IdsFree(p: Pools)
  {
    && (forall i :: 0 <= i < |p.avail| ==> p.avail[i] < p.stacks.max)
    && (forall i, j :: 0 <= i < j < |p.avail| ==> p.avail[i] != p.avail[j])
  }

  /** Busy requests carry ids that are in range, not available, and distinct. */
  ghost predicate IdsBusy(p: Pools)
  {
    && |p.reqs| == p.stacks.max
    && (forall r: nat :: Busy(p, r) ==> r < |p.reqs| && p.reqs[r].id < p.stacks.max && p.reqs[r].id !in p.avail)
    && (forall r: nat, q: nat :: Busy(p, r) && Busy(p, q) && r != q ==> p.reqs[r].id != p.reqs[q].id)
  }

  ghost predicate Placed(p: Pools, a: Array)
  {
    && a.devices > 0 && a.chunkSize > 0
    && forall r :: r in p.stacks.flight ==>
         r < |p.reqs| && p.reqs[r].place == Some(Raid.Calc(a.devices, a.chunkSize, p.reqs[r].addr))
  }

  /** The pools agree whenever no completion callback is running. */
  ghost predicate Agreed(p: Pools, a: Array)
  {
    && OnePlace(p.stacks) && p.stacks.user == {}
    && |p.avail| == |p.stacks.free|
    && IdsFree(p) && IdsBusy(p) && Placed(p, a)
    && p.issued == p.done + |p.stacks.submit| + |p.stacks.flight|
  }

  function Start(depth: nat): (p: Pools)
  {
    Pools(Stacks(depth, Lists.Ids(depth), [], {}, {}), Lists.Ids(depth), seq(depth, _ => Req(0, 0, None)), 0, 0)
  }

  lemma StartAgreed(depth: nat, a: Array)
    requires a.devices > 0 && a.chunkSize > 0
    ensures Agreed(Start(depth), a)
  {
    AllFree(depth);
    Lists.OnceEach(Lists.Ids(depth), depth);
    assert forall r :: !Busy(Start(depth), r);
  }

  /* ---------- steps ---------- */

  /** The generator takes the top id and pushes a request for it to the channel. */
  function Push(p: Pools, addr: nat): (r: Pools)
    requires |p.avail| > 0 && |p.stacks.free| > 0 && |p.reqs| == p.stacks.max
    requires p.stacks.free[|p.stacks.free| - 1] < p.stacks.max
  {
    var id := p.avail[|p.avail| - 1];
    var req := p.stacks.free[|p.stacks.free| - 1];
    Pools(MoveFree(p.stacks), p.avail[..|p.avail| - 1], p.reqs[req := Req(id, addr, None)], p.issued + 1, p.done)
  }

  /** The channel hands its last pushed request to the device below. */
  function SubmitOne(p: Pools, a: Array): (r: Pools)
    requires a.devices > 0 && a.chunkSize > 0
    requires |p.stacks.submit| > 0 && p.stacks.submit[|p.stacks.submit| - 1] < |p.reqs|
  {
    var req := p.stacks.submit[|p.stacks.submit| - 1];
    p.(stacks := PopSubmit(p.stacks),
       reqs := p.reqs[req := p.reqs[req].(place := Some(Raid.Calc(a.devices, a.chunkSize, p.reqs[req].addr)))])
  }

  /** The device completes request `req`: its id becomes available, then the object. */
  function Complete(p: Pools, req: nat): (r: Pools)
    requires req < |p.reqs|
  {
    p.(stacks := Return(p.stacks, req), avail := p.avail + [p.reqs[req].id], done := p.done + 1)
  }

  /** While the pools agree, an available id means a free request object, so pushing
      never throws; and conversely. */
  lemma PushNeverThrows(p: Pools, a: Array)
    requires Agreed(p, a)
    ensures |p.avail| > 0 <==> |p.stacks.free| > 0
    ensures |p.avail| > 0 ==> p.stacks.free[|p.stacks.free| - 1] < p.stacks.max
    ensures |p.avail| + |p.stacks.submit| + |p.stacks.flight| == p.stacks.max
  {
    PlacesAddUp(p.stacks);
    if |p.stacks.free| > 0 {
      PopKeeps(p.stacks);
    }
  }

  lemma PushBusy(p: Pools, addr: nat, r: nat)
    requires OnePlace(p.stacks) && |p.avail| > 0 && |p.stacks.free| > 0 && |p.reqs| == p.stacks.max
    requires p.stacks.free[|p.stacks.free| - 1] < p.stacks.max
    ensures Busy(Push(p, addr), r) <==> Busy(p, r) || r == p.stacks.free[|p.stacks.free| - 1]
    ensures !Busy(p, p.stacks.free[|p.stacks.free| - 1])
  {
    var req := p.stacks.free[|p.stacks.free| - 1];
    PlacesDisjoint(p.stacks, req);
    assert req in p.stacks.free;
  }

  lemma BusyInRange(p: Pools, r: nat)
    requires OnePlace(p.stacks) && Busy(p, r)
    ensures r < p.stacks.max
  {
    PlacesDisjoint(p.stacks, r);
  }

  lemma PushIds(p: Pools, addr: nat)
    requires OnePlace(p.stacks) && IdsFree(p) && IdsBusy(p) && |p.avail| > 0 && |p.stacks.free| > 0
    requires p.stacks.free[|p.stacks.free| - 1] < p.stacks.max
    ensures IdsFree(Push(p, addr)) && IdsBusy(Push(p, addr))
  {
    var req := p.stacks.free[|p.stacks.free| - 1];
    forall q: nat
      ensures Busy(Push(p, addr), q) <==> Busy(p, q) || q == req
      ensures !Busy(p, req)
    {
      PushBusy(p, addr, q);
    }
    hide OnePlace, Busy;
    assert p.avail == p.avail[..|p.avail| - 1] + [p.avail[|p.avail| - 1]];
  }

  lemma PushAgreed(p: Pools, a: Array, addr: nat)
    requires Agreed(p, a) && |p.avail| > 0
    ensures |p.stacks.free| > 0 && p.stacks.free[|p.stacks.free| - 1] < p.stacks.max && |p.reqs| == p.stacks.max
    ensures Agreed(Push(p, addr), a)
  {
    hide OnePlace, Raid.Calc, IdsFree;
    PushNeverThrows(p, a);
    MoveFreeKeeps(p.stacks);
    PushIds(p, addr);
    PlacesDisjoint(p.stacks, p.stacks.free[|p.stacks.free| - 1]);
    hide IdsBusy, Busy;
  }

  /** `r` is `p` with one more queued request: the object freed last carries the id that
      became available last and the given address; every other object is as it was. */
  ghost predicate Queues(p: Pools, r: Pools, addr: nat)
  {
    && |p.stacks.free| > 0 && |p.avail| > 0 && |r.reqs| == |p.reqs| && r.stacks.flight == p.stacks.flight
    && var obj := p.stacks.free[|p.stacks.free| - 1];
       && obj < |p.reqs| && r.stacks.submit == p.stacks.submit + [obj]
       && r.stacks.free == p.stacks.free[..|p.stacks.free| - 1]
       && r.reqs[obj] == Req(p.avail[|p.avail| - 1], addr, None)
       && forall o :: 0 <= o < |p.reqs| && o != obj ==> r.reqs[o] == p.reqs[o]
  }

  lemma PushQueues(p: Pools, a: Array, addr: nat)
    requires Agreed(p, a) && |p.avail| > 0
    ensures |p.stacks.free| > 0 && p.stacks.free[|p.stacks.free| - 1] < p.stacks.max && |p.reqs| == p.stacks.max
    ensures Queues(p, Push(p, addr), addr)
  {
    hide OnePlace, Placed, IdsFree;
    PushNeverThrows(p, a);
  }

  /** Both pools are stacks: the id and the object a completion returned are the ones the
      next push takes, together. */
  lemma ReusedTogether(p: Pools, a: Array, req: nat, addr: nat)
    requires Agreed(p, a) && req in p.stacks.flight
    ensures req < |p.reqs| && |Complete(p, req).avail| > 0 && |Complete(p, req).stacks.free| > 0
    ensures |p.reqs| == p.stacks.max && req < p.stacks.max
    ensures var r := Push(Complete(p, req), addr);
      && r.avail == p.avail && r.stacks.free == p.stacks.free
      && r.stacks.submit == p.stacks.submit + [req] && r.reqs[req] == Req(p.reqs[req].id, addr, None)
  {
    CompleteAgreed(p, a, req);
    PushSizes(p, a);
    hide Agreed;
    assert (p.avail + [p.reqs[req].id])[..|p.avail|] == p.avail;
    assert (p.stacks.free + [req])[..|p.stacks.free|] == p.stacks.free;
  }

  lemma SubmitIds(p: Pools, a: Array)
    requires IdsFree(p) && IdsBusy(p) && |p.stacks.submit| > 0 && a.devices > 0 && a.chunkSize > 0
    requires p.stacks.submit[|p.stacks.submit| - 1] < |p.reqs|
    ensures IdsFree(SubmitOne(p, a)) && IdsBusy(SubmitOne(p, a))
  {
    var n := |p.stacks.submit| - 1;
    assert p.stacks.submit == p.stacks.submit[..n] + [p.stacks.submit[n]];
    forall q: nat
      ensures Busy(SubmitOne(p, a), q) <==> Busy(p, q)
    {
    }
    hide Busy, Raid.Calc;
  }

  lemma SubmitAgreed(p: Pools, a: Array)
    requires Agreed(p, a) && |p.stacks.submit| > 0
    ensures p.stacks.submit[|p.stacks.submit| - 1] < |p.reqs| && |p.reqs| == p.stacks.max
    ensures Agreed(SubmitOne(p, a), a)
  {
    hide OnePlace, Raid.Calc, IdsFree;
    PopSubmitKeeps(p.stacks);
    SubmitIds(p, a);
    hide IdsBusy;
  }

  lemma CompleteIds(p: Pools, req: nat)
    requires OnePlace(p.stacks) && IdsFree(p) && IdsBusy(p) && req in p.stacks.flight && req < |p.reqs|
    ensures IdsFree(Complete(p, req)) && IdsBusy(Complete(p, req))
  {
    PlacesDisjoint(p.stacks, req);
    assert Busy(p, req);
    forall q: nat
      ensures Busy(Complete(p, req), q) <==> Busy(p, q) && q != req
    {
    }
    hide Busy, OnePlace;
  }

  lemma CompleteAgreed(p: Pools, a: Array, req: nat)
    requires Agreed(p, a) && req in p.stacks.flight
    ensures req < |p.reqs| && Agreed(Complete(p, req), a)
  {
    hide OnePlace, Raid.Calc, IdsFree;
    assert Busy(p, req);
    ReturnKeeps(p.stacks, req);
    CompleteIds(p, req);
    hide IdsBusy, Busy;
  }

  /** Submitting every queued request, in whatever order they are popped. */
  ghost predicate SubmittedAll(p: Pools, q: Pools, a: Array)
    requires a.devices > 0 && a.chunkSize > 0
  {
    && q.stacks == EmptySubmit(p.stacks)
    && q.avail == p.avail && q.issued == p.issued && q.done == p.done && |q.reqs| == |p.reqs|
    && (forall r :: 0 <= r < |p.reqs| ==> q.reqs[r] == Handed(p.reqs[r], r in p.stacks.submit, a))
  }

  /** A request object before or after it is handed to the device. */
  function Handed(r: Req, handed: bool, a: Array): (q: Req)
    requires a.devices > 0 && a.chunkSize > 0
  {
    if handed then r.(place := Some(Raid.Calc(a.devices, a.chunkSize, r.addr))) else r
  }

  lemma SubmitAllIds(p: Pools, q: Pools, a: Array)
    requires a.devices > 0 && a.chunkSize > 0 && SubmittedAll(p, q, a) && IdsFree(p) && IdsBusy(p)
    ensures IdsFree(q) && IdsBusy(q)
  {
    hide Raid.Calc;
    forall r: nat
      ensures Busy(q, r) <==> Busy(p, r)
    {
    }
    hide Busy;
  }

  lemma SubmitAllAgreed(p: Pools, q: Pools, a: Array)
    requires Agreed(p, a) && SubmittedAll(p, q, a)
    ensures Agreed(q, a)
  {
    hide OnePlace, Raid.Calc, IdsFree, IdsBusy;
    EmptySubmitKeeps(p.stacks);
    PlacesAddUp(p.stacks);
    PlacesAddUp(q.stacks);
    SubmitAllIds(p, q, a);
    forall r | r in p.stacks.submit
      ensures r < |p.reqs|
    {
      BusyInRange(p, r);
      PushSizes(p, a);
    }
  }

  /* ---------- runs ---------- */

  datatype Event = Pushed(addr: nat) | Submitted | Completed(req: nat)

  /** What can happen next: a push while ids are available, a submission while
      requests are queued, the completion of any outstanding request. */
  predicate Enabled(p: Pools, e: Event)
  {
    match e
    case Pushed(_) => |p.avail| > 0
    case Submitted => |p.stacks.submit| > 0
    case Completed(req) => req in p.stacks.flight
  }

  function Step(p: Pools, a: Array, e: Event): (r: Pools)
    requires Agreed(p, a) && Enabled(p, e)
    ensures Agreed(r, a)
  {
    hide Agreed;
    match e
    case Pushed(addr) => PushAgreed(p, a, addr); PushSizes(p, a); Push(p, addr)
    case Submitted => SubmitAgreed(p, a); PushSizes(p, a); SubmitOne(p, a)
    case Completed(req) => CompleteAgreed(p, a, req); Complete(p, req)
  }

  lemma PushSizes(p: Pools, a: Array)
    requires Agreed(p, a)
    ensures |p.reqs| == p.stacks.max && a.devices > 0 && a.chunkSize > 0
  {
  }

  ghost predicate Possible(p: Pools, a: Array, es: seq<Event>)
    requires Agreed(p, a)
    decreases |es|
  {
    |es| == 0 || (Enabled(p, es[0]) && Possible(Step(p, a, es[0]), a, es[1..]))
  }

  function RunEvents(p: Pools, a: Array, es: seq<Event>): (r: Pools)
    requires Agreed(p, a) && Possible(p, a, es)
    ensures Agreed(r, a)
    decreases |es|
  {
    hide Agreed, Step;
    if |es| == 0 then p else RunEvents(Step(p, a, es[0]), a, es[1..])
  }

  /** The data buffer of an id: `bs` bytes at a multiple of `bs`. */
  function Buffer(bs: nat, id: nat): (start: nat)
  {
    id * bs
  }

  /** In every reachable state, whatever the completion order: the free counts agree,
      a push cannot throw, and any two requests in flight have different ids and
      disjoint data buffers. */
  lemma PoolSafety(depth: nat, a: Array, es: seq<Event>, bs: nat, r: nat, q: nat)
    requires a.devices > 0 && a.chunkSize > 0 && Agreed(Start(depth), a) && Possible(Start(depth), a, es)
    ensures var p := RunEvents(Start(depth), a, es);
      && |p.avail| == |p.stacks.free|
      && p.issued == p.done + |p.stacks.submit| + |p.stacks.flight|
      && (Busy(p, r) && Busy(p, q) && r != q ==>
            && r < |p.reqs| && q < |p.reqs| && p.reqs[r].id != p.reqs[q].id
            && (Buffer(bs, p.reqs[r].id) + bs <= Buffer(bs, p.reqs[q].id)
                || Buffer(bs, p.reqs[q].id) + bs <= Buffer(bs, p.reqs[r].id)))
  {
    var p := RunEvents(Start(depth), a, es);
    hide RunEvents, Start, OnePlace, Placed, Busy, Possible;
    if Busy(p, r) && Busy(p, q) && r != q {
      BuffersApart(bs, p.reqs[r].id, p.reqs[q].id);
    }
  }

  lemma BuffersApart(bs: nat, i: nat, j: nat)
    requires i != j
    ensures Buffer(bs, i) + bs <= Buffer(bs, j) || Buffer(bs, j) + bs <= Buffer(bs, i)
  {
    if i < j {
      Address.MulMono(i + 1, j, bs);
      assert (i + 1) * bs == i * bs + bs;
    } else {
      Address.MulMono(j + 1, i, bs);
      assert (j + 1) * bs == j * bs + bs;
    }
  }

  /** Once everything issued is done, both pools are full again. */
  lemma DrainedPoolsFull(p: Pools, a: Array)
    requires Agreed(p, a)
    ensures p.issued == p.done <==> |p.avail| == p.stacks.max
    ensures p.issued == p.done ==> |p.stacks.free| == p.stacks.max && p.stacks.submit == [] && p.stacks.flight == {}
  {
    PushNeverThrows(p, a);
  }
}
