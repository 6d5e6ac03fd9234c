/** The generator's submit/complete/drain loop over the RAID0 channel, with arrays
    and counters updated in place. */
module IoGenerator {
  import opened Options
  import opened RequestStacks
  import opened Pools
  import Lists
  import Raid

  class Raid0Channel {
    const devices: nat
    const chunkSize: nat
    const stack: RequestStack
    const reqs: array<Req>
    var outstanding: int

    ghost function Footprint(): set<object>
    {
      {this, reqs, stack, stack.freeStack, stack.submitStack}
    }

    ghost predicate Valid()
      reads Footprint()
    {
      && devices > 0 && chunkSize > 0
      && stack.Valid() && reqs.Length == stack.maxEntries
    }

    constructor (depth: nat, devices: nat, chunkSize: nat)
      requires devices > 0 && chunkSize > 0
      ensures Valid() && fresh(Footprint()) && stack.maxEntries == depth
      ensures this.devices == devices && this.chunkSize == chunkSize && outstanding == 0
      ensures stack.View() == Stacks(depth, Lists.Ids(depth), [], {}, {})
      ensures reqs[..] == seq(depth, _ => Req(0, 0, None))
    {
      this.devices := devices;
      this.chunkSize := chunkSize;
      stack := new RequestStack(depth);
      reqs := new Req[depth](_ => Req(0, 0, None));
      outstanding := 0;
    }

    method GetIoRequest() returns (req: Option<nat>)
      requires Valid()
      modifies stack
      ensures Valid()
      ensures req.None? <==> old(stack.View()).free == []
      ensures req.None? ==> stack.View() == old(stack.View())
      ensures req.Some? ==>
        stack.View() == Pop(old(stack.View())) && req.value == old(stack.View()).free[|old(stack.View()).free| - 1]
      ensures req.Some? ==> req.value in stack.user && req.value < reqs.Length
    {
      if |stack.View().free| > 0 {
        PopKeeps(stack.View());
      }
      hide OnePlace;
      req := stack.PopFromFreeStack();
    }

    method PushIoRequest(req: nat)
      requires Valid() && req in stack.user
      modifies stack, stack.submitStack
      ensures Valid() && stack.View() == PushToSubmit(old(stack.View()), req)
    {
      stack.PushToSubmitStack(req);
    }

    /** Takes a request object, fills it in and queues it; `ok` is false where the
        program throws because no object is free. */
    method Push(id: nat, addr: nat) returns (ok: bool)
      requires Valid()
      modifies Footprint()
      ensures Valid() && outstanding == old(outstanding)
      ensures ok <==> old(stack.View()).free != []
      ensures !ok ==> stack.View() == old(stack.View()) && reqs[..] == old(reqs[..])
      ensures ok ==>
        var req := old(stack.View()).free[|old(stack.View()).free| - 1];
        && req < reqs.Length
        && stack.View() == MoveFree(old(stack.View()))
        && reqs[..] == old(reqs[..])[req := Req(id, addr, None)]
    {
      hide OnePlace, Pop, PushToSubmit, MoveFree;
      ghost var s := stack.View();
      if |s.free| > 0 {
        MoveFreeKeeps(s);
      }
      var req := GetIoRequest();
      if req.None? {
        return false;
      }
      reqs[req.value] := Req(id, addr, None);
      PushIoRequest(req.value);
      ok := true;
    }

    /** Pops one queued request, computes its place and hands it to the device. */
    method SubmitNext() returns (more: bool)
      requires Valid()
      modifies Footprint()
      ensures Valid()
      ensures more <==> old(stack.View()).submit != []
      ensures !more ==> stack.View() == old(stack.View()) && reqs[..] == old(reqs[..]) && outstanding == old(outstanding)
      ensures more ==>
        var req := old(stack.View()).submit[|old(stack.View()).submit| - 1];
        && req < reqs.Length
        && stack.View() == PopSubmit(old(stack.View()))
        && reqs[..] == old(reqs[..])[req := Handed(old(reqs[..])[req], true, Array(devices, chunkSize))]
        && outstanding == old(outstanding) + 1
    {
      hide OnePlace, Raid.Calc;
      if |stack.View().submit| > 0 {
        PopSubmitKeeps(stack.View());
      }
      var req := stack.PopFromSubmitStack();
      more := req.Some?;
      if more {
        reqs[req.value] := reqs[req.value].(place := Some(Raid.Calc(devices, chunkSize, reqs[req.value].addr)));
        outstanding := outstanding + 1;
      }
    }

    /** Hands every queued request to the device. */
    method Submit()
      requires Valid()
      modifies Footprint()
      ensures Valid() && stack.View() == EmptySubmit(old(stack.View()))
      ensures outstanding == old(outstanding) + |old(stack.View()).submit|
      ensures HandedAll(old(stack.View()), old(reqs[..]), EmptySubmit(old(stack.View())), reqs[..], Array(devices, chunkSize))
    {
      hide HandedAll, Raid.Calc, OnePlace;
      ghost var s := stack.View();
      ghost var reqs0 := reqs[..];
      ghost var a := Array(devices, chunkSize);
      HandedNone(s, reqs0, a);
      var more := true;
      while more
        invariant Valid() && reqs.Length == |reqs0|
        invariant HandedAll(s, reqs0, stack.View(), reqs[..], a)
        invariant outstanding + |stack.View().submit| == old(outstanding) + |s.submit|
        invariant !more ==> stack.View().submit == []
        decreases |stack.View().submit|, more
      {
        ghost var before, reqs1 := stack.View(), reqs[..];
        more := SubmitNext();
        if more {
          HandedStep(s, reqs0, before, reqs1, a);
        }
      }
      HandedDone(s, reqs0, stack.View(), reqs[..], a);
    }
  }

  /** Part way through a submission: a prefix of the queue is left, the rest is
      outstanding and placed. */
  ghost predicate HandedAll(s: Stacks, reqs0: seq<Req>, t: Stacks, reqs: seq<Req>, a: Array)
  {
    && a.devices > 0 && a.chunkSize > 0
    && t.max == s.max && t.free == s.free && t.user == s.user && t.submit <= s.submit
    && t.flight + Lists.Members(t.submit) == s.flight + Lists.Members(s.submit)
    && |reqs| == |reqs0|
    && forall r :: 0 <= r < |reqs0| ==> reqs[r] == Handed(reqs0[r], r in s.submit && r !in t.submit, a)
  }

  lemma HandedNone(s: Stacks, reqs0: seq<Req>, a: Array)
    requires a.devices > 0 && a.chunkSize > 0
    ensures HandedAll(s, reqs0, s, reqs0, a)
  {
  }

  lemma HandedStep(s: Stacks, reqs0: seq<Req>, t: Stacks, reqs: seq<Req>, a: Array)
    requires HandedAll(s, reqs0, t, reqs, a) && OnePlace(t) && |t.submit| > 0 && t.submit[|t.submit| - 1] < |reqs|
    ensures var req := t.submit[|t.submit| - 1];
      HandedAll(s, reqs0, PopSubmit(t), reqs[req := Handed(reqs[req], true, a)], a)
  {
    hide Raid.Calc;
    var n := |t.submit| - 1;
    PopSubmitKeeps(t);
    PlacesDisjoint(PopSubmit(t), t.submit[n]);
    Lists.MembersLast(t.submit);
    assert t.submit == t.submit[..n] + [t.submit[n]];
    hide OnePlace;
    assert t.submit[n] in s.submit;
  }

  lemma HandedDone(s: Stacks, reqs0: seq<Req>, t: Stacks, reqs: seq<Req>, a: Array)
    requires HandedAll(s, reqs0, t, reqs, a) && t.submit == []
    ensures t == EmptySubmit(s)
  {
    assert Lists.Members(t.submit) == {};
  }

  lemma MoveFreeFlight(s: Stacks)
    requires |s.free| > 0
    ensures MoveFree(s).flight == s.flight && |MoveFree(s).free| == |s.free| - 1
  {
  }

  lemma ReturnFlight(s: Stacks, req: nat)
    requires req in s.flight
    ensures |Return(s, req).flight| == |s.flight| - 1
  {
  }

  lemma EmptiedFlight(s: Stacks)
    requires OnePlace(s)
    ensures EmptySubmit(s).submit == [] && |EmptySubmit(s).flight| == |s.flight| + |s.submit|
  {
    EmptySubmitKeeps(s);
    PlacesAddUp(s);
    PlacesAddUp(EmptySubmit(s));
  }

  lemma HandedSubmitted(p: Pools, reqs: seq<Req>, a: Array)
    requires HandedAll(p.stacks, p.reqs, EmptySubmit(p.stacks), reqs, a)
    ensures a.devices > 0 && a.chunkSize > 0
    ensures SubmittedAll(p, p.(stacks := EmptySubmit(p.stacks), reqs := reqs), a)
  {
  }

  class RequestGenerator {
    const depth: nat
    const channel: Raid0Channel
    const availableReqStack: array<nat>
    var availableReqStackCnt: nat
    var submitted: nat
    var polled: nat

    ghost function Striping(): Array
    {
      Array(channel.devices, channel.chunkSize)
    }

    ghost function Footprint(): set<object>
    {
      {this, availableReqStack} + channel.Footprint()
    }

    ghost predicate Shape()
      reads Footprint()
    {
      && channel.Valid()
      && this !in channel.Footprint() && availableReqStack !in channel.Footprint()
      && channel.stack.maxEntries == depth && availableReqStack.Length == depth
      && availableReqStackCnt <= depth
      && channel.outstanding == |channel.stack.outstandingSet|
    }

    ghost function View(): Pools
      requires Shape()
      reads Footprint()
    {
      Pools(channel.stack.View(), availableReqStack[..availableReqStackCnt], channel.reqs[..], submitted, polled)
    }

    /** The pools agree whenever no completion callback is running. */
    ghost predicate Valid()
      reads Footprint()
    {
      Shape() && Agreed(View(), Striping())
    }

    constructor (depth: nat, channel: Raid0Channel)
      requires channel.Valid() && channel.stack.maxEntries == depth && channel.outstanding == 0
      requires channel.stack.View() == Stacks(depth, Lists.Ids(depth), [], {}, {})
      requires channel.reqs[..] == seq(depth, _ => Req(0, 0, None))
      ensures Valid() && View() == Start(depth)
      ensures this.depth == depth && this.channel == channel && fresh(availableReqStack)
    {
      hide OnePlace, Agreed;
      this.depth := depth;
      this.channel := channel;
      availableReqStack := new nat[depth](i => i);
      availableReqStackCnt := depth;
      submitted, polled := 0, 0;
      new;
      assert availableReqStack[..availableReqStackCnt] == Lists.Ids(depth);
      StartAgreed(depth, Array(channel.devices, channel.chunkSize));
    }

    /** Takes the top available id and queues the top free object for it, with the given
        address. The channel never throws. */
    method PushNext(addr: nat)
      requires Valid() && availableReqStackCnt > 0
      modifies Footprint()
      ensures Valid() && View().avail == old(View()).avail[..|old(View()).avail| - 1]
      ensures Queues(old(View()), View(), addr)
      ensures |old(View()).stacks.free| > 0 && submitted == old(submitted) + 1 && polled == old(polled)
      ensures availableReqStackCnt == old(availableReqStackCnt) - 1
    {
      hide OnePlace, Agreed, MoveFree;
      ghost var p := View();
      PushAgreed(p, Striping(), addr);
      availableReqStackCnt := availableReqStackCnt - 1;
      var id := availableReqStack[availableReqStackCnt];
      var ok := channel.Push(id, addr);
      assert ok;
      submitted := submitted + 1;
      MoveFreeFlight(p.stacks);
      assert View() == Push(p, addr);
      PushQueues(p, Striping(), addr);
    }

    method SubmitPushed()
      requires Valid()
      modifies Footprint()
      ensures Valid() && View().stacks.submit == [] && View().avail == old(View()).avail
      ensures Striping().devices > 0 && Striping().chunkSize > 0 && SubmittedAll(old(View()), View(), Striping())
      ensures submitted == old(submitted) && polled == old(polled)
      ensures availableReqStackCnt == old(availableReqStackCnt)
    {
      hide OnePlace, Agreed, EmptySubmit, HandedAll;
      ghost var p := View();
      PushSizes(p, Striping());
      channel.Submit();
      EmptiedFlight(p.stacks);
      HandedSubmitted(p, channel.reqs[..], Striping());
      SubmitAllAgreed(p, View(), Striping());
    }

    /** One completion: the user callback returns the id, then the channel returns the
        request object. */
    method CompleteOne(req: nat)
      requires Valid() && req in channel.stack.outstandingSet
      modifies Footprint()
      ensures Valid() && View() == Complete(old(View()), req)
      ensures submitted == old(submitted) && polled == old(polled) + 1
    {
      hide OnePlace, Agreed, Return;
      ghost var p := View();
      ghost var a := Striping();
      CompleteAgreed(p, a, req);
      PushNeverThrows(p, a);
      MemberCount(p.stacks.flight, req);
      availableReqStack[availableReqStackCnt] := channel.reqs[req].id;
      availableReqStackCnt := availableReqStackCnt + 1;
      ReturnFlight(p.stacks, req);
      channel.stack.ReturnToFreeList(req);
      channel.outstanding := channel.outstanding - 1;
      polled := polled + 1;
      assert View() == Complete(p, req);
    }

    /** The device reports any number of its outstanding requests, in any order. */
    method Poll() returns (got: nat)
      requires Valid()
      modifies Footprint()
      ensures Valid()
      ensures submitted == old(submitted) && polled == old(polled) + got
    {
      hide OnePlace, Agreed, Return;
      got := 0;
      var stop: bool := *;
      while !stop && channel.stack.outstandingSet != {}
        invariant Valid() && submitted == old(submitted) && polled == old(polled) + got
        decreases |channel.stack.outstandingSet|
      {
        var req :| req in channel.stack.outstandingSet;
        ReturnFlight(View().stacks, req);
        CompleteOne(req);
        got := got + 1;
        stop := *;
      }
    }

    /** The run: push while ids are available, submit, poll; then drain. `rounds` and
        `drainRounds` bound how long the run is kept going and the device is waited
        for. Addresses, rate-limit breaks and completions are arbitrary. */
    method RunIo(ops: int, rounds: nat, drainRounds: nat) returns (drained: bool)
      requires Valid()
      modifies Footprint()
      ensures Valid()
      ensures drained <==> polled == submitted
      ensures drained ==> availableReqStackCnt == depth && channel.stack.free == depth && channel.stack.outstandingSet == {}
    {
      hide OnePlace, Agreed;
      var completed := 0;
      var round := 0;
      while (ops <= 0 || completed < ops) && round < rounds
        invariant Valid()
      {
        var stop: bool := *;
        while availableReqStackCnt > 0 && !stop
          invariant Valid()
          decreases availableReqStackCnt
        {
          var addr: nat := *;
          PushNext(addr);
          stop := *;
        }
        SubmitPushed();
        var got := Poll();
        completed := completed + got;
        round := round + 1;
      }
      round := 0;
      while polled < submitted && round < drainRounds
        invariant Valid()
      {
        SubmitPushed();
        var got := Poll();
        round := round + 1;
      }
      drained := polled >= submitted;
      PolledAtMost(View(), Striping());
      DrainedPoolsFull(View(), Striping());
    }
  }

  lemma PolledAtMost(p: Pools, a: Array)
    requires Agreed(p, a)
    ensures p.done <= p.issued && |p.avail| == |p.stacks.free|
  {
  }
}
