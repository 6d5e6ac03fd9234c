/** The channel's request objects: each one is free, in user hands, queued for
    submission or outstanding. Requests are named by their index. */
module RequestStacks {
  import opened Options
  import opened Lists

  datatype Stacks = Stacks(max: nat, free: seq<nat>, submit: seq<nat>, flight: set<nat>, user: set<nat>)

  /** Every request is in exactly one of the four places. */
  ghost predicate OnePlace(s: Stacks)
  {
    multiset(s.free) + multiset(s.submit) + multiset(s.flight) + multiset(s.user) == multiset(Ids(s.max))
  }

  /** So the places' sizes add up, and no stack outgrows its array. */
  lemma PlacesAddUp(s: Stacks)
    requires OnePlace(s)
    ensures |s.free| + |s.submit| + |s.flight| + |s.user| == s.max
  {
    var all := multiset(s.free) + multiset(s.submit) + multiset(s.flight) + multiset(s.user);
    assert |all| == |s.free| + |s.submit| + |s.flight| + |s.user|;
    assert |multiset(Ids(s.max))| == s.max;
  }

  /** A request in one place is in no other. */
  lemma PlacesDisjoint(s: Stacks, r: nat)
    requires OnePlace(s)
    ensures (if r in s.free then 1 else 0) + (if r in s.submit then 1 else 0)
          + (if r in s.flight then 1 else 0) + (if r in s.user then 1 else 0)
          == if r < s.max then 1 else 0
  {
    IdsOnce(s.max, r);
    var f, b, o, u := multiset(s.free), multiset(s.submit), multiset(s.flight), multiset(s.user);
    assert (f + b + o + u)[r] == f[r] + b[r] + o[r] + u[r];
    assert (r in s.free <==> f[r] > 0) && (r in s.submit <==> b[r] > 0);
    assert (r in s.flight <==> o[r] > 0) && (r in s.user <==> u[r] > 0);
  }

  lemma MultisetAdd(s: set<nat>, r: nat)
    requires r !in s
    ensures multiset(s + {r}) == multiset(s) + multiset{r}
  {
  }

  lemma MultisetDrop(s: set<nat>, r: nat)
    requires r in s
    ensures multiset(s - {r}) + multiset{r} == multiset(s)
  {
  }

  function Pop(s: Stacks): (r: Stacks)
    requires |s.free| > 0
  {
    s.(free := s.free[..|s.free| - 1], user := s.user + {s.free[|s.free| - 1]})
  }

  function PushToSubmit(s: Stacks, req: nat): (r: Stacks)
  {
    s.(submit := s.submit + [req], user := s.user - {req})
  }

  function PopSubmit(s: Stacks): (r: Stacks)
    requires |s.submit| > 0
  {
    s.(submit := s.submit[..|s.submit| - 1], flight := s.flight + {s.submit[|s.submit| - 1]})
  }

  function Return(s: Stacks, req: nat): (r: Stacks)
  {
    s.(free := s.free + [req], flight := s.flight - {req})
  }

  lemma PopKeeps(s: Stacks)
    requires OnePlace(s) && |s.free| > 0
    ensures OnePlace(Pop(s)) && s.free[|s.free| - 1] !in s.user && s.free[|s.free| - 1] < s.max
  {
    var req := s.free[|s.free| - 1];
    PlacesDisjoint(s, req);
    hide Ids;
    MultisetLast(s.free);
    MultisetAdd(s.user, req);
    var f, b, o, u, x := multiset(s.free[..|s.free| - 1]), multiset(s.submit), multiset(s.flight), multiset(s.user), multiset{req};
    assert f + b + o + (u + x) == (f + x) + b + o + u;
  }

  lemma PushToSubmitKeeps(s: Stacks, req: nat)
    requires OnePlace(s) && req in s.user
    ensures OnePlace(PushToSubmit(s, req))
  {
    hide Ids;
    MultisetDrop(s.user, req);
    MultisetPush(s.submit, req);
    var f, b, o, u, x := multiset(s.free), multiset(s.submit), multiset(s.flight), multiset(s.user - {req}), multiset{req};
    assert f + (b + x) + o + u == f + b + o + (u + x);
  }

  lemma PopSubmitKeeps(s: Stacks)
    requires OnePlace(s) && |s.submit| > 0
    ensures OnePlace(PopSubmit(s)) && s.submit[|s.submit| - 1] !in s.flight && s.submit[|s.submit| - 1] < s.max
  {
    var req := s.submit[|s.submit| - 1];
    PlacesDisjoint(s, req);
    hide Ids;
    MultisetLast(s.submit);
    MultisetAdd(s.flight, req);
    var f, b, o, u, x := multiset(s.free), multiset(s.submit[..|s.submit| - 1]), multiset(s.flight), multiset(s.user), multiset{req};
    assert f + b + (o + x) + u == f + (b + x) + o + u;
  }

  lemma ReturnKeeps(s: Stacks, req: nat)
    requires OnePlace(s) && req in s.flight
    ensures OnePlace(Return(s, req))
  {
    hide Ids;
    MultisetDrop(s.flight, req);
    MultisetPush(s.free, req);
    var f, b, o, u, x := multiset(s.free), multiset(s.submit), multiset(s.flight - {req}), multiset(s.user), multiset{req};
    assert (f + x) + b + o + u == f + b + (o + x) + u;
  }

  /** free -> submit without passing through user hands. */
  function MoveFree(s: Stacks): (r: Stacks)
    requires |s.free| > 0
  {
    s.(free := s.free[..|s.free| - 1], submit := s.submit + [s.free[|s.free| - 1]])
  }

  lemma MoveFreeKeeps(s: Stacks)
    requires OnePlace(s) && |s.free| > 0
    ensures MoveFree(s) == PushToSubmit(Pop(s), s.free[|s.free| - 1]) && OnePlace(MoveFree(s))
  {
    var req := s.free[|s.free| - 1];
    PopKeeps(s);
    hide OnePlace;
    assert s.user + {req} - {req} == s.user;
    PushToSubmitKeeps(Pop(s), req);
  }

  ghost function EmptySubmit(s: Stacks): (r: Stacks)
  {
    s.(submit := [], flight := s.flight + Members(s.submit))
  }

  lemma {:induction false} EmptySubmitKeeps(s: Stacks)
    requires OnePlace(s)
    ensures OnePlace(EmptySubmit(s))
    decreases |s.submit|
  {
    hide OnePlace;
    if |s.submit| == 0 {
      assert Members(s.submit) == {};
      assert EmptySubmit(s) == s;
    } else {
      PopSubmitKeeps(s);
      EmptySubmitKeeps(PopSubmit(s));
      MembersLast(s.submit);
      assert EmptySubmit(PopSubmit(s)) == EmptySubmit(s);
    }
  }

  /** The two stacks are last in, first out: a returned request is the next one taken, a
      queued one the next one handed over. */
  lemma LastInFirstOut(s: Stacks, req: nat)
    requires OnePlace(s)
    ensures req in s.flight ==>
      Pop(Return(s, req)).free == s.free && Pop(Return(s, req)).user == s.user + {req}
    ensures req in s.user ==>
      PopSubmit(PushToSubmit(s, req)).submit == s.submit && PopSubmit(PushToSubmit(s, req)).flight == s.flight + {req}
  {
    assert (s.free + [req])[..|s.free|] == s.free;
    assert (s.submit + [req])[..|s.submit|] == s.submit;
  }

  lemma AllFree(max: nat)
    ensures OnePlace(Stacks(max, Ids(max), [], {}, {}))
  {
    var m := multiset(Ids(max));
    assert m + multiset([]) + multiset{} + multiset{} == m;
  }

  class RequestStack {
    const maxEntries: nat
    const freeStack: array<nat>
    const submitStack: array<nat>
    var free: nat
    var pushed: nat
    var outstandingSet: set<nat>
    /** Requests handed to the user; the program does not track them. */
    ghost var user: set<nat>

    ghost predicate Shape()
      reads this
    {
      && freeStack.Length == submitStack.Length == maxEntries && freeStack != submitStack
      && free <= maxEntries && pushed <= maxEntries
    }

    ghost function View(): Stacks
      requires Shape()
      reads this, freeStack, submitStack
    {
      Stacks(maxEntries, freeStack[..free], submitStack[..pushed], outstandingSet, user)
    }

    ghost predicate Valid()
      reads this, freeStack, submitStack
    {
      Shape() && OnePlace(View())
    }

    constructor (maxEntries: nat)
      ensures Valid() && this.maxEntries == maxEntries
      ensures fresh(freeStack) && fresh(submitStack)
      ensures View() == Stacks(maxEntries, Ids(maxEntries), [], {}, {})
    {
      this.maxEntries := maxEntries;
      freeStack := new nat[maxEntries](i => i);
      submitStack := new nat[maxEntries];
      free, pushed, outstandingSet, user := maxEntries, 0, {}, {};
      new;
      assert freeStack[..free] == Ids(maxEntries);
      AllFree(maxEntries);
    }

    /** The size arithmetic the program asserts for the outstanding count. */
    method Outstanding() returns (n: int)
      requires Valid()
      ensures n == |outstandingSet| + |user|
      ensures user == {} ==> n == |outstandingSet|
    {
      PlacesAddUp(View());
      n := maxEntries - free - pushed;
    }

    predicate Full()
      requires Valid()
      reads this, freeStack, submitStack
      ensures Full() <==> View().free == []
    {
      free == 0
    }

    method PopFromFreeStack() returns (out: Option<nat>)
      requires Valid()
      modifies this
      ensures Valid()
      ensures out.None? <==> old(View()).free == []
      ensures out.None? ==> View() == old(View())
      ensures out.Some? ==> View() == Pop(old(View())) && out.value == old(View()).free[|old(View()).free| - 1]
    {
      if free == 0 {
        return None;
      }
      PopKeeps(View());
      free := free - 1;
      out := Some(freeStack[free]);
      user := user + {freeStack[free]};
      assert View() == Pop(old(View()));
    }

    method PushToSubmitStack(req: nat)
      requires Valid() && req in user
      modifies this, submitStack
      ensures Valid() && View() == PushToSubmit(old(View()), req)
    {
      PlacesAddUp(View());
      PushToSubmitKeeps(View(), req);
      MemberCount(user, req);
      submitStack[pushed] := req;
      pushed := pushed + 1;
      user := user - {req};
      assert View() == PushToSubmit(old(View()), req);
    }

    /** free -> submit directly. */
    method MoveFreeToSubmitStack() returns (out: Option<nat>)
      requires Valid()
      modifies this, submitStack
      ensures Valid()
      ensures out.None? <==> old(View()).free == []
      ensures out.None? ==> View() == old(View())
      ensures out.Some? ==> View() == MoveFree(old(View())) && out.value == old(View()).free[|old(View()).free| - 1]
    {
      hide OnePlace;
      if free == 0 {
        return None;
      }
      ghost var s := View();
      PlacesAddUp(s);
      MoveFreeKeeps(s);
      free := free - 1;
      out := Some(freeStack[free]);
      submitStack[pushed] := freeStack[free];
      pushed := pushed + 1;
      assert View() == MoveFree(s);
    }

    method PopFromSubmitStack() returns (out: Option<nat>)
      requires Valid()
      modifies this
      ensures Valid()
      ensures out.None? <==> old(View()).submit == []
      ensures out.None? ==> View() == old(View())
      ensures out.Some? ==> View() == PopSubmit(old(View())) && out.value == old(View()).submit[|old(View()).submit| - 1]
    {
      if pushed <= 0 {
        return None;
      }
      PopSubmitKeeps(View());
      pushed := pushed - 1;
      out := Some(submitStack[pushed]);
      outstandingSet := outstandingSet + {submitStack[pushed]};
      assert View() == PopSubmit(old(View()));
    }

    /** Submits everything at once. */
    method EmptySubmitStack()
      requires Valid()
      modifies this
      ensures Valid() && View() == EmptySubmit(old(View()))
    {
      hide OnePlace;
      ghost var s := View();
      EmptySubmitKeeps(s);
      var i := 0;
      while i < pushed
        invariant i <= pushed && Shape() && unchanged(`free) && unchanged(`pushed) && unchanged(`user)
        invariant outstandingSet == s.flight + Members(s.submit[..i])
      {
        outstandingSet := outstandingSet + {submitStack[i]};
        assert s.submit[..i + 1] == s.submit[..i] + [submitStack[i]];
        i := i + 1;
      }
      assert s.submit[..i] == s.submit;
      pushed := 0;
      assert View() == EmptySubmit(s);
    }

    method ReturnToFreeList(req: nat)
      requires Valid() && req in outstandingSet
      modifies this, freeStack
      ensures Valid() && View() == Return(old(View()), req)
    {
      PlacesAddUp(View());
      ReturnKeeps(View(), req);
      MemberCount(outstandingSet, req);
      outstandingSet := outstandingSet - {req};
      freeStack[free] := req;
      free := free + 1;
      assert View() == Return(old(View()), req);
    }
  }

  lemma MemberCount(s: set<nat>, r: nat)
    requires r in s
    ensures |s| > 0
  {
  }
}
