/** The ZNS address generator as the program keeps it: slot arrays updated in place.
    Each call holds the generator's mutex, so a call is one atomic step. */
module ZnsAccess {
  import opened Options
  import opened ZnsPattern
  import Address
  import ZoneLayout

  /** The first of the draws that no slot uses. */
  ghost predicate FirstUnused(ids: seq<int>, draws: seq<nat>, zone: nat)
  {
    && zone !in ids
    && exists i :: 0 <= i < |draws| && draws[i] == zone && forall j :: 0 <= j < i ==> draws[j] in ids
  }

  class ZnsGenerator {
    const logicalPages: nat
    const pagesPerZone: nat
    const activeZones: nat
    const activeZoneIds: array<int>
    const activeZoneOffset: array<nat>
    const freqs: seq<real>
    var znsZones: nat

    ghost function View(): Zns
      reads this, activeZoneIds, activeZoneOffset
    {
      Zns(znsZones, pagesPerZone, activeZoneIds[..], activeZoneOffset[..])
    }

    ghost predicate Valid()
      reads this, activeZoneIds, activeZoneOffset
    {
      && activeZoneIds.Length == activeZoneOffset.Length == activeZones == |freqs|
      && activeZones > 0 && pagesPerZone > 0
      && Sound(View())
      && znsZones == logicalPages / pagesPerZone
      && ZoneLayout.SumReal(freqs) == activeZones as real
    }

    constructor (logicalPages: nat, pagesPerZone: nat, activeZones: nat)
      requires pagesPerZone > 0 && activeZones > 0
      ensures fresh(activeZoneIds) && fresh(activeZoneOffset)
      ensures this.logicalPages == logicalPages && this.pagesPerZone == pagesPerZone
      ensures this.activeZones == activeZones
      ensures activeZoneIds.Length == activeZoneOffset.Length == activeZones == |freqs|
      ensures ZoneLayout.SumReal(freqs) == activeZones as real
    {
      this.logicalPages := logicalPages;
      this.pagesPerZone := pagesPerZone;
      this.activeZones := activeZones;
      activeZoneIds := new int[activeZones];
      activeZoneOffset := new nat[activeZones];
      freqs := Ones(activeZones);
      znsZones := 0;
    }

    /** Set-up of the ZNS pattern; `ok` is false where one of its checks fails. */
    method ParseAndInit() returns (ok: bool)
      requires pagesPerZone > 0 && activeZones > 0
      requires activeZoneIds.Length == activeZoneOffset.Length == activeZones == |freqs|
      requires ZoneLayout.SumReal(freqs) == activeZones as real
      modifies this, activeZoneIds, activeZoneOffset
      ensures ok <==> pagesPerZone < logicalPages && activeZones < logicalPages / pagesPerZone
      ensures ok ==> Valid() && View() == Initial(logicalPages / pagesPerZone, pagesPerZone, activeZones)
    {
      if logicalPages <= pagesPerZone {
        return false;
      }
      znsZones := logicalPages / pagesPerZone;
      if znsZones <= activeZones {
        return false;
      }
      var i := 0;
      while i < activeZones
        invariant i <= activeZones && znsZones == logicalPages / pagesPerZone
        invariant forall s :: 0 <= s < i ==> activeZoneIds[s] == -1 && activeZoneOffset[s] == pagesPerZone
      {
        activeZoneIds[i] := -1;
        activeZoneOffset[i] := pagesPerZone;
        i := i + 1;
      }
      ok := true;
      assert View() == Initial(znsZones, pagesPerZone, activeZones);
      InitialAgrees(znsZones, pagesPerZone, activeZones);
    }

    /** One access: pick a slot by frequency, then the next page of its zone, or the
        first page of the first drawn zone that is not in use. */
    method AccessZNS(randFreq: real, draws: seq<nat>) returns (idx: nat, ghost slot: nat, ghost drawn: nat)
      requires Valid() && randFreq <= activeZones as real
      requires forall i :: 0 <= i < |draws| ==> draws[i] < znsZones
      requires exists i :: 0 <= i < |draws| && draws[i] !in activeZoneIds[..]
      modifies activeZoneIds, activeZoneOffset
      ensures Valid()
      ensures ZoneLayout.Picked(freqs, randFreq, slot) && slot < activeZones
      ensures NeedsZone(old(View()), slot) ==> FirstUnused(old(activeZoneIds[..]), draws, drawn)
      ensures NeedsZone(old(View()), slot) ==> Unused(old(View()), drawn)
      ensures Access(View(), idx) == Next(old(View()), slot, drawn)
      ensures idx < znsZones * pagesPerZone
    {
      hide ZoneLayout.SumReal;
      var z := ZoneLayout.PickZone(freqs, randFreq);
      ghost var before := View();
      slot, drawn := z, 0;
      var idInZone := activeZoneOffset[z];
      if idInZone >= pagesPerZone {
        var randomZone := DrawUnused(draws);
        drawn := randomZone;
        activeZoneIds[z] := randomZone;
        activeZoneOffset[z] := 0;
        idx := Address.GetPhyAddr(pagesPerZone, randomZone, activeZoneOffset[z]);
        activeZoneOffset[z] := activeZoneOffset[z] + 1;
      } else {
        activeZoneOffset[z] := activeZoneOffset[z] + 1;
        idx := Address.GetPhyAddr(pagesPerZone, activeZoneIds[z], idInZone);
      }
      NextSound(before, slot, drawn);
      assert View() == Next(before, slot, drawn).z;
    }

    /** Draws until a zone comes up that is not in use. */
    method DrawUnused(draws: seq<nat>) returns (zone: nat)
      requires forall i :: 0 <= i < |draws| ==> draws[i] < znsZones
      requires exists i :: 0 <= i < |draws| && draws[i] !in activeZoneIds[..]
      ensures zone < znsZones && FirstUnused(activeZoneIds[..], draws, zone)
    {
      var i := 0;
      while draws[i] in activeZoneIds[..]
        invariant 0 <= i < |draws|
        invariant forall j :: 0 <= j < i ==> draws[j] in activeZoneIds[..]
        decreases |draws| - i
      {
        i := i + 1;
      }
      zone := draws[i];
    }
  }

  function Ones(n: nat): (r: seq<real>)
    ensures |r| == n && ZoneLayout.SumReal(r) == n as real
  {
    if n == 0 then [] else
      assert (Ones(n - 1) + [1.0])[..n - 1] == Ones(n - 1);
      Ones(n - 1) + [1.0]
  }

  /** A run of accesses, each with its random frequency and zone draws, together with
      the discards and writes the requests cause at the device. Some draw ends the
      drawing if more zones come up than are active. */
  method RunZns(gen: ZnsGenerator, freqs: seq<real>, draws: seq<seq<nat>>, bs: nat, ghost start: Device)
    returns (pages: seq<nat>, ghost cs: seq<Choice>, ghost end: Device)
    requires gen.Valid() && bs > 0 && Agrees(gen.View(), start) && |draws| == |freqs|
    requires forall i :: 0 <= i < |freqs| ==> freqs[i] <= gen.activeZones as real
    requires forall i :: 0 <= i < |draws| ==> forall k :: 0 <= k < |draws[i]| ==> draws[i][k] < gen.znsZones
    requires forall i :: 0 <= i < |draws| ==> gen.activeZones < |Drawn(draws[i])|
    modifies gen.activeZoneIds, gen.activeZoneOffset
    ensures gen.Valid() && |pages| == |cs| == |freqs|
    ensures Sound(old(gen.View())) && Possible(old(gen.View()), cs)
    ensures pages == Trace(old(gen.View()), cs) && gen.View() == After(old(gen.View()), cs)
    ensures forall i :: 0 <= i < |cs| ==> ZoneLayout.Picked(gen.freqs, freqs[i], cs[i].slot)
    ensures IssueAll(start, pages, bs, gen.pagesPerZone, bs) == Some(end) && Agrees(gen.View(), end)
    ensures forall i :: 0 <= i < |pages| ==> pages[i] < gen.logicalPages
  {
    hide Sound, Agrees, Issue, Next, Drawn, Possible, Trace, After, NeedsZone, Unused, FirstUnused, ZoneLayout.Picked;
    ghost var z0 := gen.View();
    AgreesSound(z0, start);
    TraceNone(z0);
    pages, cs, end := [], [], start;
    var i := 0;
    while i < |freqs|
      invariant 0 <= i <= |freqs| && |pages| == |cs| == i && gen.Valid()
      invariant Possible(z0, cs) && pages == Trace(z0, cs) && gen.View() == After(z0, cs)
      invariant forall k :: 0 <= k < |cs| ==> ZoneLayout.Picked(gen.freqs, freqs[k], cs[k].slot)
      invariant IssueAll(start, pages, bs, gen.pagesPerZone, bs) == Some(end) && Agrees(gen.View(), end)
      invariant forall k :: 0 <= k < |pages| ==> pages[k] < gen.logicalPages
    {
      ghost var z := gen.View();
      AgreesSound(z, end);
      SomeDrawnUnused(gen.activeZoneIds[..], draws[i]);
      var idx;
      ghost var slot, drawn;
      idx, slot, drawn := gen.AccessZNS(freqs[i], draws[i]);
      TraceAppend(z0, cs, Choice(slot, drawn));
      cs := cs + [Choice(slot, drawn)];
      IssueAccepted(z, end, slot, drawn, bs);
      IssueLast(start, pages, end, idx, bs, gen.pagesPerZone);
      WithinPages(gen.pagesPerZone, gen.logicalPages, idx);
      end := Issue(end, idx, bs, gen.pagesPerZone, bs).value;
      pages := pages + [idx];
      i := i + 1;
    }
  }

  lemma TraceNone(z: Zns)
    requires Sound(z)
    ensures Possible(z, []) && Trace(z, []) == [] && After(z, []) == z
  {
  }

  lemma AgreesSound(z: Zns, dev: Device)
    requires Agrees(z, dev)
    ensures Sound(z) && z.ppz > 0
  {
  }

  lemma WithinPages(ppz: nat, logicalPages: nat, idx: nat)
    requires ppz > 0 && idx < (logicalPages / ppz) * ppz
    ensures idx < logicalPages
  {
    Address.DivModSplit(ppz, logicalPages);
  }

  lemma {:induction false} IssueLast(dev: Device, pages: seq<nat>, mid: Device, page: nat, bs: nat, ppz: nat)
    requires bs > 0 && ppz > 0 && IssueAll(dev, pages, bs, ppz, bs) == Some(mid)
    ensures IssueAll(dev, pages + [page], bs, ppz, bs) == Issue(mid, page, bs, ppz, bs)
    decreases |pages|
  {
    hide Issue;
    if |pages| == 0 {
      assert (pages + [page])[1..] == [];
    } else {
      IssueLast(Issue(dev, pages[0], bs, ppz, bs).value, pages[1..], mid, page, bs, ppz);
      assert (pages + [page])[1..] == pages[1..] + [page];
    }
  }
}
