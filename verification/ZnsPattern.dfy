/** ZNS-style address generation: a few active zones are each written front to
    back, and a new zone is drawn when one is used up. */
module ZnsPattern {
  import opened Options
  import opened Address
  import Counting

  /** `ids[s]` is the zone slot `s` writes to, -1 before its first; `offs[s]` counts
      the pages written to it. */
  datatype Zns = Zns(zones: nat, ppz: nat, ids: seq<int>, offs: seq<nat>)

  ghost predicate Sound(z: Zns)
  {
    && z.ppz > 0 && |z.ids| == |z.offs| && |z.ids| < z.zones
    && (forall s :: 0 <= s < |z.ids| ==>
          if z.ids[s] == -1 then z.offs[s] == z.ppz else 0 <= z.ids[s] < z.zones && 0 < z.offs[s] <= z.ppz)
    && (forall s, t :: 0 <= s < t < |z.ids| && z.ids[s] != -1 ==> z.ids[s] != z.ids[t])
  }

  function Initial(zones: nat, ppz: nat, active: nat): (z: Zns)
  {
    Zns(zones, ppz, seq(active, _ => -1), seq(active, _ => ppz))
  }

  predicate NeedsZone(z: Zns, slot: nat)
    requires slot < |z.offs|
  {
    z.offs[slot] >= z.ppz
  }

  /** A zone that no slot uses. */
  predicate Unused(z: Zns, zone: nat)
  {
    zone < z.zones && zone !in z.ids
  }

  datatype Access = Access(z: Zns, page: nat)

  /** One access of slot `slot`; `drawn` is the zone to use if one is needed. */
  function Next(z: Zns, slot: nat, drawn: nat): (r: Access)
    requires Sound(z) && slot < |z.ids| && (NeedsZone(z, slot) ==> Unused(z, drawn))
  {
    if NeedsZone(z, slot) then
      Access(z.(ids := z.ids[slot := drawn], offs := z.offs[slot := 1]), GetPhyAddr(z.ppz, drawn, 0))
    else
      Access(z.(offs := z.offs[slot := z.offs[slot] + 1]), GetPhyAddr(z.ppz, z.ids[slot], z.offs[slot]))
  }

  /** Each access keeps the zones distinct and in range and stays inside a zone. */
  lemma NextSound(z: Zns, slot: nat, drawn: nat)
    requires Sound(z) && slot < |z.ids| && (NeedsZone(z, slot) ==> Unused(z, drawn))
    ensures var r := Next(z, slot, drawn);
      && Sound(r.z) && r.z.zones == z.zones && r.z.ppz == z.ppz && |r.z.ids| == |z.ids|
      && r.z.ids[slot] != -1 && GetBlockId(z.ppz, r.page) == r.z.ids[slot]
      && GetPagePos(z.ppz, r.page) == r.z.offs[slot] - 1
      && r.page < z.zones * z.ppz
  {
    var r := Next(z, slot, drawn);
    hide GetBlockId, GetPagePos, GetPhyAddr;
    if NeedsZone(z, slot) {
      AddressRoundTrip(z.ppz, drawn, 0, 0);
    } else {
      AddressRoundTrip(z.ppz, z.ids[slot], z.offs[slot], 0);
    }
    AddressRange(z.ppz, z.zones, r.page);
  }

  /** Where an access goes. A slot whose zone is used up moves to the drawn zone, which no
      slot used before, its own zone included, and takes its first page; any other slot
      takes the next page of its zone. No other slot is touched. */
  lemma NextMoves(z: Zns, slot: nat, drawn: nat)
    requires Sound(z) && slot < |z.ids| && (NeedsZone(z, slot) ==> Unused(z, drawn))
    ensures var r := Next(z, slot, drawn);
      && |r.z.ids| == |z.ids| && |r.z.offs| == |z.offs|
      && (if NeedsZone(z, slot)
          then r.z.ids[slot] == drawn && drawn !in z.ids && drawn != z.ids[slot] && r.z.offs[slot] == 1
          else r.z.ids[slot] == z.ids[slot] && r.z.offs[slot] == z.offs[slot] + 1)
      && GetBlockId(z.ppz, r.page) == r.z.ids[slot] && GetPagePos(z.ppz, r.page) == r.z.offs[slot] - 1
      && (forall s :: 0 <= s < |z.ids| && s != slot ==> r.z.ids[s] == z.ids[s] && r.z.offs[s] == z.offs[s])
  {
    NextSound(z, slot, drawn);
    assert z.ids[slot] in z.ids;
    hide GetBlockId, GetPagePos, GetPhyAddr;
  }

  /** Pigeonhole: with fewer slots than zones, some zone is unused. */
  lemma SomeUnused(ids: seq<int>, zones: nat)
    requires |ids| < zones
    ensures exists zone: nat :: zone < zones && zone !in ids
  {
    var used := set x | x in ids;
    var all := Numbers(zones);
    DistinctAtMost(ids);
    if all <= used {
      Counting.SubsetSize(all, used);
    }
    var zone :| zone in all && zone !in used;
    assert zone !in ids;
  }

  ghost function Numbers(n: nat): (s: set<int>)
    ensures |s| == n && forall x :: x in s <==> 0 <= x < n
  {
    if n == 0 then {} else Numbers(n - 1) + {n - 1}
  }

  lemma {:induction false} DistinctAtMost(ids: seq<int>)
    ensures |set x | x in ids| <= |ids|
  {
    if |ids| == 0 {
    } else {
      var n := |ids| - 1;
      DistinctAtMost(ids[..n]);
      assert ids == ids[..n] + [ids[n]];
      assert (set x | x in ids) == (set x | x in ids[..n]) + {ids[n]};
    }
  }

  ghost function Drawn(draws: seq<nat>): (s: set<int>)
  {
    set i | 0 <= i < |draws| :: draws[i]
  }

  /** More distinct draws than slots contain a zone that no slot uses. */
  lemma SomeDrawnUnused(ids: seq<int>, draws: seq<nat>)
    requires |ids| < |Drawn(draws)|
    ensures exists i :: 0 <= i < |draws| && draws[i] !in ids
  {
    var used := set x | x in ids;
    DistinctAtMost(ids);
    if Drawn(draws) <= used {
      Counting.SubsetSize(Drawn(draws), used);
    }
    var zone :| zone in Drawn(draws) && zone !in used;
  }

  /* ---------- the requests a zoned device sees ---------- */

  /** The generator issues a discard before a write whose byte address is a multiple
      of the zone size in bytes. */
  predicate DiscardsFirst(page: nat, bs: nat, ppz: nat)
    requires bs > 0 && ppz > 0
  {
    (page * bs) % (ppz * bs) == 0
  }

  /** That is exactly the first page of a zone. */
  lemma DiscardsAtZoneStart(page: nat, bs: nat, ppz: nat)
    requires bs > 0 && ppz > 0
    ensures ppz * bs > 0
    ensures DiscardsFirst(page, bs, ppz) <==> GetPagePos(ppz, page) == 0
  {
    var q, r := page / ppz, page % ppz;
    DivModSplit(ppz, page);
    MulLess(r, ppz, bs);
    assert page * bs == q * (ppz * bs) + r * bs by {
      assert (q * ppz + r) * bs == q * ppz * bs + r * bs;
      assert q * ppz * bs == q * (ppz * bs);
    }
    DivModUnique(ppz * bs, q, r * bs);
  }

  lemma MulLess(r: nat, n: nat, b: nat)
    requires r < n && b > 0
    ensures r * b < n * b && (r * b == 0 <==> r == 0)
  {
    MulMono(r + 1, n, b);
    assert (r + 1) * b == r * b + b;
    if r > 0 {
      MulMono(1, r, b);
    }
  }

  /** A zoned device: per zone the write pointer, or nothing known before the first
      discard. */
  type Device = seq<Option<nat>>

  /** A discard is accepted unless it would drop a partly written zone. */
  function DiscardZone(dev: Device, zone: nat, ppz: nat): (r: Option<Device>)
  {
    if zone < |dev| && (dev[zone] == None || dev[zone] == Some(ppz)) then Some(dev[zone := Some(0)]) else None
  }

  /** A write is accepted only at the write pointer of its zone. */
  function WriteAt(dev: Device, zone: nat, pos: nat, ppz: nat): (r: Option<Device>)
  {
    if zone < |dev| && pos < ppz && dev[zone] == Some(pos) then Some(dev[zone := Some(pos + 1)]) else None
  }

  /** A range of bytes. */
  datatype Range = Range(start: nat, length: nat)

  /** The bytes the program asks to discard before it writes `page`: `bs` is the request
      size, `pageSize` the page size of the pattern. */
  function Sent(page: nat, bs: nat, ppz: nat, pageSize: nat): (r: Range)
  {
    Range(page * bs, ppz * pageSize)
  }

  /** The bytes of a zone of `zoneBytes` bytes. */
  function ZoneRange(zone: nat, zoneBytes: nat): (r: Range)
  {
    Range(zone * zoneBytes, zoneBytes)
  }

  predicate Covers(r: Range, k: nat)
  {
    r.start <= k < r.start + r.length
  }

  /** A zoned device discards whole zones: the range must be one. */
  function Discard(dev: Device, r: Range, zoneBytes: nat, ppz: nat): (e: Option<Device>)
    requires zoneBytes > 0
  {
    if r == ZoneRange(r.start / zoneBytes, zoneBytes) then DiscardZone(dev, r.start / zoneBytes, ppz) else None
  }

  lemma MulCancel(a: nat, b: nat, c: nat)
    requires a > 0 && a * b == a * c
    ensures b == c
  {
  }

  /** At the first page of a zone the program's range is that zone, byte for byte, exactly
      when the page size is the request size. */
  lemma DiscardCoversZone(page: nat, bs: nat, ppz: nat, pageSize: nat)
    requires bs > 0 && ppz > 0 && GetPagePos(ppz, page) == 0
    ensures Sent(page, bs, ppz, pageSize).start == GetBlockId(ppz, page) * (ppz * bs)
    ensures (forall k: nat :: Covers(Sent(page, bs, ppz, pageSize), k) <==> Covers(ZoneRange(GetBlockId(ppz, page), ppz * bs), k))
            <==> pageSize == bs
  {
    var r, z := Sent(page, bs, ppz, pageSize), ZoneRange(GetBlockId(ppz, page), ppz * bs);
    DivModSplit(ppz, page);
    assert page * bs == page / ppz * (ppz * bs);
    if pageSize != bs {
      if r.length == z.length {
        MulCancel(ppz, pageSize, bs);
      }
      var k := r.start + if r.length < z.length then r.length else z.length;
      assert Covers(r, k) != Covers(z, k);
    }
  }

  /** So the device takes the discard as one of that zone exactly then, and refuses it
      otherwise. */
  lemma DiscardIs(dev: Device, page: nat, bs: nat, ppz: nat, pageSize: nat)
    requires bs > 0 && ppz > 0 && GetPagePos(ppz, page) == 0
    ensures ppz * bs > 0
    ensures Discard(dev, Sent(page, bs, ppz, pageSize), ppz * bs, ppz) ==
      if pageSize == bs then DiscardZone(dev, GetBlockId(ppz, page), ppz) else None
  {
    DiscardCoversZone(page, bs, ppz, pageSize);
    MulMono(1, ppz, bs);
    DivModUnique(ppz * bs, GetBlockId(ppz, page), 0);
    if ppz * pageSize == ppz * bs {
      MulCancel(ppz, pageSize, bs);
    }
  }

  /** The device's answer to one generated page. */
  function Issue(dev: Device, page: nat, bs: nat, ppz: nat, pageSize: nat): (r: Option<Device>)
    requires bs > 0 && ppz > 0
  {
    var zone, pos := GetBlockId(ppz, page), GetPagePos(ppz, page);
    if DiscardsFirst(page, bs, ppz) then
      DiscardsAtZoneStart(page, bs, ppz);
      var e := Discard(dev, Sent(page, bs, ppz, pageSize), ppz * bs, ppz);
      if e.None? then None else WriteAt(e.value, zone, pos, ppz)
    else WriteAt(dev, zone, pos, ppz)
  }

  /** The same in terms of zones. */
  lemma IssueIs(dev: Device, page: nat, bs: nat, ppz: nat, pageSize: nat)
    requires bs > 0 && ppz > 0
    ensures var zone, pos := GetBlockId(ppz, page), GetPagePos(ppz, page);
      Issue(dev, page, bs, ppz, pageSize) ==
        if pos != 0 then WriteAt(dev, zone, pos, ppz)
        else if pageSize != bs || DiscardZone(dev, zone, ppz).None? then None
        else WriteAt(DiscardZone(dev, zone, ppz).value, zone, pos, ppz)
  {
    DiscardsAtZoneStart(page, bs, ppz);
    if GetPagePos(ppz, page) == 0 {
      DiscardIs(dev, page, bs, ppz, pageSize);
    }
    hide GetBlockId, GetPagePos, DiscardsFirst, Discard, Sent;
  }

  /** Generator and device agree: the write pointer of a slot's zone is the slot's
      offset; any other zone is untouched or complete. */
  ghost predicate Agrees(z: Zns, dev: Device)
  {
    && Sound(z) && |dev| == z.zones
    && (forall s :: 0 <= s < |z.ids| && z.ids[s] != -1 ==> dev[z.ids[s]] == Some(z.offs[s]))
    && (forall zone :: 0 <= zone < z.zones && zone !in z.ids ==> dev[zone] == None || dev[zone] == Some(z.ppz))
  }

  lemma InitialAgrees(zones: nat, ppz: nat, active: nat)
    requires ppz > 0 && active < zones
    ensures Sound(Initial(zones, ppz, active))
    ensures Agrees(Initial(zones, ppz, active), seq(zones, _ => None))
  {
  }

  /** The device accepts every generated page, if the page size is the request size. */
  lemma IssueAccepted(z: Zns, dev: Device, slot: nat, drawn: nat, bs: nat)
    requires Agrees(z, dev) && bs > 0 && slot < |z.ids| && (NeedsZone(z, slot) ==> Unused(z, drawn))
    ensures var r := Next(z, slot, drawn);
      Issue(dev, r.page, bs, z.ppz, bs).Some? && Agrees(r.z, Issue(dev, r.page, bs, z.ppz, bs).value)
  {
    NextSound(z, slot, drawn);
    var r := Next(z, slot, drawn);
    IssueIs(dev, r.page, bs, z.ppz, bs);
    hide GetBlockId, GetPagePos, GetPhyAddr, Issue;
    var e := Issue(dev, r.page, bs, z.ppz, bs);
    assert e.Some?;
    var zone := r.z.ids[slot];
    assert forall s :: 0 <= s < |z.ids| && s != slot ==> r.z.ids[s] == z.ids[s];
    forall k | 0 <= k < z.zones && k !in r.z.ids
      ensures e.value[k] == None || e.value[k] == Some(z.ppz)
    {
      assert k != zone by { assert r.z.ids[slot] in r.z.ids; }
      assert e.value[k] == dev[k];
      if k in z.ids {
        var s :| 0 <= s < |z.ids| && z.ids[s] == k;
        assert s == slot;
      }
    }
  }

  /** With another page size the first page of a zone is refused. */
  lemma IssueRefused(z: Zns, dev: Device, slot: nat, drawn: nat, bs: nat, pageSize: nat)
    requires Sound(z) && bs > 0 && pageSize != bs && slot < |z.ids| && NeedsZone(z, slot) && Unused(z, drawn)
    ensures Issue(dev, Next(z, slot, drawn).page, bs, z.ppz, pageSize).None?
  {
    NextSound(z, slot, drawn);
    IssueIs(dev, Next(z, slot, drawn).page, bs, z.ppz, pageSize);
    hide GetBlockId, GetPagePos, GetPhyAddr, Issue;
  }

  datatype Choice = Choice(slot: nat, drawn: nat)

  /** The choices of a run are possible: slots exist, drawn zones are unused. */
  ghost predicate Possible(z: Zns, cs: seq<Choice>)
    requires Sound(z)
    decreases |cs|
  {
    |cs| == 0 ||
    (cs[0].slot < |z.ids| && (NeedsZone(z, cs[0].slot) ==> Unused(z, cs[0].drawn)) &&
     (NextSound(z, cs[0].slot, cs[0].drawn);
      Possible(Next(z, cs[0].slot, cs[0].drawn).z, cs[1..])))
  }

  /** The pages generated by a run, in generation order. */
  function Trace(z: Zns, cs: seq<Choice>): (pages: seq<nat>)
    requires Sound(z) && Possible(z, cs)
    ensures |pages| == |cs|
    decreases |cs|
  {
    if |cs| == 0 then []
    else
      NextSound(z, cs[0].slot, cs[0].drawn);
      var r := Next(z, cs[0].slot, cs[0].drawn);
      [r.page] + Trace(r.z, cs[1..])
  }

  /** The generator's state after a run. */
  function After(z: Zns, cs: seq<Choice>): (r: Zns)
    requires Sound(z) && Possible(z, cs)
    ensures Sound(r) && r.zones == z.zones && r.ppz == z.ppz && |r.ids| == |z.ids|
    decreases |cs|
  {
    if |cs| == 0 then z
    else
      NextSound(z, cs[0].slot, cs[0].drawn);
      After(Next(z, cs[0].slot, cs[0].drawn).z, cs[1..])
  }

  /** One more access at the end of a run. */
  lemma {:induction false} TraceAppend(z: Zns, cs: seq<Choice>, c: Choice)
    requires Sound(z) && Possible(z, cs)
    requires c.slot < |z.ids| && (NeedsZone(After(z, cs), c.slot) ==> Unused(After(z, cs), c.drawn))
    ensures Possible(z, cs + [c])
    ensures Trace(z, cs + [c]) == Trace(z, cs) + [Next(After(z, cs), c.slot, c.drawn).page]
    ensures After(z, cs + [c]) == Next(After(z, cs), c.slot, c.drawn).z
    decreases |cs|
  {
    var all := cs + [c];
    if |cs| == 0 {
      assert all[0] == c && all[1..] == [];
    } else {
      NextSound(z, cs[0].slot, cs[0].drawn);
      var n := Next(z, cs[0].slot, cs[0].drawn);
      assert all[0] == cs[0] && all[1..] == cs[1..] + [c];
      hide Sound, Next, NeedsZone, Unused;
      TraceAppend(n.z, cs[1..], c);
    }
  }

  function IssueAll(dev: Device, pages: seq<nat>, bs: nat, ppz: nat, pageSize: nat): (r: Option<Device>)
    requires bs > 0 && ppz > 0
    decreases |pages|
  {
    if |pages| == 0 then Some(dev)
    else
      var e := Issue(dev, pages[0], bs, ppz, pageSize);
      if e.None? then None else IssueAll(e.value, pages[1..], bs, ppz, pageSize)
  }

  /** ZNS legality from any agreeing state: the device accepts the whole trace. */
  lemma {:induction false} TraceAccepted(z: Zns, dev: Device, cs: seq<Choice>, bs: nat)
    requires Agrees(z, dev) && bs > 0 && Possible(z, cs)
    ensures IssueAll(dev, Trace(z, cs), bs, z.ppz, bs).Some?
    decreases |cs|
  {
    if |cs| == 0 {
    } else {
      NextSound(z, cs[0].slot, cs[0].drawn);
      IssueAccepted(z, dev, cs[0].slot, cs[0].drawn, bs);
      var r := Next(z, cs[0].slot, cs[0].drawn);
      hide Agrees, Sound, Issue, Next;
      TraceAccepted(r.z, Issue(dev, r.page, bs, z.ppz, bs).value, cs[1..], bs);
      assert Trace(z, cs)[1..] == Trace(r.z, cs[1..]);
    }
  }

  /** ZNS legality: whatever slots and zones are chosen, a zoned device with write
      pointers accepts every write and every discard of the run, and no partly written
      zone is ever discarded, exactly when the page size of the pattern is the request
      size. */
  lemma ZnsTraceLegal(zones: nat, ppz: nat, active: nat, cs: seq<Choice>, bs: nat, pageSize: nat)
    requires ppz > 0 && active < zones && bs > 0 && |cs| > 0
    requires Sound(Initial(zones, ppz, active)) && Possible(Initial(zones, ppz, active), cs)
    ensures IssueAll(seq(zones, _ => None), Trace(Initial(zones, ppz, active), cs), bs, ppz, pageSize).Some?
            <==> pageSize == bs
  {
    var z, dev := Initial(zones, ppz, active), seq(zones, _ => None);
    if pageSize == bs {
      InitialAgrees(zones, ppz, active);
      TraceAccepted(z, dev, cs, bs);
    } else {
      IssueRefused(z, dev, cs[0].slot, cs[0].drawn, bs, pageSize);
      hide Issue, Next, Sound;
      assert Trace(z, cs)[0] == Next(z, cs[0].slot, cs[0].drawn).page;
    }
  }

  /** Every generated page is a logical page. */
  lemma {:induction false} TraceInRange(z: Zns, cs: seq<Choice>, logicalPages: nat)
    requires Sound(z) && Possible(z, cs) && z.zones == logicalPages / z.ppz
    ensures forall i :: 0 <= i < |cs| ==> Trace(z, cs)[i] < logicalPages
    decreases |cs|
  {
    if |cs| == 0 {
    } else {
      NextSound(z, cs[0].slot, cs[0].drawn);
      DivModSplit(z.ppz, logicalPages);
      var r := Next(z, cs[0].slot, cs[0].drawn);
      hide Next, Sound;
      TraceInRange(r.z, cs[1..], logicalPages);
    }
  }
}
