/** Access zones: the page range is cut into zones by relative size, whole pages
    first and the remainder one page each; an access picks a zone by frequency. */
module ZoneLayout {

  function SumReal(xs: seq<real>): (s: real)
  {
    if |xs| == 0 then 0.0 else SumReal(xs[..|xs| - 1]) + xs[|xs| - 1]
  }

  function Total(xs: seq<nat>): (s: nat)
  {
    if |xs| == 0 then 0 else Total(xs[..|xs| - 1]) + xs[|xs| - 1]
  }

  /** A zone's exact share of the pages. */
  function Share(size: real, sum: real, pageCount: nat): (s: real)
    requires sum > 0.0
  {
    size / sum * pageCount as real
  }

  ghost predicate Sizes(sizes: seq<real>)
  {
    forall i :: 0 <= i < |sizes| ==> sizes[i] >= 0.0
  }

  lemma ShareNonNegative(size: real, sum: real, pageCount: nat)
    requires sum > 0.0 && size >= 0.0
    ensures Share(size, sum, pageCount) >= 0.0
  {
    assert size / sum >= 0.0;
  }

  /** The whole pages of each share. */
  function Floors(sizes: seq<real>, sum: real, pageCount: nat): (r: seq<nat>)
    requires sum > 0.0 && Sizes(sizes)
    ensures |r| == |sizes|
    ensures forall i :: 0 <= i < |r| ==> r[i] as real <= Share(sizes[i], sum, pageCount) < r[i] as real + 1.0
  {
    if |sizes| == 0 then []
    else
      var n := |sizes| - 1;
      ShareNonNegative(sizes[n], sum, pageCount);
      Floors(sizes[..n], sum, pageCount) + [Share(sizes[n], sum, pageCount).Floor]
  }

  lemma ShareAdd(a: real, b: real, sum: real, pageCount: nat)
    requires sum > 0.0
    ensures Share(a + b, sum, pageCount) == Share(a, sum, pageCount) + Share(b, sum, pageCount)
  {
    var p := pageCount as real;
    assert (a + b) / sum == a / sum + b / sum;
    assert (a / sum + b / sum) * p == a / sum * p + b / sum * p;
  }

  lemma FloorsLast(sizes: seq<real>, sum: real, pageCount: nat)
    requires sum > 0.0 && Sizes(sizes) && |sizes| > 0
    ensures var n := |sizes| - 1; var s := Share(sizes[n], sum, pageCount);
      s >= 0.0 && Floors(sizes, sum, pageCount) == Floors(sizes[..n], sum, pageCount) + [s.Floor]
  {
    ShareNonNegative(sizes[|sizes| - 1], sum, pageCount);
    hide Share;
  }

  lemma TotalLast(xs: seq<nat>, x: nat)
    ensures Total(xs + [x]) == Total(xs) + x
  {
    assert (xs + [x])[..|xs|] == xs;
  }

  lemma FloorsSplit(sizes: seq<real>, sum: real, pageCount: nat)
    requires sum > 0.0 && Sizes(sizes) && |sizes| > 0
    ensures var n := |sizes| - 1; var s := Share(sizes[n], sum, pageCount);
      && s >= 0.0
      && Total(Floors(sizes, sum, pageCount)) == Total(Floors(sizes[..n], sum, pageCount)) + s.Floor
      && Share(SumReal(sizes), sum, pageCount) == Share(SumReal(sizes[..n]), sum, pageCount) + s
  {
    hide Share, Floors, Total;
    var n := |sizes| - 1;
    FloorsLast(sizes, sum, pageCount);
    TotalLast(Floors(sizes[..n], sum, pageCount), Share(sizes[n], sum, pageCount).Floor);
    ShareAdd(SumReal(sizes[..n]), sizes[n], sum, pageCount);
  }

  /** What rounding down loses. */
  function Loss(sizes: seq<real>, sum: real, pageCount: nat): (l: real)
    requires sum > 0.0 && Sizes(sizes)
  {
    Share(SumReal(sizes), sum, pageCount) - Total(Floors(sizes, sum, pageCount)) as real
  }

  lemma LossNone(sizes: seq<real>, sum: real, pageCount: nat)
    requires sum > 0.0 && sizes == []
    ensures Loss(sizes, sum, pageCount) == 0.0
  {
  }

  lemma LossNext(sizes: seq<real>, sum: real, pageCount: nat)
    requires sum > 0.0 && Sizes(sizes) && |sizes| > 0
    ensures var more := Loss(sizes, sum, pageCount) - Loss(sizes[..|sizes| - 1], sum, pageCount);
            0.0 <= more < 1.0
  {
    hide Share, Floors, Total, SumReal;
    FloorsSplit(sizes, sum, pageCount);
  }

  /** Rounding down loses less than one page a zone. */
  lemma {:induction false} FloorsBound(sizes: seq<real>, sum: real, pageCount: nat)
    requires sum > 0.0 && Sizes(sizes)
    ensures 0.0 <= Loss(sizes, sum, pageCount)
    ensures if |sizes| == 0 then Loss(sizes, sum, pageCount) == 0.0 else Loss(sizes, sum, pageCount) < |sizes| as real
  {
    hide Loss;
    if |sizes| == 0 {
      LossNone(sizes, sum, pageCount);
    } else {
      LossNext(sizes, sum, pageCount);
      FloorsBound(sizes[..|sizes| - 1], sum, pageCount);
    }
  }

  /** What is left after rounding down is non-negative and less than one page a zone,
      so each zone gains at most one. */
  lemma RemainderSmall(sizes: seq<real>, pageCount: nat)
    requires Sizes(sizes) && SumReal(sizes) > 0.0
    ensures var floors := Floors(sizes, SumReal(sizes), pageCount);
            0 <= pageCount - Total(floors) < |sizes|
  {
    FloorsBound(sizes, SumReal(sizes), pageCount);
    WholeShare(SumReal(sizes), pageCount);
    hide Share, Floors;
  }

  lemma WholeShare(sum: real, pageCount: nat)
    requires sum > 0.0
    ensures Share(sum, sum, pageCount) == pageCount as real
  {
    assert sum / sum == 1.0;
  }

  /** Page counts per zone: the whole pages, plus one for the first zones until all
      pages are assigned. */
  function Counts(sizes: seq<real>, pageCount: nat): (r: seq<nat>)
    requires Sizes(sizes) && SumReal(sizes) > 0.0
    ensures |r| == |sizes|
  {
    var floors := Floors(sizes, SumReal(sizes), pageCount);
    seq(|sizes|, i requires 0 <= i < |sizes| => floors[i] + if i < pageCount - Total(floors) then 1 else 0)
  }

  function AddOnes(xs: seq<nat>, k: nat): (r: seq<nat>)
    requires k <= |xs|
    ensures |r| == |xs|
  {
    seq(|xs|, i requires 0 <= i < |xs| => xs[i] + if i < k then 1 else 0)
  }

  lemma {:induction false} TotalUpdate(xs: seq<nat>, i: nat, x: nat)
    requires i < |xs|
    ensures Total(xs[i := x]) + xs[i] == Total(xs) + x
  {
    var n := |xs| - 1;
    if i == n {
      assert xs[i := x][..n] == xs[..n];
    } else {
      assert xs[i := x][..n] == xs[..n][i := x];
      TotalUpdate(xs[..n], i, x);
    }
  }

  lemma {:induction false} TotalAddOnes(xs: seq<nat>, k: nat)
    requires k <= |xs|
    ensures Total(AddOnes(xs, k)) == Total(xs) + k
  {
    if k == 0 {
      assert AddOnes(xs, 0) == xs;
    } else {
      TotalAddOnes(xs, k - 1);
      assert AddOnes(xs, k) == AddOnes(xs, k - 1)[k - 1 := xs[k - 1] + 1];
      TotalUpdate(AddOnes(xs, k - 1), k - 1, xs[k - 1] + 1);
    }
  }

  /** Every page is assigned to a zone. */
  lemma CountsTotal(sizes: seq<real>, pageCount: nat)
    requires Sizes(sizes) && SumReal(sizes) > 0.0
    ensures Total(Counts(sizes, pageCount)) == pageCount
  {
    var floors := Floors(sizes, SumReal(sizes), pageCount);
    RemainderSmall(sizes, pageCount);
    hide Floors, Share, SumReal;
    TotalAddOnes(floors, pageCount - Total(floors));
    assert Counts(sizes, pageCount) == AddOnes(floors, pageCount - Total(floors));
  }

  /** No zone is more than one page away from its exact share. */
  lemma CountsNearShare(sizes: seq<real>, pageCount: nat, i: nat)
    requires Sizes(sizes) && SumReal(sizes) > 0.0 && i < |sizes|
    ensures var c, s := Counts(sizes, pageCount)[i] as real, Share(sizes[i], SumReal(sizes), pageCount);
            s - 1.0 < c <= s + 1.0
  {
    hide Share;
  }

  lemma WholePages(share: real, n: nat)
    requires n as real <= share < n as real + 1.0
    ensures share.Floor == n
  {
  }

  /** The whole pages of a zone's share. */
  function Whole(sizes: seq<real>, pageCount: nat, i: nat): (n: int)
    requires SumReal(sizes) > 0.0 && i < |sizes|
  {
    Share(sizes[i], SumReal(sizes), pageCount).Floor
  }

  lemma CountWhole(sizes: seq<real>, pageCount: nat, i: nat)
    requires Sizes(sizes) && SumReal(sizes) > 0.0 && i < |sizes|
    ensures Counts(sizes, pageCount)[i] ==
      Whole(sizes, pageCount, i)
      + if i < pageCount - Total(Floors(sizes, SumReal(sizes), pageCount)) then 1 else 0
  {
    hide Share, Floors, Total, SumReal;
    WholePages(Share(sizes[i], SumReal(sizes), pageCount), Floors(sizes, SumReal(sizes), pageCount)[i]);
  }

  /** Every zone has its whole pages, and the pages left over go to the first zones, one
      each. */
  lemma RemainderFirst(sizes: seq<real>, pageCount: nat, i: nat, j: nat)
    requires Sizes(sizes) && SumReal(sizes) > 0.0 && i <= j < |sizes|
    ensures var counts := Counts(sizes, pageCount);
      && counts[i] - Whole(sizes, pageCount, i) <= 1
      && 0 <= counts[j] - Whole(sizes, pageCount, j) <= counts[i] - Whole(sizes, pageCount, i)
  {
    hide Whole, Counts, Floors, Total, SumReal;
    CountWhole(sizes, pageCount, i);
    CountWhole(sizes, pageCount, j);
  }

  /** The first page of zone `i`. */
  function Offset(counts: seq<nat>, i: nat): (o: nat)
    requires i <= |counts|
  {
    Total(counts[..i])
  }

  lemma OffsetNext(counts: seq<nat>, i: nat)
    requires i < |counts|
    ensures Offset(counts, i + 1) == Offset(counts, i) + counts[i]
  {
    assert counts[..i + 1][..i] == counts[..i];
  }

  lemma {:induction false} OffsetMonotone(counts: seq<nat>, i: nat, j: nat)
    requires i <= j <= |counts|
    ensures Offset(counts, i) <= Offset(counts, j)
    decreases j - i
  {
    if i == j {
    } else {
      OffsetNext(counts, i);
      OffsetMonotone(counts, i + 1, j);
    }
  }

  /** Page `p` belongs to zone `i`. */
  ghost predicate InZone(counts: seq<nat>, i: nat, p: nat)
  {
    i < |counts| && Offset(counts, i) <= p < Offset(counts, i) + counts[i]
  }

  lemma {:induction false} SomeZone(counts: seq<nat>, p: nat) returns (i: nat)
    requires p < Total(counts)
    ensures InZone(counts, i, p)
  {
    var n := |counts| - 1;
    assert counts[..n + 1] == counts;
    OffsetNext(counts, n);
    if Offset(counts, n) <= p {
      i := n;
    } else {
      i := SomeZone(counts[..n], p);
      assert counts[..n][..i] == counts[..i];
    }
  }

  lemma ZonesDisjoint(counts: seq<nat>, i: nat, j: nat, p: nat)
    requires InZone(counts, i, p) && InZone(counts, j, p)
    ensures i == j
  {
    OffsetNext(counts, i);
    OffsetNext(counts, j);
    if i < j {
      OffsetMonotone(counts, i + 1, j);
    } else if j < i {
      OffsetMonotone(counts, j + 1, i);
    }
  }

  /** The zones tile the page range: a number is a page exactly when it lies in a
      zone, and then in one zone only. */
  lemma ZonesTile(sizes: seq<real>, pageCount: nat, p: nat)
    requires Sizes(sizes) && SumReal(sizes) > 0.0
    ensures var counts := Counts(sizes, pageCount);
      && (p < pageCount <==> exists i: nat :: InZone(counts, i, p))
      && (forall i: nat, j: nat :: InZone(counts, i, p) && InZone(counts, j, p) ==> i == j)
  {
    var counts := Counts(sizes, pageCount);
    CountsTotal(sizes, pageCount);
    hide Counts, Share, SumReal, InZone;
    if p < pageCount {
      var i := SomeZone(counts, p);
    }
    forall i: nat | InZone(counts, i, p)
      ensures p < pageCount
    {
      ZoneInside(counts, i, p);
    }
    forall i: nat, j: nat | InZone(counts, i, p) && InZone(counts, j, p)
      ensures i == j
    {
      ZonesDisjoint(counts, i, j, p);
    }
  }

  lemma ZoneInside(counts: seq<nat>, i: nat, p: nat)
    requires InZone(counts, i, p)
    ensures p < Total(counts)
  {
    OffsetNext(counts, i);
    OffsetMonotone(counts, i + 1, |counts|);
    assert counts[..|counts|] == counts;
  }

  /* ---------- the loops ---------- */

  method SumSizes(sizes: seq<real>) returns (sum: real)
    ensures sum == SumReal(sizes)
  {
    sum := 0.0;
    var k := 0;
    while k < |sizes|
      invariant 0 <= k <= |sizes| && sum == SumReal(sizes[..k])
    {
      assert sizes[..k + 1][..k] == sizes[..k];
      sum := sum + sizes[k];
      k := k + 1;
    }
    assert sizes[..k] == sizes;
  }

  lemma FloorsNext(sizes: seq<real>, k: nat, sum: real, pageCount: nat)
    requires sum > 0.0 && Sizes(sizes) && k < |sizes|
    ensures Share(sizes[k], sum, pageCount) >= 0.0
    ensures Floors(sizes[..k + 1], sum, pageCount) ==
      Floors(sizes[..k], sum, pageCount) + [Share(sizes[k], sum, pageCount).Floor]
  {
    ShareNonNegative(sizes[k], sum, pageCount);
    hide Share;
    assert sizes[..k + 1][..k] == sizes[..k];
  }

  /** Rounds each share down. */
  method FloorCounts(sizes: seq<real>, sum: real, pageCount: nat) returns (counts: seq<nat>, total: nat)
    requires sum > 0.0 && Sizes(sizes)
    ensures counts == Floors(sizes, sum, pageCount) && total == Total(counts)
  {
    hide Share, Floors, Total;
    counts, total := [], 0;
    FloorsEmpty(sum, pageCount);
    var k := 0;
    while k < |sizes|
      invariant 0 <= k <= |sizes|
      invariant counts == Floors(sizes[..k], sum, pageCount) && total == Total(counts)
    {
      FloorsNext(sizes, k, sum, pageCount);
      var count := Share(sizes[k], sum, pageCount).Floor;
      TotalLast(counts, count);
      counts := counts + [count];
      total := total + count;
      k := k + 1;
    }
    assert sizes[..k] == sizes;
  }

  lemma FloorsEmpty(sum: real, pageCount: nat)
    requires sum > 0.0
    ensures Floors([], sum, pageCount) == [] && Total([]) == 0
  {
  }

  /** Hands out the remaining pages round robin. */
  method Distribute(floors: seq<nat>, remaining: nat) returns (counts: seq<nat>)
    requires remaining < |floors|
    ensures counts == AddOnes(floors, remaining)
  {
    var left, i := remaining, 0;
    counts := floors;
    while left > 0
      invariant 0 <= i && 0 <= left && left + i == remaining
      invariant counts == AddOnes(floors, i)
    {
      assert i % |counts| == i;
      counts := counts[i % |counts| := counts[i % |counts|] + 1];
      i := i + 1;
      left := left - 1;
    }
  }

  /** Places the zones one after the other. */
  method Place(counts: seq<nat>) returns (offsets: seq<nat>, end: nat)
    ensures |offsets| == |counts| && forall i :: 0 <= i < |offsets| ==> offsets[i] == Offset(counts, i)
    ensures end == Total(counts)
  {
    offsets, end := [], 0;
    var k := 0;
    while k < |counts|
      invariant 0 <= k <= |counts| && |offsets| == k && end == Offset(counts, k)
      invariant forall j :: 0 <= j < k ==> offsets[j] == Offset(counts, j)
    {
      OffsetNext(counts, k);
      offsets := offsets + [end];
      end := end + counts[k];
      k := k + 1;
    }
    assert counts[..k] == counts;
  }

  /** The set-up: sum, round down, distribute the rest, place the zones. Neither of
      the program's two checks, on the remainder and on the final sum, fails. */
  method InitZones(sizes: seq<real>, pageCount: nat) returns (counts: seq<nat>, offsets: seq<nat>)
    requires Sizes(sizes) && SumReal(sizes) > 0.0
    ensures counts == Counts(sizes, pageCount)
    ensures |offsets| == |sizes| && forall i :: 0 <= i < |offsets| ==> offsets[i] == Offset(counts, i)
  {
    hide Share, Floors, Total, SumReal;
    RemainderSmall(sizes, pageCount);
    CountsTotal(sizes, pageCount);
    var sum := SumSizes(sizes);
    var floors, total := FloorCounts(sizes, sum, pageCount);
    var remaining := pageCount - total;
    assert remaining >= 0;
    counts := Distribute(floors, remaining);
    var end;
    offsets, end := Place(counts);
    assert end == pageCount;
  }

  /** The zone a random frequency falls into. */
  ghost predicate Picked(freqs: seq<real>, randFreq: real, id: nat)
  {
    id < |freqs| && randFreq <= SumReal(freqs[..id + 1]) && (id > 0 ==> SumReal(freqs[..id]) < randFreq)
  }

  /** The zone pick: the first zone whose cumulative frequency reaches the draw. */
  method PickZone(freqs: seq<real>, randFreq: real) returns (id: nat)
    requires |freqs| > 0 && randFreq <= SumReal(freqs)
    ensures Picked(freqs, randFreq, id)
  {
    id := 0;
    var freqCnt := freqs[0];
    assert freqs[..1][..0] == [];
    while freqCnt < randFreq
      invariant id < |freqs| && freqCnt == SumReal(freqs[..id + 1])
      invariant id > 0 ==> SumReal(freqs[..id]) < randFreq
      decreases |freqs| - id
    {
      assert freqs[..|freqs|] == freqs;
      id := id + 1;
      assert freqs[..id + 1][..id] == freqs[..id];
      freqCnt := freqCnt + freqs[id];
    }
  }

  /** One access: the chosen zone's offset plus a page drawn inside that zone. */
  method AccessZones(counts: seq<nat>, offsets: seq<nat>, freqs: seq<real>, randFreq: real, draws: seq<nat>)
    returns (idx: nat, ghost zone: nat)
    requires |freqs| > 0 && |counts| == |offsets| == |freqs| == |draws| && randFreq <= SumReal(freqs)
    requires forall i :: 0 <= i < |offsets| ==> offsets[i] == Offset(counts, i)
    requires forall i: nat :: Picked(freqs, randFreq, i) ==> draws[i] < counts[i]
    ensures Picked(freqs, randFreq, zone)
    ensures idx == Offset(counts, zone) + draws[zone]
    ensures InZone(counts, zone, idx) && idx < Total(counts)
  {
    var id := PickZone(freqs, randFreq);
    idx := offsets[id] + draws[id];
    zone := id;
    ZoneInside(counts, zone, idx);
  }
}
