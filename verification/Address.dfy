/** Packed physical addresses: block id and slot position in one number. */
module Address {

  function GetPhyAddr(ppb: nat, blk: nat, pos: nat): (a: nat)
  {
    blk * ppb + pos
  }

  function GetBlockId(ppb: nat, a: nat): (blk: nat)
    requires ppb > 0
  {
    a / ppb
  }

  function GetPagePos(ppb: nat, a: nat): (pos: nat)
    requires ppb > 0
  {
    a % ppb
  }

  lemma MulMono(a: nat, b: nat, n: nat)
    requires a <= b
    ensures a * n <= b * n
  {
    assert b * n == a * n + (b - a) * n;
  }

  /** Numbers in different blocks of length `n` differ. */
  lemma BlocksDisjoint(n: nat, q: nat, r: nat, q1: nat, r1: nat)
    requires r < n && q < q1
    ensures q * n + r < q1 * n + r1
  {
    assert q1 * n == q * n + n + (q1 - q - 1) * n;
  }

  /** Quotient and remainder are determined by the decomposition. */
  lemma SplitUnique(n: nat, q: nat, r: nat, q1: nat, r1: nat)
    requires r < n && r1 < n && q * n + r == q1 * n + r1
    ensures q == q1 && r == r1
  {
    if q < q1 {
      BlocksDisjoint(n, q, r, q1, r1);
    } else if q1 < q {
      BlocksDisjoint(n, q1, r1, q, r);
    }
  }

  lemma DivModSplit(n: nat, a: nat)
    requires n > 0
    ensures a == (a / n) * n + a % n && a % n < n
  {
  }

  lemma DivModUnique(n: nat, q: nat, r: nat)
    requires r < n
    ensures (q * n + r) / n == q && (q * n + r) % n == r
  {
    var a := q * n + r;
    DivModSplit(n, a);
    SplitUnique(n, q, r, a / n, a % n);
  }

  /** Unpacking undoes packing for every in-block position, and packing undoes
      unpacking for every address. */
  lemma AddressRoundTrip(ppb: nat, blk: nat, pos: nat, a: nat)
    requires pos < ppb
    ensures GetBlockId(ppb, GetPhyAddr(ppb, blk, pos)) == blk
    ensures GetPagePos(ppb, GetPhyAddr(ppb, blk, pos)) == pos
    ensures GetPhyAddr(ppb, GetBlockId(ppb, a), GetPagePos(ppb, a)) == a
    ensures GetPagePos(ppb, a) < ppb
  {
    DivModUnique(ppb, blk, pos);
  }

  /** Addresses of a device are exactly those below its page count. */
  lemma AddressRange(ppb: nat, blocks: nat, a: nat)
    requires ppb > 0
    ensures a < blocks * ppb <==> GetBlockId(ppb, a) < blocks
  {
    DivModSplit(ppb, a);
    if a / ppb < blocks {
      BlocksDisjoint(ppb, a / ppb, a % ppb, blocks, 0);
    } else if blocks < a / ppb {
      BlocksDisjoint(ppb, blocks, 0, a / ppb, a % ppb);
    }
  }
}
