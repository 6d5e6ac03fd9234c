/** RAID0 striping: logical offsets to (device, offset) pairs and back. */
module Raid {
  import Address

  datatype Place = Place(device: nat, offset: nat)

  /** Position `pos` of the `row`-th piece of length `size`. */
  function InChunk(row: nat, size: nat, pos: nat): (n: nat)
  {
    row * size + pos
  }

  /** The striping function. */
  function Calc(devices: nat, chunkSize: nat, offset: nat): (p: Place)
    requires devices > 0 && chunkSize > 0
  {
    var chunk := offset / chunkSize;
    Place(chunk % devices, InChunk(chunk / devices, chunkSize, offset % chunkSize))
  }

  /** The logical offset stored at a place. */
  function Logical(devices: nat, chunkSize: nat, p: Place): (offset: nat)
    requires devices > 0 && chunkSize > 0
  {
    InChunk(InChunk(p.offset / chunkSize, devices, p.device), chunkSize, p.offset % chunkSize)
  }

  /** The logical offset of position `inChunk` of chunk `row` of a device. */
  function OffsetOf(devices: nat, chunkSize: nat, row: nat, device: nat, inChunk: nat): (offset: nat)
  {
    InChunk(InChunk(row, devices, device), chunkSize, inChunk)
  }

  /** Striping by quotient and remainder, without division. */
  lemma CalcSplit(devices: nat, chunkSize: nat, row: nat, device: nat, inChunk: nat)
    requires device < devices && inChunk < chunkSize
    ensures Calc(devices, chunkSize, OffsetOf(devices, chunkSize, row, device, inChunk)) ==
      Place(device, InChunk(row, chunkSize, inChunk))
  {
    Address.DivModUnique(chunkSize, InChunk(row, devices, device), inChunk);
    Address.DivModUnique(devices, row, device);
  }

  lemma LogicalSplit(devices: nat, chunkSize: nat, row: nat, device: nat, inChunk: nat)
    requires device < devices && inChunk < chunkSize
    ensures Logical(devices, chunkSize, Place(device, InChunk(row, chunkSize, inChunk))) ==
      OffsetOf(devices, chunkSize, row, device, inChunk)
  {
    Address.DivModUnique(chunkSize, row, inChunk);
  }

  /** Every offset is row, device and position in a chunk. */
  lemma Decompose(devices: nat, chunkSize: nat, offset: nat) returns (row: nat, device: nat, inChunk: nat)
    requires devices > 0 && chunkSize > 0
    ensures device < devices && inChunk < chunkSize && inChunk == offset % chunkSize
    ensures offset == OffsetOf(devices, chunkSize, row, device, inChunk)
  {
    var chunk := offset / chunkSize;
    row, device, inChunk := chunk / devices, chunk % devices, offset % chunkSize;
    Address.DivModSplit(chunkSize, offset);
    Address.DivModSplit(devices, chunk);
  }

  /** And every position on a device is chunk row and position in the chunk. */
  lemma DecomposePlace(chunkSize: nat, p: Place) returns (row: nat, inChunk: nat)
    requires chunkSize > 0
    ensures inChunk < chunkSize && p.offset == InChunk(row, chunkSize, inChunk)
  {
    row, inChunk := p.offset / chunkSize, p.offset % chunkSize;
    Address.DivModSplit(chunkSize, p.offset);
  }

  /** Striping is a bijection between offsets and places on the devices. */
  lemma CalcBijective(devices: nat, chunkSize: nat, offset: nat, p: Place)
    requires devices > 0 && chunkSize > 0 && p.device < devices
    ensures Calc(devices, chunkSize, offset).device < devices
    ensures Logical(devices, chunkSize, Calc(devices, chunkSize, offset)) == offset
    ensures Calc(devices, chunkSize, Logical(devices, chunkSize, p)) == p
  {
    hide Calc, Logical, InChunk, OffsetOf;
    var row, device, inChunk := Decompose(devices, chunkSize, offset);
    CalcSplit(devices, chunkSize, row, device, inChunk);
    LogicalSplit(devices, chunkSize, row, device, inChunk);
    var r, i := DecomposePlace(chunkSize, p);
    CalcSplit(devices, chunkSize, r, p.device, i);
    LogicalSplit(devices, chunkSize, r, p.device, i);
  }

  /** Where byte `k` of a request at `addr` goes. */
  function ByteOf(devices: nat, chunkSize: nat, addr: nat, k: nat): (p: Place)
    requires devices > 0 && chunkSize > 0
  {
    Calc(devices, chunkSize, addr + k)
  }

  /** Place `p`, `k` bytes further on. */
  function Shift(p: Place, k: nat): (r: Place)
  {
    Place(p.device, p.offset + k)
  }

  /** The request occupies one range of one device. */
  ghost predicate OneRange(devices: nat, chunkSize: nat, addr: nat, len: nat)
    requires devices > 0 && chunkSize > 0
  {
    forall k :: 0 <= k < len ==> ByteOf(devices, chunkSize, addr, k) == Shift(Calc(devices, chunkSize, addr), k)
  }

  lemma InsideChunk(devices: nat, chunkSize: nat, addr: nat, k: nat)
    requires devices > 0 && chunkSize > 0 && addr % chunkSize + k < chunkSize
    ensures ByteOf(devices, chunkSize, addr, k) == Shift(Calc(devices, chunkSize, addr), k)
  {
    hide Calc;
    var row, device, inChunk := Decompose(devices, chunkSize, addr);
    CalcSplit(devices, chunkSize, row, device, inChunk);
    CalcSplit(devices, chunkSize, row, device, inChunk + k);
  }

  /** With one device striping is the identity. */
  lemma OneDevice(chunkSize: nat, offset: nat)
    requires chunkSize > 0
    ensures Calc(1, chunkSize, offset) == Place(0, offset)
  {
    Address.DivModSplit(chunkSize, offset);
  }

  /** The next chunk is the same row of the next device, or the next row of the first. */
  lemma NextOffset(devices: nat, chunkSize: nat, row: nat, device: nat, inChunk: nat)
    requires device < devices && inChunk < chunkSize
    ensures OffsetOf(devices, chunkSize, row, device, inChunk) + (chunkSize - inChunk) ==
      if device + 1 < devices then OffsetOf(devices, chunkSize, row, device + 1, 0)
      else OffsetOf(devices, chunkSize, row + 1, 0, 0)
  {
    var c := InChunk(row, devices, device);
    assert (c + 1) * chunkSize == c * chunkSize + chunkSize;
    assert (row + 1) * devices == row * devices + devices;
  }

  /** The first byte of the next chunk lies on another device. */
  lemma NextChunk(devices: nat, chunkSize: nat, addr: nat)
    requires devices > 1 && chunkSize > 0
    ensures Calc(devices, chunkSize, addr + (chunkSize - addr % chunkSize)).device != Calc(devices, chunkSize, addr).device
  {
    hide Calc, InChunk, OffsetOf;
    var row, device, inChunk := Decompose(devices, chunkSize, addr);
    NextOffset(devices, chunkSize, row, device, inChunk);
    CalcSplit(devices, chunkSize, row, device, inChunk);
    if device + 1 < devices {
      CalcSplit(devices, chunkSize, row, device + 1, 0);
    } else {
      CalcSplit(devices, chunkSize, row + 1, 0, 0);
    }
  }

  /** A request maps to one range of one device exactly when there is only one device
      or the request stays inside a chunk. */
  lemma OneRangeIff(devices: nat, chunkSize: nat, addr: nat, len: nat)
    requires devices > 0 && chunkSize > 0 && len > 0
    ensures OneRange(devices, chunkSize, addr, len) <==> devices == 1 || addr % chunkSize + len <= chunkSize
  {
    hide Calc;
    if devices == 1 {
      forall k: nat | k < len
        ensures ByteOf(1, chunkSize, addr, k) == Shift(Calc(1, chunkSize, addr), k)
      {
        OneDevice(chunkSize, addr);
        OneDevice(chunkSize, addr + k);
      }
    } else if addr % chunkSize + len <= chunkSize {
      forall k: nat | k < len
        ensures ByteOf(devices, chunkSize, addr, k) == Shift(Calc(devices, chunkSize, addr), k)
      {
        InsideChunk(devices, chunkSize, addr, k);
      }
    } else {
      NextChunk(devices, chunkSize, addr);
      var k := chunkSize - addr % chunkSize;
      assert 0 <= k < len && ByteOf(devices, chunkSize, addr, k) != Shift(Calc(devices, chunkSize, addr), k);
    }
  }

  /** Aligned requests whose length divides the chunk size never cross a chunk. */
  lemma AlignedInside(chunkSize: nat, addr: nat, len: nat)
    requires len > 0 && chunkSize > 0 && chunkSize % len == 0 && addr % len == 0
    ensures addr % chunkSize + len <= chunkSize
  {
    var m, a := chunkSize / len, addr / len;
    Address.DivModSplit(len, chunkSize);
    Address.DivModSplit(len, addr);
    assert m > 0;
    var q, r := a / m, a % m;
    Address.DivModSplit(m, a);
    assert addr == q * chunkSize + r * len by {
      assert (q * m + r) * len == q * m * len + r * len;
      assert q * m * len == q * (m * len);
    }
    Address.MulMono(r + 1, m, len);
    assert (r + 1) * len == r * len + len;
    Address.DivModUnique(chunkSize, q, r * len);
  }

  /** Aligned requests map to one range each, and disjoint requests to disjoint
      ranges. */
  lemma AlignedRequestsDisjoint(devices: nat, chunkSize: nat, addr1: nat, addr2: nat, len: nat, j: nat, k: nat)
    requires devices > 0 && chunkSize > 0 && len > 0 && chunkSize % len == 0
    requires addr1 % len == 0 && addr2 % len == 0
    requires addr1 + len <= addr2 || addr2 + len <= addr1
    requires j < len && k < len
    ensures OneRange(devices, chunkSize, addr1, len) && OneRange(devices, chunkSize, addr2, len)
    ensures Shift(Calc(devices, chunkSize, addr1), j) != Shift(Calc(devices, chunkSize, addr2), k)
  {
    hide Calc, Logical;
    AlignedInside(chunkSize, addr1, len);
    AlignedInside(chunkSize, addr2, len);
    OneRangeIff(devices, chunkSize, addr1, len);
    OneRangeIff(devices, chunkSize, addr2, len);
    BytesApart(devices, chunkSize, addr1, j, addr2, k);
    assert ByteOf(devices, chunkSize, addr1, j) == Shift(Calc(devices, chunkSize, addr1), j);
    assert ByteOf(devices, chunkSize, addr2, k) == Shift(Calc(devices, chunkSize, addr2), k);
  }

  lemma BytesApart(devices: nat, chunkSize: nat, addr1: nat, j: nat, addr2: nat, k: nat)
    requires devices > 0 && chunkSize > 0 && addr1 + j != addr2 + k
    ensures ByteOf(devices, chunkSize, addr1, j) != ByteOf(devices, chunkSize, addr2, k)
  {
    hide Calc, Logical;
    CalcBijective(devices, chunkSize, addr1 + j, Place(0, 0));
    CalcBijective(devices, chunkSize, addr2 + k, Place(0, 0));
  }
}
