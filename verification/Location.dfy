/** Places on the device and the keys they are indexed by. */
module Location {
  import opened Keys

  const BLOCK_SIZE := 512
  const UINT64 := 0x1_0000_0000_0000_0000

  datatype LocationEntry = LocationEntry(offset: nat, size: nat)

  type LocationSlice = seq<LocationEntry>

  function BlockSize(e: LocationEntry): (r: nat)
    ensures e.size <= r < e.size + BLOCK_SIZE && r % BLOCK_SIZE == 0
  {
    if e.size % BLOCK_SIZE != 0 then e.size + (BLOCK_SIZE - e.size % BLOCK_SIZE) else e.size
  }

  /** What a place takes up: it is given away in whole blocks. */
  function Rounded(e: LocationEntry): LocationEntry {
    LocationEntry(e.offset, BlockSize(e))
  }

  // ----- numbers as bytes, most significant first

  function BigEndian(n: nat, w: nat): (r: Bytes)
    ensures |r| == w
  {
    if w == 0 then [] else BigEndian(n / 256, w - 1) + [n % 256]
  }

  function FromBigEndian(b: Bytes): nat {
    if b == [] then 0 else 256 * FromBigEndian(b[..|b| - 1]) + b[|b| - 1]
  }

  function Bound(w: nat): nat {
    if w == 0 then 1 else 256 * Bound(w - 1)
  }

  lemma BoundEight()
    ensures Bound(8) == UINT64
  {
    assert Bound(4) == 256 * 256 * 256 * 256;
  }

  lemma {:induction false} BigEndianRoundTrip(n: nat, w: nat)
    requires n < Bound(w)
    ensures FromBigEndian(BigEndian(n, w)) == n
  {
    if w > 0 {
      BigEndianRoundTrip(n / 256, w - 1);
      var b := BigEndian(n, w);
      assert b[..|b| - 1] == BigEndian(n / 256, w - 1);
    }
  }

  lemma {:induction false} FromBigEndianRoundTrip(b: Bytes)
    ensures FromBigEndian(b) < Bound(|b|)
    ensures BigEndian(FromBigEndian(b), |b|) == b
  {
    if b != [] {
      FromBigEndianRoundTrip(b[..|b| - 1]);
      assert b == b[..|b| - 1] + [b[|b| - 1]];
    }
  }

  /** Of two keys that start with parts of equal length, these decide first. */
  lemma {:induction false} LessConcat(a: Key, x: Key, b: Key, y: Key)
    requires |a| == |b|
    ensures Less(a + x, b + y) <==> Less(a, b) || (a == b && Less(x, y))
  {
    if a == [] {
      assert a + x == x && b + y == y;
    } else {
      assert (a + x)[1..] == a[1..] + x && (b + y)[1..] == b[1..] + y;
      LessConcat(a[1..], x, b[1..], y);
      assert a == [a[0]] + a[1..] && b == [b[0]] + b[1..];
    }
  }

  /** Big-endian keys compare as the numbers do. */
  lemma {:induction false} BigEndianOrder(m: nat, n: nat, w: nat)
    requires m < Bound(w) && n < Bound(w)
    ensures Less(BigEndian(m, w), BigEndian(n, w)) <==> m < n
    ensures BigEndian(m, w) == BigEndian(n, w) <==> m == n
  {
    BigEndianRoundTrip(m, w);
    BigEndianRoundTrip(n, w);
    if w > 0 {
      BigEndianOrder(m / 256, n / 256, w - 1);
      LessConcat(BigEndian(m / 256, w - 1), [m % 256], BigEndian(n / 256, w - 1), [n % 256]);
    }
  }

  // ----- index keys

  function Uint64Bytes(n: nat): (r: Bytes)
    ensures |r| == 8
  {
    BigEndian(n, 8)
  }

  function ToKeySO(e: LocationEntry): (r: Key)
    ensures |r| == 16
  {
    Uint64Bytes(BlockSize(e)) + Uint64Bytes(e.offset)
  }

  function ToKeyOS(e: LocationEntry): (r: Key)
    ensures |r| == 16
  {
    Uint64Bytes(e.offset) + Uint64Bytes(BlockSize(e))
  }

  function FromKeySO(k: Key): LocationEntry
    requires |k| == 16
  {
    LocationEntry(FromBigEndian(k[8..]), FromBigEndian(k[..8]))
  }

  /** Both numbers fit the width of the keys. */
  predicate Fits64(e: LocationEntry) {
    e.offset < UINT64 && BlockSize(e) < UINT64
  }

  /** A key gives back the place it was made from, in whole blocks. */
  lemma KeyRoundTrip(e: LocationEntry)
    requires Fits64(e)
    ensures FromKeySO(ToKeySO(e)) == Rounded(e)
  {
    BoundEight();
    var k := ToKeySO(e);
    assert k[..8] == Uint64Bytes(BlockSize(e)) && k[8..] == Uint64Bytes(e.offset);
    BigEndianRoundTrip(BlockSize(e), 8);
    BigEndianRoundTrip(e.offset, 8);
  }

  /** Places in order of size, and of offset for the same size. */
  predicate Smaller(a: LocationEntry, b: LocationEntry) {
    BlockSize(a) < BlockSize(b) || (BlockSize(a) == BlockSize(b) && a.offset < b.offset)
  }

  /** The order of size keys is that of sizes, then offsets. */
  lemma KeyOrder(a: LocationEntry, b: LocationEntry)
    requires Fits64(a) && Fits64(b)
    ensures Less(ToKeySO(a), ToKeySO(b)) <==> Smaller(a, b)
    ensures ToKeySO(a) == ToKeySO(b) <==> Rounded(a) == Rounded(b)
    ensures ToKeyOS(a) == ToKeyOS(b) <==> Rounded(a) == Rounded(b)
  {
    BoundEight();
    BigEndianOrder(BlockSize(a), BlockSize(b), 8);
    BigEndianOrder(a.offset, b.offset, 8);
    LessConcat(Uint64Bytes(BlockSize(a)), Uint64Bytes(a.offset), Uint64Bytes(BlockSize(b)), Uint64Bytes(b.offset));
    assert ToKeySO(a)[..8] == Uint64Bytes(BlockSize(a)) && ToKeySO(a)[8..] == Uint64Bytes(a.offset);
    assert ToKeySO(b)[..8] == Uint64Bytes(BlockSize(b)) && ToKeySO(b)[8..] == Uint64Bytes(b.offset);
    assert ToKeyOS(a)[..8] == Uint64Bytes(a.offset) && ToKeyOS(a)[8..] == Uint64Bytes(BlockSize(a));
    assert ToKeyOS(b)[..8] == Uint64Bytes(b.offset) && ToKeyOS(b)[8..] == Uint64Bytes(BlockSize(b));
  }

  // ----- block ids of tree nodes

  function ToBlockId(ls: LocationSlice): (r: Bytes)
    ensures |r| == 16 * |ls|
  {
    if ls == [] then [] else ToKeySO(ls[0]) + ToBlockId(ls[1..])
  }

  function FromBlockId(id: Bytes): LocationSlice
    requires |id| % 16 == 0
  {
    if id == [] then [] else [FromKeySO(id[..16])] + FromBlockId(id[16..])
  }

  /** A block id gives back the places it was made from, in whole blocks. */
  lemma {:induction false} BlockIdRoundTrip(ls: LocationSlice)
    requires forall i :: 0 <= i < |ls| ==> Fits64(ls[i])
    ensures FromBlockId(ToBlockId(ls)) == seq(|ls|, i requires 0 <= i < |ls| => Rounded(ls[i]))
  {
    if ls != [] {
      KeyRoundTrip(ls[0]);
      BlockIdRoundTrip(ls[1..]);
      assert ToBlockId(ls)[..16] == ToKeySO(ls[0]) && ToBlockId(ls)[16..] == ToBlockId(ls[1..]);
    }
  }
}
