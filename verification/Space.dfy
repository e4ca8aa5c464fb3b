/** The free space of the device, kept twice in the tree it makes room for. */
module Space {
  import opened Keys
  import opened BTree
  import opened IbTransaction
  import opened Location
  import opened Tiling

  const LIMIT := 0x1000_0000_0000_0000   // 2 to the 60

  const SIZE_TAG: Byte := 115     // 's'
  const OFFSET_TAG: Byte := 111   // 'o'

  type Contents = map<Key, Value>

  datatype OpEntry = OpEntry(location: LocationEntry, free: bool)

  function SizeKey(e: LocationEntry): Key {
    AddTreePrefix([SIZE_TAG], ToKeySO(e))
  }

  function OffsetKey(e: LocationEntry): Key {
    AddTreePrefix([OFFSET_TAG], ToKeyOS(e))
  }

  function AddFreeTree(t: Contents, e: LocationEntry): Contents {
    t[SizeKey(e) := []][OffsetKey(e) := []]
  }

  function RemoveFreeTree(t: Contents, e: LocationEntry): Contents {
    t - {SizeKey(e)} - {OffsetKey(e)}
  }

  // ----- the two indexes

  ghost function Tagged(t: Contents, tag: Byte): set<Key> {
    set k | k in t && k != [] && k[0] == tag
  }

  ghost function SizeKeys(f: set<LocationEntry>): set<Key> {
    set e | e in f :: SizeKey(e)
  }

  ghost function OffsetKeys(f: set<LocationEntry>): set<Key> {
    set e | e in f :: OffsetKey(e)
  }

  predicate Whole(e: LocationEntry) {
    Fits64(e) && Rounded(e) == e
  }

  /** Both indexes hold exactly the free places. */
  ghost predicate Indexed(t: Contents, f: set<LocationEntry>) {
    && Tagged(t, SIZE_TAG) == SizeKeys(f)
    && Tagged(t, OFFSET_TAG) == OffsetKeys(f)
    && forall e :: e in f ==> Whole(e)
  }

  lemma RoundedKeys(e: LocationEntry)
    requires Fits64(e)
    ensures Whole(Rounded(e)) && SizeKey(Rounded(e)) == SizeKey(e) && OffsetKey(Rounded(e)) == OffsetKey(e)
  {
  }

  lemma SameKeys(a: LocationEntry, b: LocationEntry)
    requires Whole(a) && Whole(b)
    ensures SizeKey(a) == SizeKey(b) <==> a == b
    ensures OffsetKey(a) == OffsetKey(b) <==> a == b
  {
    KeyOrder(a, b);
    assert SizeKey(a)[1..] == ToKeySO(a) && SizeKey(b)[1..] == ToKeySO(b);
    assert OffsetKey(a)[1..] == ToKeyOS(a) && OffsetKey(b)[1..] == ToKeyOS(b);
  }

  lemma AddIndexed(t: Contents, f: set<LocationEntry>, e: LocationEntry)
    requires Indexed(t, f) && Fits64(e)
    ensures Indexed(AddFreeTree(t, e), f + {Rounded(e)})
  {
    hide Fits64, ToKeySO, ToKeyOS;
    var t', f', x := AddFreeTree(t, e), f + {Rounded(e)}, Rounded(e);
    RoundedKeys(e);
    assert SizeKeys(f') == SizeKeys(f) + {SizeKey(x)};
    assert OffsetKeys(f') == OffsetKeys(f) + {OffsetKey(x)};
    assert Tagged(t', SIZE_TAG) == Tagged(t, SIZE_TAG) + {SizeKey(x)};
    assert Tagged(t', OFFSET_TAG) == Tagged(t, OFFSET_TAG) + {OffsetKey(x)};
  }

  lemma RemoveIndexed(t: Contents, f: set<LocationEntry>, e: LocationEntry)
    requires Indexed(t, f) && Fits64(e)
    ensures Indexed(RemoveFreeTree(t, e), f - {Rounded(e)})
  {
    hide Fits64, ToKeySO, ToKeyOS;
    var t', f', x := RemoveFreeTree(t, e), f - {Rounded(e)}, Rounded(e);
    RoundedKeys(e);
    forall y | y in f ensures (SizeKey(y) == SizeKey(x) <==> y == x) && (OffsetKey(y) == OffsetKey(x) <==> y == x) {
      SameKeys(x, y);
    }
    assert SizeKeys(f') == SizeKeys(f) - {SizeKey(x)};
    assert OffsetKeys(f') == OffsetKeys(f) - {OffsetKey(x)};
    assert Tagged(t', SIZE_TAG) == Tagged(t, SIZE_TAG) - {SizeKey(x)};
    assert Tagged(t', OFFSET_TAG) == Tagged(t, OFFSET_TAG) - {OffsetKey(x)};
  }

  lemma InIndex(t: Contents, f: set<LocationEntry>, e: LocationEntry)
    requires Indexed(t, f) && Whole(e)
    ensures e in f <==> SizeKey(e) in t
    ensures e in f <==> OffsetKey(e) in t
  {
    hide Fits64, ToKeySO, ToKeyOS;
    assert SizeKey(e) in t <==> SizeKey(e) in Tagged(t, SIZE_TAG);
    assert OffsetKey(e) in t <==> OffsetKey(e) in Tagged(t, OFFSET_TAG);
    if SizeKey(e) in t {
      var y :| y in f && SizeKey(y) == SizeKey(e);
      SameKeys(e, y);
    }
    if OffsetKey(e) in t {
      var y :| y in f && OffsetKey(y) == OffsetKey(e);
      SameKeys(e, y);
    }
  }

  // ----- the log

  function Apply(t: Contents, op: OpEntry): Contents {
    if op.free then AddFreeTree(t, op.location) else RemoveFreeTree(t, op.location)
  }

  function Replay(t: Contents, ops: seq<OpEntry>): Contents {
    if ops == [] then t else Apply(Replay(t, ops[..|ops| - 1]), ops[|ops| - 1])
  }

  lemma ReplayNext(t: Contents, ops: seq<OpEntry>, op: OpEntry)
    ensures Replay(t, ops + [op]) == Apply(Replay(t, ops), op)
  {
    assert (ops + [op])[..|ops|] == ops;
  }

  /** Both keys of the place are there to be deleted. */
  predicate Removable(t: Contents, e: LocationEntry) {
    SizeKey(e) in t && OffsetKey(e) in t
  }

  /** Every logged removal finds its keys when its turn comes. */
  ghost predicate Replayable(t: Contents, ops: seq<OpEntry>) {
    ops == [] || (var front, op := ops[..|ops| - 1], ops[|ops| - 1];
                  Replayable(t, front) && (op.free || Removable(Replay(t, front), op.location)))
  }

  lemma ReplayableNext(t: Contents, ops: seq<OpEntry>, op: OpEntry)
    ensures Replayable(t, ops + [op]) <==> Replayable(t, ops) && (op.free || Removable(Replay(t, ops), op.location))
  {
    assert (ops + [op])[..|ops|] == ops;
  }

  /** What can be replayed can be replayed in part. */
  lemma {:induction false} ReplayablePart(t: Contents, ops: seq<OpEntry>, n: nat)
    requires Replayable(t, ops) && n < |ops|
    ensures Replayable(t, ops[..n]) && (ops[n].free || Removable(Replay(t, ops[..n]), ops[n].location))
    decreases |ops|
  {
    if n < |ops| - 1 {
      ReplayablePart(t, ops[..|ops| - 1], n);
      assert ops[..|ops| - 1][..n] == ops[..n];
    }
  }

  ghost predicate InIndexes(k: Key) {
    k != [] && (k[0] == SIZE_TAG || k[0] == OFFSET_TAG)
  }

  /** Only the indexes of free places may differ. */
  ghost predicate SameOther(t: Contents, t': Contents) {
    forall k :: !InIndexes(k) ==> (k in t' <==> k in t) && (k in t ==> t'[k] == t[k])
  }

  lemma AddSameOther(t: Contents, e: LocationEntry)
    ensures SameOther(t, AddFreeTree(t, e)) && SameOther(t, RemoveFreeTree(t, e))
  {
  }

  lemma SameOtherTrans(t: Contents, t1: Contents, t2: Contents)
    requires SameOther(t, t1) && SameOther(t1, t2)
    ensures SameOther(t, t2)
  {
    forall k | !InIndexes(k) ensures (k in t2 <==> k in t) && (k in t ==> t2[k] == t[k]) {
      assert k in t1 <==> k in t;
    }
  }

  // ----- finding room

  /** The smallest place that is large enough, the first one if there are more. */
  ghost predicate BestFit(f: set<LocationEntry>, size: nat, e: LocationEntry) {
    && e in f && e.size >= size
    && forall x :: x in f && x.size >= size ==> x == e || Smaller(e, x)
  }

  ghost predicate NoFit(f: set<LocationEntry>, size: nat) {
    forall x :: x in f ==> x.size < size
  }

  lemma AboveWanted(size: nat, e: LocationEntry)
    requires Whole(e) && e.offset > 0 && Fits64(LocationEntry(0, size))
    ensures Less(ToKeySO(LocationEntry(0, size)), ToKeySO(e)) <==> e.size >= BlockSize(LocationEntry(0, size))
  {
    KeyOrder(LocationEntry(0, size), e);
  }

  /** The next key after that of a place of this size at offset 0, where no free
      place is, is that of the best fit. */
  lemma NextIsBestFit(t: Contents, f: set<LocationEntry>, size: nat, r: Option<Key>)
    requires Indexed(t, f) && Fits64(LocationEntry(0, size)) && (forall e :: e in f ==> e.offset > 0)
    requires IsNextIn(t, [SIZE_TAG], ToKeySO(LocationEntry(0, size)), r)
    ensures r.None? ==> NoFit(f, BlockSize(LocationEntry(0, size)))
    ensures r.Some? ==> |r.value| == 16 && BestFit(f, BlockSize(LocationEntry(0, size)), FromKeySO(r.value))
  {
    hide Fits64, ToKeySO, ToKeyOS, BlockSize;
    var want := LocationEntry(0, size);
    forall x | x in f ensures AddTreePrefix([SIZE_TAG], ToKeySO(x)) in t {
      InIndex(t, f, x);
    }
    if r.None? {
      forall x | x in f ensures x.size < BlockSize(want) {
        AboveWanted(size, x);
      }
    } else {
      var e := NextIsFree(t, f, r.value);
      AboveWanted(size, e);
      forall x | x in f && x.size >= BlockSize(want) ensures x == e || Smaller(e, x) {
        AboveWanted(size, x);
        KeyOrder(e, x);
        LessTotal(ToKeySO(e), ToKeySO(x));
      }
    }
  }

  lemma NextIsFree(t: Contents, f: set<LocationEntry>, k: Key) returns (e: LocationEntry)
    requires Indexed(t, f) && AddTreePrefix([SIZE_TAG], k) in t
    ensures e in f && k == ToKeySO(e) && FromKeySO(k) == e
  {
    var s := AddTreePrefix([SIZE_TAG], k);
    assert s in Tagged(t, SIZE_TAG);
    e :| e in f && SizeKey(e) == s;
    assert k == s[1..] == SizeKey(e)[1..] == ToKeySO(e);
    KeyRoundTrip(e);
  }

  // ----- how far the device grows

  /** Bytes still wanted beyond the gap that is being filled. */
  ghost function Excess(n: nat, asize: nat): nat
    requires n > 0
  {
    var gap := 15 * SuperBlockOffset(n - 1);
    if asize + SUPERBLOCK_SIZE + 1 <= gap then 0 else asize + SUPERBLOCK_SIZE + 1 - gap
  }

  /** Whether the device ends right behind its last superblock. */
  ghost predicate JustBehind(total: nat, n: nat) {
    n > 0 && total == SuperBlockOffset(n - 1) + SUPERBLOCK_SIZE
  }

  /** Beyond each superblock the next gap is 16 times as long, so that at some
      point the wanted bytes fit into it. */
  lemma ExcessFalls(n: nat, asize: nat)
    requires n > 0 && SuperBlockOffset(n - 1) + SUPERBLOCK_SIZE + asize >= SuperBlockOffset(n)
    ensures Excess(n + 1, asize) < Excess(n, asize)
  {
    SuperBlockGap(n - 1);
  }

  ghost function GrownTotal(total: nat, n: nat, asize: nat): nat
    decreases !JustBehind(total, n), if JustBehind(total, n) then Excess(n, asize) else 0
  {
    if n > 0 && total + asize < SuperBlockOffset(n) then total + asize
    else
      assert JustBehind(total, n) ==> Excess(n + 1, asize) < Excess(n, asize) by {
        if JustBehind(total, n) {
          ExcessFalls(n, asize);
        }
      }
      GrownTotal(SuperBlockOffset(n) + SUPERBLOCK_SIZE, n + 1, asize)
  }
}
