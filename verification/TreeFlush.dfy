/** What the nodes and blocks of the tree backend take up on the device. */
module TreeFlush {
  import opened Keys
  import opened BTree
  import opened CommitTo
  import opened Location
  import opened Tiling
  import opened Space
  import opened Purge

  const NODE_SIZE := 0x1000
  const BLOCK_TAG: Byte := 98   // 'b'

  type Id = Bytes

  datatype Meta = Meta(refCount: int, status: int)

  datatype BlockData = BlockData(meta: Meta, location: LocationSlice)

  datatype Superblock = Superblock(
    generation: nat,
    bytesUsed: int,
    bytesTotal: nat,
    rootId: Option<BlockId>,
    pending: seq<OpEntry>)

  // ----- nodes

  /** The id of a node says where it is. */
  predicate IsNodeId(id: BlockId) {
    |id| == 16 && Whole(FromKeySO(id)) && ToKeySO(FromKeySO(id)) == id
  }

  function Place(id: BlockId): LocationEntry
    requires IsNodeId(id)
  {
    FromKeySO(id)
  }

  ghost function Places(ids: set<BlockId>): set<LocationEntry>
    requires forall id :: id in ids ==> IsNodeId(id)
  {
    set id | id in ids :: Place(id)
  }

  lemma PlaceOnce(a: BlockId, b: BlockId)
    requires IsNodeId(a) && IsNodeId(b) && Place(a) == Place(b)
    ensures a == b
  {
  }

  lemma PlacesMinus(a: set<BlockId>, b: set<BlockId>)
    requires forall id :: id in a ==> IsNodeId(id)
    requires b <= a
    ensures Places(a - b) == Places(a) - Places(b)
  {
    forall id, x | id in a - b && x in b ensures Place(id) != Place(x) {
      if Place(id) == Place(x) {
        PlaceOnce(id, x);
      }
    }
  }

  /** The id of a place that has been allocated. */
  lemma NewNodeId(e: LocationEntry)
    requires Fits64(e)
    ensures IsNodeId(ToKeySO(e)) && Place(ToKeySO(e)) == Rounded(e) && ToBlockId([e]) == ToKeySO(e)
    ensures FromBlockId(ToKeySO(e)) == [Rounded(e)]
  {
    KeyRoundTrip(e);
    RoundedKeys(e);
    BlockIdRoundTrip([e]);
    assert ToKeySO(Rounded(e)) == ToKeySO(e);
    assert ToBlockId([e]) == ToKeySO(e) + [];
  }

  lemma NodeIdPlace(id: BlockId)
    requires IsNodeId(id)
    ensures |id| == 16 && FromBlockId(id) == [Place(id)] && Fits64(Place(id)) && Rounded(Place(id)) == Place(id)
  {
    assert id[..16] == id && id[16..] == [];
  }

  // ----- blocks

  function BlockKey(id: Id): Key {
    [BLOCK_TAG] + id
  }

  ghost predicate Codec(encode: BlockData -> Value, decode: Value -> BlockData) {
    forall b :: decode(encode(b)) == b
  }

  /** The transaction holds exactly these blocks. */
  ghost predicate Holds(t: Contents, encode: BlockData -> Value, data: map<Id, BlockData>) {
    forall id :: (BlockKey(id) in t <==> id in data) && (id in data ==> t[BlockKey(id)] == encode(data[id]))
  }

  lemma HoldsKept(t: Contents, t': Contents, encode: BlockData -> Value, data: map<Id, BlockData>)
    requires Holds(t, encode, data) && SameOther(t, t')
    ensures Holds(t', encode, data)
  {
    forall id ensures (BlockKey(id) in t' <==> id in data) && (id in data ==> t'[BlockKey(id)] == encode(data[id])) {
      assert !InIndexes(BlockKey(id));
    }
  }

  lemma HoldsSet(t: Contents, encode: BlockData -> Value, data: map<Id, BlockData>, id: Id, b: BlockData)
    requires Holds(t, encode, data)
    ensures Holds(t[BlockKey(id) := encode(b)], encode, data[id := b])
    ensures Holds(t - {BlockKey(id)}, encode, data - {id})
  {
    hide BlockKey;
    forall x ensures BlockKey(x) == BlockKey(id) <==> x == id {
      BlockKeyOnce(x, id);
    }
  }

  lemma BlockKeyOnce(x: Id, y: Id)
    ensures BlockKey(x) == BlockKey(y) <==> x == y
  {
    assert BlockKey(x)[1..] == x && BlockKey(y)[1..] == y;
  }

  /** Each block has at most one place, and each place one block. */
  ghost predicate DataOk(data: map<Id, BlockData>) {
    && (forall id :: id in data ==> |data[id].location| <= 1 && forall e :: e in data[id].location ==> Fits64(e))
    && (forall x, y :: x in data && y in data && x != y && data[x].location != [] && data[y].location != [] ==>
          Rounded(data[x].location[0]) != Rounded(data[y].location[0]))
  }

  ghost function DataPlaces(data: map<Id, BlockData>): set<LocationEntry> {
    set id | id in data && data[id].location != [] :: Rounded(data[id].location[0])
  }

  lemma DataAdd(data: map<Id, BlockData>, id: Id, b: BlockData)
    requires DataOk(data) && id !in data && |b.location| <= 1
    requires b.location != [] ==> Fits64(b.location[0]) && Rounded(b.location[0]) !in DataPlaces(data)
    ensures DataOk(data[id := b])
    ensures DataPlaces(data[id := b]) == DataPlaces(data) + if b.location == [] then {} else {Rounded(b.location[0])}
  {
    hide Fits64, Rounded;
    var data' := data[id := b];
    forall x | x in data && data[x].location != [] ensures Rounded(data[x].location[0]) in DataPlaces(data) {
    }
    assert forall x :: x in data ==> data'[x] == data[x];
    if b.location == [] {
      assert DataPlaces(data') == DataPlaces(data);
    } else {
      forall e ensures e in DataPlaces(data') <==> e in DataPlaces(data) + {Rounded(b.location[0])} {
        if e in DataPlaces(data) {
          var x :| x in data && data[x].location != [] && e == Rounded(data[x].location[0]);
          assert x in data' && data'[x].location != [] && e == Rounded(data'[x].location[0]);
        }
        assert id in data' && data'[id].location != [] && Rounded(data'[id].location[0]) == Rounded(b.location[0]);
      }
    }
  }

  lemma DataRemove(data: map<Id, BlockData>, id: Id)
    requires DataOk(data) && id in data
    ensures DataOk(data - {id})
    ensures DataPlaces(data - {id}) == DataPlaces(data) - if data[id].location == [] then {} else {Rounded(data[id].location[0])}
    ensures data[id].location != [] ==> Rounded(data[id].location[0]) in DataPlaces(data)
  {
    hide Fits64, Rounded;
    var data' := data - {id};
    assert forall x :: x in data' ==> data'[x] == data[x];
    if data[id].location == [] {
      assert DataPlaces(data') == DataPlaces(data);
    } else {
      assert DataPlaces(data') == DataPlaces(data) - {Rounded(data[id].location[0])};
    }
  }

  lemma DataUpdate(data: map<Id, BlockData>, id: Id, m: Meta)
    requires DataOk(data) && id in data
    ensures DataOk(data[id := data[id].(meta := m)]) && DataPlaces(data[id := data[id].(meta := m)]) == DataPlaces(data)
  {
    hide Fits64, Rounded;
    var data' := data[id := data[id].(meta := m)];
    assert forall x :: x in data ==> data'[x].location == data[x].location;
  }
}
