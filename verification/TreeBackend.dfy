/** The storage backend that keeps its index in a tree on the device itself. */
module TreeBackend {
  import opened Keys
  import opened BTree
  import opened IbTransaction
  import opened Location
  import opened Tiling
  import opened Space
  import opened CommitTo
  import IbStack
  import opened Purge
  import opened TreeFlush

  /** Free places, places in use and superblocks divide up the device. */
  ghost predicate Divided(free: set<LocationEntry>, used: set<LocationEntry>, supers: nat, total: nat) {
    && free !! used && free !! SuperBlocks(supers) && used !! SuperBlocks(supers)
    && Tiles(free + used + SuperBlocks(supers), total)
    && (forall e :: e in used ==> Whole(e))
    && (if total == 0 then supers == 0 else
        supers > 0 && SuperBlockOffset(supers - 1) + SUPERBLOCK_SIZE <= total < SuperBlockOffset(supers))
    && total % BLOCK_SIZE == 0 && total < LIMIT
  }

  lemma FreeNotAtZero(free: set<LocationEntry>, used: set<LocationEntry>, supers: nat, total: nat)
    requires Divided(free, used, supers, total)
    ensures forall e :: e in free ==> e.offset > 0
  {
    if total > 0 {
      var s := LocationEntry(SuperBlockOffset(0), SUPERBLOCK_SIZE);
      assert s in SuperBlocks(supers);
      forall e | e in free ensures e.offset > 0 {
        assert Apart(s, e);
      }
    }
  }

  lemma WithinTotal(xs: set<LocationEntry>, total: nat, e: LocationEntry)
    requires Tiles(xs, total) && e in xs
    ensures 0 < e.size && e.offset + e.size <= total
  {
  }

  lemma WholeSize(e: LocationEntry)
    requires Whole(e)
    ensures e.size % BLOCK_SIZE == 0
  {
  }

  /** The front part of a free place is taken. */
  lemma DividedCut(free: set<LocationEntry>, used: set<LocationEntry>, supers: nat, total: nat, e: LocationEntry, n: nat)
    requires Divided(free, used, supers, total) && e in free && Whole(e) && 0 < n < e.size && n % BLOCK_SIZE == 0
    ensures var a, b := LocationEntry(e.offset, n), LocationEntry(e.offset + n, e.size - n);
            && a !in used && Whole(a) && Whole(b) && b !in free
            && Divided(free - {e} + {b}, used + {a}, supers, total)
            && TotalSize(free - {e} + {b}) == TotalSize(free) - n
  {
    hide Tiles, SuperBlocks, TotalSize, Whole, SuperBlockOffset;
    var a, b := LocationEntry(e.offset, n), LocationEntry(e.offset + n, e.size - n);
    var s := SuperBlocks(supers);
    var xs := free + used + s;
    WithinTotal(xs, total, e);
    WholeSize(e);
    WholeBlocks(a);
    WholeBlocks(b);
    TotalSizeSplit(free, e);
    TilesSplit(xs, total, e, n);
    CutSets(free, used, s, e, a, b);
    TotalSizeAdd(free - {e}, b);
  }

  lemma CutSets(free: set<LocationEntry>, used: set<LocationEntry>, s: set<LocationEntry>, e: LocationEntry,
                a: LocationEntry, b: LocationEntry)
    requires free !! used && free !! s && used !! s && e in free
    requires a !in free + used + s && b !in free + used + s && a != b
    ensures free + used + s - {e} + {a, b} == (free - {e} + {b}) + (used + {a}) + s
    ensures (free - {e} + {b}) !! (used + {a}) && (free - {e} + {b}) !! s && (used + {a}) !! s
  {
  }

  /** A free place is taken as a whole. */
  lemma DividedTake(free: set<LocationEntry>, used: set<LocationEntry>, supers: nat, total: nat, e: LocationEntry)
    requires Divided(free, used, supers, total) && e in free && Whole(e)
    ensures e !in used && Divided(free - {e}, used + {e}, supers, total)
    ensures TotalSize(free - {e}) == TotalSize(free) - e.size
  {
    hide Tiles, SuperBlocks, TotalSize, Whole, SuperBlockOffset;
    TotalSizeSplit(free, e);
    assert (free - {e}) + (used + {e}) + SuperBlocks(supers) == free + used + SuperBlocks(supers);
  }

  /** A place in use becomes free. */
  lemma DividedFree(free: set<LocationEntry>, used: set<LocationEntry>, supers: nat, total: nat, e: LocationEntry)
    requires Divided(free, used, supers, total) && e in used
    ensures Divided(free + {e}, used - {e}, supers, total) && e !in free
    ensures TotalSize(free + {e}) == TotalSize(free) + e.size
  {
    assert (free + {e}) + (used - {e}) + SuperBlocks(supers) == free + used + SuperBlocks(supers);
    TotalSizeAdd(free, e);
  }

  lemma WholeBlocks(e: LocationEntry)
    requires e.size % BLOCK_SIZE == 0 && e.offset + e.size < LIMIT
    ensures Whole(e)
  {
  }

  lemma FirstSuperBlock()
    ensures SuperBlockOffset(0) == 0
  {
  }

  /** The device grows within the gap behind its last superblock. */
  lemma DividedExtend(free: set<LocationEntry>, used: set<LocationEntry>, supers: nat, total: nat, n: nat)
    requires Divided(free, used, supers, total) && n > 0 && n % BLOCK_SIZE == 0
    requires supers > 0 && total + n < SuperBlockOffset(supers) && total + n < LIMIT
    ensures var e := LocationEntry(total, n);
            Whole(e) && e !in free && Divided(free + {e}, used, supers, total + n)
            && TotalSize(free + {e}) == TotalSize(free) + n
  {
    hide Tiles, SuperBlocks, TotalSize, Whole, SuperBlockOffset;
    var e := LocationEntry(total, n);
    var xs := free + used + SuperBlocks(supers);
    WholeBlocks(e);
    TilesAppend(xs, total, n);
    AddSets(free, used, SuperBlocks(supers), e);
    TotalSizeAdd(free, e);
    SumOfBlocks(total, n);
  }

  lemma SumOfBlocks(a: nat, b: nat)
    requires a % BLOCK_SIZE == 0 && b % BLOCK_SIZE == 0
    ensures (a + b) % BLOCK_SIZE == 0
  {
  }

  lemma AddSets(free: set<LocationEntry>, used: set<LocationEntry>, s: set<LocationEntry>, e: LocationEntry)
    requires free !! used && free !! s && used !! s && e !in free + used + s
    ensures free + used + s + {e} == (free + {e}) + used + s
    ensures e !in free && (free + {e}) !! used && (free + {e}) !! s
  {
  }

  /** The device grows up to the next superblock and beyond it. */
  lemma DividedSuperBlock(free: set<LocationEntry>, used: set<LocationEntry>, supers: nat, total: nat)
    requires Divided(free, used, supers, total) && SuperBlockOffset(supers) + SUPERBLOCK_SIZE < LIMIT
    ensures var e := LocationEntry(total, SuperBlockOffset(supers) - total);
            var f := if SuperBlockOffset(supers) > total then free + {e} else free;
            && total <= SuperBlockOffset(supers)
            && Divided(f, used, supers + 1, SuperBlockOffset(supers) + SUPERBLOCK_SIZE)
            && (SuperBlockOffset(supers) > total ==> Whole(e) && e !in free)
            && TotalSize(f) == TotalSize(free) + SuperBlockOffset(supers) - total
  {
    hide Tiles, SuperBlocks, TotalSize, Whole, SuperBlockOffset;
    var ofs := SuperBlockOffset(supers);
    FirstSuperBlock();
    if ofs > total {
      GapBefore(free, used, supers, total);
      AddedSuperBlock(free + {LocationEntry(total, ofs - total)}, used, supers);
    } else {
      AddedSuperBlock(free, used, supers);
    }
  }

  lemma GapBefore(free: set<LocationEntry>, used: set<LocationEntry>, supers: nat, total: nat)
    requires Divided(free, used, supers, total) && SuperBlockOffset(supers) + SUPERBLOCK_SIZE < LIMIT
    requires SuperBlockOffset(supers) > total
    ensures var e := LocationEntry(total, SuperBlockOffset(supers) - total);
            var f := free + {e};
            && Whole(e) && e !in free && TotalSize(f) == TotalSize(free) + e.size
            && f !! used && f !! SuperBlocks(supers)
            && Tiles(f + used + SuperBlocks(supers), SuperBlockOffset(supers))
  {
    hide Tiles, SuperBlocks, TotalSize, Whole, SuperBlockOffset;
    var s := SuperBlocks(supers);
    var xs := free + used + s;
    var e := LocationEntry(total, SuperBlockOffset(supers) - total);
    WholeBlocks(e);
    TilesAppend(xs, total, e.size);
    AddSets(free, used, s, e);
    TotalSizeAdd(free, e);
  }

  lemma AddedSuperBlock(f: set<LocationEntry>, used: set<LocationEntry>, supers: nat)
    requires f !! used && f !! SuperBlocks(supers) && used !! SuperBlocks(supers)
    requires Tiles(f + used + SuperBlocks(supers), SuperBlockOffset(supers)) && forall e :: e in used ==> Whole(e)
    requires SuperBlockOffset(supers) + SUPERBLOCK_SIZE < LIMIT
    ensures Divided(f, used, supers + 1, SuperBlockOffset(supers) + SUPERBLOCK_SIZE)
  {
    hide Tiles, SuperBlocks, Whole, SuperBlockOffset;
    var ofs := SuperBlockOffset(supers);
    var x := LocationEntry(ofs, SUPERBLOCK_SIZE);
    TilesAppend(f + used + SuperBlocks(supers), ofs, SUPERBLOCK_SIZE);
    SuperBlocksNext(supers);
    SuperBlockGap(supers);
    assert f + used + SuperBlocks(supers) + {x} == f + used + SuperBlocks(supers + 1);
  }

  class TreeBackend {
    var t: Contents             // what the running transaction holds
    var bytesUsed: int
    var bytesTotal: nat
    var pending: seq<OpEntry>
    var flushing: bool
    var nodes: NodeStore        // the nodes on the device
    var rootId: Option<BlockId>
    var generation: nat
    var superIndex: nat
    var superBlocks: map<nat, Superblock>
    const encode: BlockData -> Value
    const decode: Value -> BlockData
    ghost var rootHeight: nat
    ghost var data: map<Id, BlockData>
    ghost var base: Contents    // what the tree being flushed holds
    ghost var free: set<LocationEntry>
    ghost var used: set<LocationEntry>
    ghost var supers: nat

    /** While flushing, changes are made to a transaction that is thrown away, and
        logged in such a way that they can be made again. */
    ghost predicate Logged()
      reads this
    {
      if flushing then t == Replay(base, pending) && Replayable(base, pending) else pending == []
    }

    ghost predicate Valid()
      reads this
    {
      && Indexed(t, free) && Divided(free, used, supers, bytesTotal)
      && bytesUsed == bytesTotal - TotalSize(free)
      && Logged()
    }

    /** The nodes on the device are those of the saved tree. */
    ghost predicate Saved()
      reads this
    {
      && (rootId.None? ==> nodes == map[])
      && (rootId.Some? ==> Rooted(Tree(NODE_SIZE, nodes), rootId.value, rootHeight))
      && forall id :: id in nodes ==> IsNodeId(id)
    }

    /** What is in use is exactly what the saved tree and the blocks take up. */
    ghost predicate Accounted()
      reads this
    {
      && Valid() && !flushing && Saved()
      && Codec(encode, decode) && Holds(t, encode, data) && DataOk(data)
      && Places(nodes.Keys) !! DataPlaces(data) && used == Places(nodes.Keys) + DataPlaces(data)
    }

    method AppendOp(e: LocationEntry, isFree: bool)
      modifies `pending
      ensures pending == old(pending) + [OpEntry(e, isFree)]
    {
      pending := pending + [OpEntry(e, isFree)];
    }

    /** Takes a place out of both indexes, which must hold it. */
    method RemoveFreeKeys(e: LocationEntry)
      requires Removable(t, e)
      modifies `t
      ensures t == RemoveFreeTree(old(t), e)
    {
      t := RemoveFreeTree(t, e);
    }

    method AddFree(e: LocationEntry)
      requires Indexed(t, free) && Fits64(e) && Logged()
      modifies `t, `bytesUsed, `pending, `free
      ensures Indexed(t, free) && Logged()
      ensures t == AddFreeTree(old(t), e) && SameOther(old(t), t)
      ensures bytesUsed == old(bytesUsed) - BlockSize(e)
      ensures free == old(free) + {Rounded(e)}
    {
      hide Indexed, AddFreeTree, Replay, Replayable, SameOther;
      AddSameOther(t, e);
      if flushing {
        ReplayNext(base, pending, OpEntry(e, true));
        ReplayableNext(base, pending, OpEntry(e, true));
        AppendOp(e, true);
      }
      bytesUsed := bytesUsed - BlockSize(e);
      AddIndexed(t, free, e);
      t := AddFreeTree(t, e);
      free := free + {Rounded(e)};
    }

    method RemoveFree(e: LocationEntry)
      requires Indexed(t, free) && e in free && Logged()
      modifies `t, `bytesUsed, `pending, `free
      ensures Indexed(t, free) && Logged()
      ensures t == RemoveFreeTree(old(t), e) && SameOther(old(t), t)
      ensures bytesUsed == old(bytesUsed) + e.size
      ensures free == old(free) - {e}
    {
      assert Whole(e);
      hide Indexed, RemoveFreeTree, Replay, Replayable, SameOther;
      AddSameOther(t, e);
      InIndex(t, free, e);
      if flushing {
        ReplayNext(base, pending, OpEntry(e, false));
        ReplayableNext(base, pending, OpEntry(e, false));
        AppendOp(e, false);
      }
      bytesUsed := bytesUsed + BlockSize(e);
      RemoveIndexed(t, free, e);
      RemoveFreeKeys(e);
      free := free - {e};
    }

    /** Adds a free place at the end of the device. */
    method Extend(n: nat)
      requires Valid() && n > 0 && n % BLOCK_SIZE == 0
      requires supers > 0 && bytesTotal + n < SuperBlockOffset(supers) && bytesTotal + n < LIMIT
      modifies `t, `bytesUsed, `bytesTotal, `pending, `free
      ensures Valid() && free == old(free) + {LocationEntry(old(bytesTotal), n)} && bytesTotal == old(bytesTotal) + n
      ensures SameOther(old(t), t)
    {
      hide Indexed, Divided, TotalSize, Replay, Replayable, SuperBlockOffset, AddFreeTree, SameOther;
      SameOtherRefl(t);
      DividedExtend(free, used, supers, bytesTotal, n);
      bytesUsed := bytesUsed + n;
      AddFree(LocationEntry(bytesTotal, n));
      bytesTotal := bytesTotal + n;
    }

    /** Adds the next superblock, and what lies before it as a free place. */
    method AddSuperBlock(n: nat)
      requires Valid() && n == supers && SuperBlockOffset(n) + SUPERBLOCK_SIZE < LIMIT
      modifies `t, `bytesUsed, `bytesTotal, `pending, `free, `supers
      ensures Valid() && old(free) <= free && supers == old(supers) + 1
      ensures bytesTotal == SuperBlockOffset(n) + SUPERBLOCK_SIZE
      ensures SameOther(old(t), t)
    {
      hide Indexed, Divided, TotalSize, Replay, Replayable, SuperBlockOffset, AddFreeTree, SameOther;
      SameOtherRefl(t);
      DividedSuperBlock(free, used, supers, bytesTotal);
      var ofs := SuperBlockOffset(n);
      if ofs > bytesTotal {
        var ssize := ofs - bytesTotal;
        AddFree(LocationEntry(bytesTotal, ssize));
        bytesUsed := bytesUsed + ssize;
        bytesTotal := bytesTotal + ssize;
      }
      bytesTotal := bytesTotal + SUPERBLOCK_SIZE;
      bytesUsed := bytesUsed + SUPERBLOCK_SIZE;
      supers := supers + 1;
    }

    /** Makes the device larger, by a free place of the given size and by what lies
        before further superblocks on the way. */
    method Grow(asize: nat)
      requires Valid() && asize > 0 && asize % BLOCK_SIZE == 0 && GrownTotal(bytesTotal, supers, asize) < LIMIT
      modifies `t, `bytesUsed, `bytesTotal, `pending, `free, `supers
      ensures Valid() && old(free) <= free && bytesTotal == old(GrownTotal(bytesTotal, supers, asize))
      ensures asize <= bytesTotal && LocationEntry(bytesTotal - asize, asize) in free
      ensures SameOther(old(t), t)
      decreases !JustBehind(bytesTotal, supers), if JustBehind(bytesTotal, supers) then Excess(supers, asize) else 0
    {
      hide Indexed, Divided, TotalSize, Replay, Replayable, Excess, SameOther, SuperBlockOffset, SuperBlockCount, GrownTotal;
      var oldsbs := CalculateNumberOfSuperBlocks(bytesTotal);
      var newsbs := CalculateNumberOfSuperBlocks(bytesTotal + asize);
      CountBoth(free, used, supers, bytesTotal, asize, oldsbs, newsbs);
      if oldsbs == newsbs {
        Extend(asize);
      } else {
        GrownPast(bytesTotal, supers, asize);
        ghost var t0 := t;
        AddSuperBlock(oldsbs);
        ghost var t1 := t;
        Grow(asize);
        SameOtherTrans(t0, t1, t);
      }
    }

    /** The transaction's answer for a subtree. */
    method NextKey(prefix: Key, key: Key) returns (r: Option<Key>)
      ensures IsNextIn(t, prefix, key, r)
    {
      var todo := t.Keys;
      r := None;
      while todo != {}
        invariant todo <= t.Keys
        invariant r.Some? ==> AddTreePrefix(prefix, r.value) in t && Less(key, r.value)
        invariant forall k :: AddTreePrefix(prefix, k) in t && AddTreePrefix(prefix, k) !in todo && Less(key, k) ==>
                              r.Some? && !Less(k, r.value)
        decreases todo
      {
        var k :| k in todo;
        todo := todo - {k};
        var s := StripTreePrefix(prefix, Some(k));
        if s.Some? && Less(key, s.value) && (r.None? || Less(s.value, r.value)) {
          LessIrreflexive(s.value);
          LowerNext(prefix, r, s.value);
          r := s;
        }
        assert forall x :: AddTreePrefix(prefix, x) == k ==> s == Some(x) by {
          forall x | AddTreePrefix(prefix, x) == k ensures s == Some(x) {
            assert k[|prefix|..] == x;
          }
        }
      }
    }

    /** Room for `size` bytes: from the best fitting free place, or from one at the
        end of a larger device. */
    method AllocateSlice(size: nat) returns (ls: LocationSlice)
      requires Valid()
      requires size > 0 ==> GrownTotal(bytesTotal, supers, BlockSize(LocationEntry(0, size))) < LIMIT
      modifies `t, `bytesUsed, `bytesTotal, `pending, `free, `used, `supers
      ensures Valid() && SameOther(old(t), t)
      ensures size == 0 ==> ls == [] && unchanged(this)
      ensures size > 0 ==> |ls| == 1 && ls[0].size == size && Fits64(ls[0])
      ensures size > 0 ==> Rounded(ls[0]) !in old(used) && used == old(used) + {Rounded(ls[0])}
      ensures size > 0 && !NoFit(old(free), BlockSize(LocationEntry(0, size))) ==>
                bytesTotal == old(bytesTotal) && supers == old(supers)
                && exists e :: BestFit(old(free), BlockSize(LocationEntry(0, size)), e) && e.offset == ls[0].offset
                               && free == FreeAfter(old(free), e, BlockSize(LocationEntry(0, size)))
      ensures size > 0 && NoFit(old(free), BlockSize(LocationEntry(0, size))) ==>
                bytesTotal == old(GrownTotal(bytesTotal, supers, BlockSize(LocationEntry(0, size))))
    {
      hide Indexed, Divided, TotalSize, Replay, Replayable, BestFit, NoFit, GrownTotal, BlockSize, Fits64, FreeAfter, Whole, SameOther;
      SameOtherRefl(t);
      if size == 0 {
        return [];
      }
      var want := LocationEntry(0, size);
      var bsize := BlockSize(want);
      WantedFits(bytesTotal, supers, size);
      while true
        invariant Valid() && used == old(used) && SameOther(old(t), t)
        invariant NoFit(free, bsize) || free == old(free) || NoFit(old(free), bsize)
        invariant free == old(free) ==> unchanged(this)
        invariant free != old(free) ==> NoFit(old(free), bsize) && !NoFit(free, bsize)
                                        && bytesTotal == old(GrownTotal(bytesTotal, supers, bsize))
        decreases NoFit(free, bsize)
      {
        var kp := NextKey([SIZE_TAG], ToKeySO(want));
        FreeNotAtZero(free, used, supers, bytesTotal);
        NextIsBestFit(t, free, size, kp);
        if kp.Some? {
          var e := FromKeySO(kp.value);
          FitIsFree(t, free, bsize, e);
          ghost var t1 := t;
          TakeFront(e, bsize);
          SameOtherTrans(old(t), t1, t);
          ls := [LocationEntry(e.offset, size)];
          WantedPlace(e.offset, size);
          return;
        }
        ghost var t1 := t;
        Grow(bsize);
        SameOtherTrans(old(t), t1, t);
        GrownFits(free, bytesTotal, bsize);
      }
    }

    /** Takes the front of a free place and leaves the rest. */
    method TakeFront(e: LocationEntry, bsize: nat)
      requires Valid() && e in free && Whole(e) && 0 < bsize <= e.size && bsize % BLOCK_SIZE == 0
      modifies `t, `bytesUsed, `pending, `free, `used
      ensures Valid()
      ensures free == FreeAfter(old(free), e, bsize)
      ensures LocationEntry(e.offset, bsize) !in old(used) && used == old(used) + {LocationEntry(e.offset, bsize)}
      ensures Whole(LocationEntry(e.offset, bsize))
      ensures SameOther(old(t), t)
    {
      hide Indexed, Divided, TotalSize, Replay, Replayable, Whole, AddFreeTree, RemoveFreeTree, SameOther;
      if bsize < e.size {
        DividedCut(free, used, supers, bytesTotal, e, bsize);
      } else {
        DividedTake(free, used, supers, bytesTotal, e);
      }
      RemoveFree(e);
      var left := e.size - bsize;
      if left > 0 {
        RestIsWhole(LocationEntry(e.offset + bsize, left));
        ghost var t1 := t;
        AddFree(LocationEntry(e.offset + bsize, left));
        SameOtherTrans(old(t), t1, t);
      }
      used := used + {LocationEntry(e.offset, bsize)};
    }

    /** Gives back places that are in use. */
    method FreeSlice(ls: LocationSlice)
      requires Valid() && (forall i :: 0 <= i < |ls| ==> Fits64(ls[i]) && Rounded(ls[i]) in used)
      requires forall i, j :: 0 <= i < j < |ls| ==> Rounded(ls[i]) != Rounded(ls[j])
      modifies `t, `bytesUsed, `pending, `free, `used
      ensures Valid()
      ensures used == old(used) - (set i | 0 <= i < |ls| :: Rounded(ls[i]))
      ensures free == old(free) + (set i | 0 <= i < |ls| :: Rounded(ls[i]))
      ensures SameOther(old(t), t)
    {
      hide Indexed, Divided, TotalSize, Replay, Replayable, Fits64, BlockSize, AddFreeTree, SameOther;
      SameOtherRefl(t);
      for n := 0 to |ls|
        invariant Valid() && SameOther(old(t), t)
        invariant used == old(used) - (set i | 0 <= i < n :: Rounded(ls[i]))
        invariant free == old(free) + (set i | 0 <= i < n :: Rounded(ls[i]))
      {
        DividedFree(free, used, supers, bytesTotal, Rounded(ls[n]));
        ghost var t1 := t;
        AddFree(ls[n]);
        SameOtherTrans(old(t), t1, t);
        used := used - {Rounded(ls[n])};
        assert (set i | 0 <= i < n + 1 :: Rounded(ls[i])) == (set i | 0 <= i < n :: Rounded(ls[i])) + {Rounded(ls[n])};
      }
    }

    // ----- blocks

    method GetBlockById(id: Id) returns (r: Option<Meta>)
      requires Accounted()
      ensures r == if id in data then Some(data[id].meta) else None
    {
      hide Valid, Saved, DataOk, Places, DataPlaces;
      if BlockKey(id) !in t {
        return None;
      }
      r := Some(decode(t[BlockKey(id)]).meta);
    }

    /** Sets what is known of a block. */
    method SetBlockData(id: Id, bd: BlockData)
      requires Valid() && !flushing && Holds(t, encode, data)
      modifies `t, `data
      ensures Valid() && Holds(t, encode, data) && data == old(data)[id := bd]
    {
      hide Indexed, Divided, TotalSize, Holds;
      HoldsSet(t, encode, data, id, bd);
      BlockNotIndexed(t, free, id, encode(bd));
      t := t[BlockKey(id) := encode(bd)];
      data := data[id := bd];
    }

    method StoreBlock(id: Id, m: Meta, size: nat)
      requires Accounted() && id !in data
      requires size > 0 ==> GrownTotal(bytesTotal, supers, BlockSize(LocationEntry(0, size))) < LIMIT
      modifies `t, `bytesUsed, `bytesTotal, `pending, `free, `used, `supers, `data
      ensures Accounted()
      ensures id in data && data == old(data)[id := BlockData(m, data[id].location)]
      ensures if size == 0 then data[id].location == [] else |data[id].location| == 1 && data[id].location[0].size == size
    {
      hide Indexed, Divided, TotalSize, Holds, Fits64, GrownTotal, NoFit, BestFit, FreeAfter, Rounded, DataOk, DataPlaces,
        Places, Codec, SameOther, BlockSize, Rooted;
      var ls := AllocateSlice(size);
      var bd := BlockData(m, ls);
      HoldsKept(old(t), t, encode, data);
      DataAdd(data, id, bd);
      SetBlockData(id, bd);
    }

    method UpdateBlock(id: Id, m: Meta) returns (ops: nat)
      requires Accounted() && id in data
      modifies `t, `data
      ensures Accounted() && data == old(data)[id := old(data)[id].(meta := m)] && ops == 1
    {
      hide Indexed, Divided, TotalSize, DataOk, DataPlaces, Places, Rooted;
      var bd := decode(t[BlockKey(id)]);
      DataUpdate(data, id, m);
      SetBlockData(id, bd.(meta := m));
      ops := 1;
    }

    method RemoveBlockData(id: Id)
      requires Valid() && !flushing && Holds(t, encode, data) && BlockKey(id) in t
      modifies `t, `data
      ensures Valid() && Holds(t, encode, data) && data == old(data) - {id}
    {
      hide Indexed, Divided, TotalSize, Holds;
      HoldsSet(t, encode, data, id, BlockData(Meta(0, 0), []));
      BlockNotIndexed(t, free, id, []);
      t := t - {BlockKey(id)};
      data := data - {id};
    }

    method DeleteBlock(id: Id)
      requires Accounted() && id in data
      modifies `t, `bytesUsed, `pending, `free, `used, `data
      ensures Accounted() && data == old(data) - {id}
    {
      hide Indexed, Divided, TotalSize, Places, Rooted, BlockSize, Fits64, SameOther, Rounded, Holds, DataOk, DataPlaces,
        Codec, IsNodeId, Replay, Replayable;
      BlockHeld(t, encode, decode, data, id);
      var bd := decode(t[BlockKey(id)]);
      DataRemove(data, id);
      PlacesOf(bd.location);
      FreeSlice(bd.location);
      HoldsKept(old(t), t, encode, data);
      BlockHeld(t, encode, decode, data, id);
      RemoveBlockData(id);
    }

    // ----- flushing

    /** Room for nodes, given their encoded sizes. */
    method Reserve(sizes: seq<nat>) returns (ids: seq<BlockId>)
      requires Valid() && (forall i :: 0 <= i < |sizes| ==> sizes[i] > 0) && Enough(bytesTotal, supers, sizes)
      modifies `t, `bytesUsed, `bytesTotal, `pending, `free, `used, `supers
      ensures Valid() && SameOther(old(t), t)
      ensures |ids| == |sizes| && (forall i :: 0 <= i < |ids| ==> IsNodeId(ids[i]) && Place(ids[i]) !in old(used))
      ensures Distinct(ids) && used == old(used) + Places(IdsOf(ids))
      ensures sizes != [] ==> bytesTotal > 0
    {
      hide Indexed, Divided, TotalSize, Replay, Replayable, BlockSize, Fits64, SameOther, Rounded, IsNodeId, Place, Enough, NoFit,
        GrownTotal, BestFit, FreeAfter;
      ids := [];
      SameOtherRefl(t);
      assert sizes[0..] == sizes;
      for n := 0 to |sizes|
        invariant Valid() && SameOther(old(t), t) && |ids| == n
        invariant forall i :: 0 <= i < n ==> IsNodeId(ids[i]) && Place(ids[i]) !in old(used)
        invariant Distinct(ids) && used == old(used) + Places(IdsOf(ids))
        invariant Enough(bytesTotal, supers, sizes[n..])
        invariant n > 0 ==> bytesTotal > 0
      {
        EnoughNext(bytesTotal, supers, sizes[n..]);
        assert sizes[n..][0] == sizes[n] && sizes[n..][1..] == sizes[n + 1..];
        ghost var t1 := t;
        var ls := AllocateSlice(sizes[n]);
        SameOtherTrans(old(t), t1, t);
        UsedWithin(free, used, supers, bytesTotal, Rounded(ls[0]));
        NewNodeId(ls[0]);
        NextId(ids, ToBlockId(ls));
        ids := ids + [ToBlockId(ls)];
      }
    }

    /** Frees the nodes on the way down from a node of the old tree, up to nodes
        that are current. */
    method PurgeNonCurrent(id: BlockId, currentMap: set<BlockId>, ghost h: nat) returns (purged: seq<BlockId>)
      requires Valid() && id in nodes && nodes[id].leafy == (h == 0) && (h > 0 ==> WfStored(Tree(NODE_SIZE, nodes), id, h))
      requires Freeable(Purged(nodes, currentMap, id, h), used)
      modifies `t, `bytesUsed, `pending, `free, `used
      ensures Valid() && SameOther(old(t), t)
      ensures purged == Purged(nodes, currentMap, id, h) && forall x :: x in purged ==> IsNodeId(x)
      ensures used == old(used) - Places(IdsOf(purged))
      decreases h, 1
    {
      hide Indexed, Divided, TotalSize, Replay, Replayable, WfStored, SameOther, Freeable, Places, IsNodeId, Rounded, PurgedAll;
      SameOtherRefl(t);
      purged := [];
      NothingFreed(used);
      if id in currentMap {
        return;
      }
      if !nodes[id].leafy {
        ghost var es := nodes[id].children;
        FreeableParts(PurgedAll(nodes, currentMap, es, h), [id], used);
        purged := PurgeChildren(id, currentMap, h);
      }
      ghost var t1 := t;
      FreeableLast(purged, id, old(used));
      NodeIdPlace(id);
      PlacesOf(FromBlockId(id));
      FreeSlice(FromBlockId(id));
      SameOtherTrans(old(t), t1, t);
      purged := purged + [id];
    }

    method PurgeChildren(id: BlockId, currentMap: set<BlockId>, ghost h: nat) returns (purged: seq<BlockId>)
      requires Valid() && h > 0 && WfStored(Tree(NODE_SIZE, nodes), id, h)
      requires Freeable(PurgedAll(nodes, currentMap, nodes[id].children, h), used)
      modifies `t, `bytesUsed, `pending, `free, `used
      ensures Valid() && SameOther(old(t), t)
      ensures purged == PurgedAll(nodes, currentMap, nodes[id].children, h) && forall x :: x in purged ==> IsNodeId(x)
      ensures used == old(used) - Places(IdsOf(purged))
      decreases h, 0
    {
      hide Indexed, Divided, TotalSize, Replay, Replayable, WfNode, SameOther, Freeable, Places, IsNodeId, Purged;
      var es := nodes[id].children;
      SameOtherRefl(t);
      NothingFreed(used);
      assert es[..|es|] == es;
      purged := [];
      for n := 0 to |es|
        invariant Valid() && SameOther(old(t), t)
        invariant purged == PurgedAll(nodes, currentMap, es[..n], h) && forall x :: x in purged ==> IsNodeId(x)
        invariant used == old(used) - Places(IdsOf(purged))
      {
        var v := es[n].value;
        ghost var t1 := t;
        PurgedSplit(nodes, currentMap, es, h, n);
        FreeableSplit(PurgedAll(nodes, currentMap, es, h), purged, Purged(nodes, currentMap, v, h - 1), old(used));
        ChildStored(Tree(NODE_SIZE, nodes), id, h, n);
        StoredLeafy(Tree(NODE_SIZE, nodes), v, h - 1);
        var here := PurgeNonCurrent(v, currentMap, h - 1);
        SameOtherTrans(old(t), t1, t);
        FreedBoth(purged, here, old(used));
        assert es[..n + 1][..n] == es[..n];
        purged := purged + here;
      }
    }

    /** Saves the nodes of a changed tree in places that were free. */
    method CommitRoot(root: Node, sizes: seq<nat>, ghost h: nat) returns (bid: BlockId, currentMap: set<BlockId>)
      requires Valid() && Saved() && Places(nodes.Keys) <= used
      requires WfRoot(Tree(NODE_SIZE, nodes), root, h) && root.blockId.None?
      requires |sizes| == Dirty(root, h) && (forall i :: 0 <= i < |sizes| ==> sizes[i] > 0)
      requires Enough(bytesTotal, supers, sizes)
      modifies `t, `bytesUsed, `bytesTotal, `pending, `free, `used, `supers, `nodes
      ensures Valid() && SameOther(old(t), t) && bytesTotal > 0
      ensures forall id :: id in nodes ==> IsNodeId(id)
      ensures used == old(used) + Places(nodes.Keys - old(nodes).Keys) && Places(nodes.Keys - old(nodes).Keys) !! old(used)
      ensures Grown(Tree(NODE_SIZE, old(nodes)), Tree(NODE_SIZE, nodes))
      ensures bid in nodes && bid !in old(nodes) && WfRoot(Tree(NODE_SIZE, nodes), FromData(nodes[bid], bid), h)
      ensures Tracked(old(nodes), nodes, {}, currentMap, Reach(nodes, bid, h))
      ensures TreeMap(Tree(NODE_SIZE, nodes), FromData(nodes[bid], bid), h)
           == TreeMap(Tree(NODE_SIZE, old(nodes)), root, h)
    {
      hide Indexed, Divided, TotalSize, Replay, Replayable, WfNode, Sorted, Flat, SameOther, Places, IsNodeId, Rooted, Reach, Tracked,
        Took, Enough, SameSlots, TreeMap, Grown;
      var ids := Reserve(sizes);
      NewIds(nodes, old(used), ids);
      var sv := new TreeSaver(false, nodes, ids);
      WfRootParts(Tree(NODE_SIZE, nodes), root, h);
      var r, id := CommitTo.CommitTo(root, NODE_SIZE, sv, h);
      CommittedTree(Tree(NODE_SIZE, nodes), Tree(NODE_SIZE, sv.stored), root, r, h);
      TookAll(nodes, sv.stored, ids, sv.supply);
      TookPlaces(nodes, sv.stored, ids);
      PlacesApart(ids, old(used));
      nodes := sv.stored;
      bid, currentMap := id, sv.currentMap;
    }

    /** Replays the log on what the committed tree holds. */
    method FlushPending()
      requires Replayable(t, pending)
      modifies `t, `pending
      ensures t == Replay(old(t), old(pending)) && pending == []
    {
      hide AddFreeTree, RemoveFreeTree, Removable;
      for n := 0 to |pending|
        invariant pending == old(pending) && t == Replay(old(t), pending[..n])
      {
        var op := pending[n];
        ReplayablePart(old(t), pending, n);
        ReplayNext(old(t), pending[..n], op);
        assert pending[..n] + [op] == pending[..n + 1];
        if op.free {
          t := AddFreeTree(t, op.location);
        } else {
          RemoveFreeKeys(op.location);
        }
      }
      assert pending[..|pending|] == pending;
      pending := [];
    }

    /** Frees what the old tree has and the new one does not. */
    method PurgeOld(bid: BlockId, currentMap: set<BlockId>, ghost before: NodeStore, ghost h: nat)
      requires Valid() && (forall id :: id in nodes ==> IsNodeId(id)) && bid in nodes && bid !in before
      requires rootId.None? ==> before == map[]
      requires rootId.Some? ==>
                 Committed(Tree(NODE_SIZE, before), rootId.value, rootHeight, Tree(NODE_SIZE, nodes), bid, h, currentMap)
      requires Extends(before, nodes) && Reach(nodes, bid, h) <= nodes.Keys && nodes.Keys - before.Keys <= Reach(nodes, bid, h)
      requires Places(nodes.Keys) <= used
      modifies `t, `bytesUsed, `pending, `free, `used, `nodes
      ensures Valid() && SameOther(old(t), t)
      ensures nodes == Kept(old(nodes), Reach(old(nodes), bid, h))
      ensures nodes.Keys <= old(nodes).Keys && used == old(used) - (Places(old(nodes).Keys) - Places(nodes.Keys))
    {
      hide Indexed, Divided, TotalSize, Replay, Replayable, SameOther, Places, IsNodeId, Rooted, Reach, Freeable, Committed, Extends,
        Purged, IdsOf;
      SameOtherRefl(t);
      var purged := [];
      if rootId.Some? {
        var o := rootId.value;
        PurgeReady(Tree(NODE_SIZE, before), o, rootHeight, Tree(NODE_SIZE, nodes), bid, h, currentMap, used);
        purged := PurgeNonCurrent(o, currentMap, rootHeight);
      } else {
        NothingFreed(used);
        PurgedNothing(before, nodes, bid, h);
      }
      PurgedKept(nodes, Reach(nodes, bid, h), purged);
      nodes := nodes - IdsIn(purged);
    }

    /** The last superblock written is the newest, and says what is on the device. */
    ghost predicate OnDevice(slot: nat)
      reads this
    {
      && slot in superBlocks && rootId.Some? && rootId.value in nodes
      && (forall s :: s in superBlocks && s != slot ==> superBlocks[s].generation < superBlocks[slot].generation)
      && superBlocks[slot] == Superblock(generation, bytesUsed, bytesTotal, rootId, superBlocks[slot].pending)
      && t == Replay(SavedContents(), superBlocks[slot].pending)
      && Replayable(SavedContents(), superBlocks[slot].pending)
    }

    /** What the saved tree holds. */
    ghost function SavedContents(): Contents
      requires rootId.Some? && rootId.value in nodes
      reads this
    {
      TreeMap(Tree(NODE_SIZE, nodes), FromData(nodes[rootId.value], rootId.value), rootHeight)
    }

    ghost predicate Generations()
      reads this
    {
      forall s :: s in superBlocks ==> superBlocks[s].generation <= generation
    }

    /** Starts on an empty device. */
    constructor (encode: BlockData -> Value, decode: Value -> BlockData)
      requires Codec(encode, decode)
      ensures Accounted() && Generations() && t == map[] && data == map[] && bytesTotal == 0 && superBlocks == map[]
      ensures this.encode == encode && this.decode == decode
    {
      this.encode, this.decode := encode, decode;
      t, bytesUsed, bytesTotal, pending, flushing := map[], 0, 0, [], false;
      nodes, rootId, generation, superIndex, superBlocks := map[], None, 0, 0, map[];
      rootHeight, data, base, free, used, supers := 0, map[], map[], {}, {}, 0;
      new;
      EmptyDevice();
    }

    /** Starts on what another backend has left on a device of `size` bytes.  What
        the tree on it holds is read from there. */
    constructor Init(device: TreeBackend, size: nat, contents: Contents, ghost slot: nat)
      requires device.Accounted() && device.Generations() && device.OnDevice(slot)
      requires size > SuperBlockOffset(slot) && contents == device.SavedContents()
      ensures Accounted() && Generations() && OnDevice(slot)
      ensures t == device.t && data == device.data && free == device.free
      ensures bytesUsed == device.bytesUsed && bytesTotal == device.bytesTotal && generation == device.generation
    {
      hide Indexed, Divided, TotalSize, SameOther, Places, IsNodeId, Rooted, Holds, DataOk, DataPlaces, Codec, TreeMap,
        Replay, Replayable, SuperBlockOffset, SuperBlockCount;
      var n := CalculateNumberOfSuperBlocks(size);
      SlotCounted(slot, size, n);
      var best, at := PickSuperblock(device.superBlocks, n);
      NewestPicked(device.superBlocks, n, slot, at);
      encode, decode := device.encode, device.decode;
      t, pending, flushing := contents, best.value.pending, false;
      bytesUsed, bytesTotal := best.value.bytesUsed, best.value.bytesTotal;
      nodes, rootId, generation, superIndex := device.nodes, best.value.rootId, best.value.generation, 0;
      superBlocks := device.superBlocks;
      rootHeight, data, base := device.rootHeight, device.data, device.base;
      free, used, supers := device.free, device.used, device.supers;
      new;
      FlushPending();
    }

    /** Saves a changed tree, frees what only the old one needed, and writes a
        superblock.  Changes to free space on the way are made to a transaction
        that is thrown away and are then replayed on the saved tree. */
    method Flush(root: Node, sizes: seq<nat>, ghost h: nat)
      returns (slot: nat, ghost temp: Contents, ghost written: set<LocationEntry>)
      requires Accounted() && Generations()
      requires WfRoot(Tree(NODE_SIZE, nodes), root, h) && root.blockId.None?
      requires TreeMap(Tree(NODE_SIZE, nodes), root, h) == t
      requires |sizes| == Dirty(root, h) && (forall i :: 0 <= i < |sizes| ==> sizes[i] > 0)
      requires Enough(bytesTotal, supers, sizes)
      modifies this
      ensures Accounted() && Generations() && data == old(data)
      ensures OnDevice(slot) && SuperBlockCount(bytesTotal, supers) && slot < supers
      ensures superIndex == old(superIndex) + 1 && slot == superIndex % supers
      ensures superBlocks == old(superBlocks)[slot := superBlocks[slot]]
      ensures SavedContents() == old(t) && t == temp
      ensures forall w, e :: w in written && e in old(used) ==> Apart(w, e)
      ensures forall id :: id in nodes && id !in old(nodes) ==> Place(id) in written
      ensures supers > 1 ==> slot != old(superIndex) % supers
    {
      hide Indexed, Divided, TotalSize, WfRoot, SameOther, Places, IsNodeId, Rooted, Holds, DataOk,
        DataPlaces, Codec, TreeMap, Replay, Replayable, Enough, Dirty, SuperBlockCount, Apart, Place;
      slot, temp, written := FlushTree(root, sizes, DataPlaces(data), h);
      HoldsKept(old(t), t, encode, data);
      if supers > 1 {
        InTurn(old(superIndex), supers);
      }
    }

    method FlushTree(root: Node, sizes: seq<nat>, ghost blocks: set<LocationEntry>, ghost h: nat)
      returns (slot: nat, ghost temp: Contents, ghost written: set<LocationEntry>)
      requires Valid() && !flushing && Saved() && Generations()
      requires Places(nodes.Keys) !! blocks && used == Places(nodes.Keys) + blocks
      requires WfRoot(Tree(NODE_SIZE, nodes), root, h) && root.blockId.None?
      requires TreeMap(Tree(NODE_SIZE, nodes), root, h) == t
      requires |sizes| == Dirty(root, h) && (forall i :: 0 <= i < |sizes| ==> sizes[i] > 0)
      requires Enough(bytesTotal, supers, sizes)
      modifies `base, `t, `bytesUsed, `bytesTotal, `pending, `free, `used, `supers, `nodes, `flushing, `generation,
               `superIndex, `superBlocks, `rootId, `rootHeight
      ensures Valid() && !flushing && Saved() && Generations() && SameOther(old(t), t)
      ensures Places(nodes.Keys) !! blocks && used == Places(nodes.Keys) + blocks
      ensures OnDevice(slot) && SuperBlockCount(bytesTotal, supers) && slot < supers
      ensures superIndex == old(superIndex) + 1 && slot == superIndex % supers
      ensures superBlocks == old(superBlocks)[slot := superBlocks[slot]]
      ensures SavedContents() == old(t) && t == temp
      ensures forall w, e :: w in written && e in old(used) ==> Apart(w, e)
      ensures forall id :: id in nodes && id !in old(nodes) ==> Place(id) in written
    {
      hide Indexed, Divided, TotalSize, WfRoot, SameOther, Places, IsNodeId, Rooted, TreeMap, Replay, Replayable, Enough, Dirty,
        SuperBlockCount, Apart, Place;
      var contents := t;
      ReplayNone(t);
      base, flushing := t, true;
      var bid;
      bid, written := SaveTree(root, sizes, blocks, h);
      temp := t;
      slot := Publish(bid, contents, h);
    }

    /** Makes the saved tree the current one and goes on from there, without the
        transaction that the flush has used. */
    method Publish(bid: BlockId, contents: Contents, ghost h: nat) returns (slot: nat)
      requires Valid() && flushing && base == contents && bytesTotal > 0 && Generations()
      requires bid in nodes && TreeMap(Tree(NODE_SIZE, nodes), FromData(nodes[bid], bid), h) == contents
      modifies `generation, `superIndex, `superBlocks, `rootId, `rootHeight, `t, `flushing, `pending
      ensures Valid() && !flushing && t == old(t) && Generations()
      ensures rootId == Some(bid) && rootHeight == h && SavedContents() == contents
      ensures OnDevice(slot) && SuperBlockCount(bytesTotal, supers) && slot < supers
      ensures superIndex == old(superIndex) + 1 && slot == superIndex % supers
      ensures superBlocks == old(superBlocks)[slot := superBlocks[slot]]
    {
      hide Indexed, Divided, TotalSize, TreeMap, Replay, Replayable, SuperBlockCount;
      slot := WriteSuperblock(bid, h);
      t, flushing := contents, false;
      FlushPending();
    }

    /** Saves the new tree and frees what only the old one needed. */
    method SaveTree(root: Node, sizes: seq<nat>, ghost blocks: set<LocationEntry>, ghost h: nat)
      returns (bid: BlockId, ghost written: set<LocationEntry>)
      requires Valid() && Saved() && Places(nodes.Keys) !! blocks && used == Places(nodes.Keys) + blocks
      requires WfRoot(Tree(NODE_SIZE, nodes), root, h) && root.blockId.None?
      requires |sizes| == Dirty(root, h) && (forall i :: 0 <= i < |sizes| ==> sizes[i] > 0)
      requires Enough(bytesTotal, supers, sizes)
      modifies `t, `bytesUsed, `bytesTotal, `pending, `free, `used, `supers, `nodes
      ensures Valid() && SameOther(old(t), t) && bytesTotal > 0
      ensures Rooted(Tree(NODE_SIZE, nodes), bid, h) && forall id :: id in nodes ==> IsNodeId(id)
      ensures Places(nodes.Keys) !! blocks && used == Places(nodes.Keys) + blocks
      ensures bid in nodes && TreeMap(Tree(NODE_SIZE, nodes), FromData(nodes[bid], bid), h)
                              == TreeMap(Tree(NODE_SIZE, old(nodes)), root, h)
      ensures forall w, e :: w in written && e in old(used) ==> Apart(w, e)
      ensures forall id :: id in nodes && id !in old(nodes) ==> Place(id) in written
    {
      hide Indexed, Divided, TotalSize, WfRoot, SameOther, Places, IsNodeId, Rooted, Reach, Tracked, TreeMap, Replay, Replayable, Enough,
        Dirty, Kept, Grown;
      ghost var before := nodes;
      var currentMap;
      bid, currentMap := CommitRoot(root, sizes, h);
      written := Places(nodes.Keys - before.Keys);
      WrittenApart(free, used, supers, bytesTotal, old(used), written);
      NewPlaces(before, nodes);
      AfterCommit(before, nodes, rootId, rootHeight, bid, h, currentMap);
      SavedInUse(before, nodes);
      ghost var t1, saved := t, nodes;
      PurgeOld(bid, currentMap, before, h);
      SameOtherTrans(old(t), t1, t);
      KeptRooted(Tree(NODE_SIZE, saved), bid, h);
      AfterPurge(before, saved, nodes, blocks, old(used), used);
    }

    /** Writes a superblock that refers to the saved tree, in the next slot. */
    method WriteSuperblock(bid: BlockId, ghost h: nat) returns (slot: nat)
      requires Valid() && bytesTotal > 0 && Generations()
      modifies `generation, `superIndex, `superBlocks, `rootId, `rootHeight
      ensures SuperBlockCount(bytesTotal, supers) && slot < supers && generation == old(generation) + 1
      ensures superBlocks == old(superBlocks)[slot := Superblock(generation, bytesUsed, bytesTotal, Some(bid), pending)]
      ensures rootId == Some(bid) && rootHeight == h && Generations()
      ensures superIndex == old(superIndex) + 1 && slot == superIndex % supers
    {
      hide Indexed, Divided, TotalSize, SuperBlockCount;
      generation := generation + 1;
      superIndex := superIndex + 1;
      var n := CalculateNumberOfSuperBlocks(bytesTotal);
      CountHere(free, used, supers, bytesTotal, n);
      slot := superIndex % n;
      superBlocks := superBlocks[slot := Superblock(generation, bytesUsed, bytesTotal, Some(bid), pending)];
      rootId, rootHeight := Some(bid), h;
    }
  }

  /** The slot after the one used last is another one, if there is another one. */
  lemma InTurn(i: nat, n: nat)
    requires n > 1
    ensures (i + 1) % n != i % n
  {
    if (i + 1) % n == i % n {
      NotOne(n, (i + 1) / n, i / n);
    }
  }

  lemma NotOne(n: nat, a: int, b: int)
    requires n > 1
    ensures n * a - n * b != 1
  {
    assert n * a - n * b == n * (a - b);
  }

  /** Slot `i` has the highest generation, and is the last one that does. */
  ghost predicate NewestAt(sbs: map<nat, Superblock>, n: nat, i: nat) {
    && i < n && i in sbs
    && (forall j :: 0 <= j < n && j in sbs ==> sbs[j].generation <= sbs[i].generation)
    && (forall j :: i < j < n && j in sbs ==> sbs[j].generation < sbs[i].generation)
  }

  method PickSuperblock(sbs: map<nat, Superblock>, n: nat) returns (best: Option<Superblock>, ghost at: nat)
    ensures best.None? ==> forall i :: 0 <= i < n ==> i !in sbs
    ensures best.Some? ==> NewestAt(sbs, n, at) && best.value == sbs[at]
  {
    best, at := None, 0;
    for i := 0 to n
      invariant best.None? ==> forall j :: 0 <= j < i ==> j !in sbs
      invariant best.Some? ==> NewestAt(sbs, i, at) && best.value == sbs[at]
    {
      if i in sbs && !(best.Some? && sbs[i].generation < best.value.generation) {
        best, at := Some(sbs[i]), i;
      }
    }
  }

  lemma NewestPicked(sbs: map<nat, Superblock>, n: nat, slot: nat, at: nat)
    requires NewestAt(sbs, n, at) && slot < n && slot in sbs
    requires forall s :: s in sbs && s != slot ==> sbs[s].generation < sbs[slot].generation
    ensures at == slot
  {
  }

  /** A superblock that has been written is among those looked at. */
  lemma SlotCounted(slot: nat, size: nat, n: nat)
    requires size > SuperBlockOffset(slot) && SuperBlockCount(size, n)
    ensures slot < n
  {
    if n <= slot {
      if n < slot {
        SuperBlockOrder(n, slot);
      }
    }
  }

  lemma EmptyDevice()
    ensures Indexed(map[], {}) && Divided({}, {}, 0, 0) && TotalSize({}) == 0
  {
  }

  lemma ReplayNone(t: Contents)
    ensures Replay(t, []) == t && Replayable(t, [])
  {
  }

  /** Places in use at the same time have no byte in common. */
  lemma WrittenApart(free: set<LocationEntry>, used: set<LocationEntry>, supers: nat, total: nat, older: set<LocationEntry>,
                     written: set<LocationEntry>)
    requires Divided(free, used, supers, total) && used == older + written && written !! older
    ensures forall w, e :: w in written && e in older ==> Apart(w, e)
  {
    forall w, e | w in written && e in older ensures Apart(w, e) {
      var xs := free + used + SuperBlocks(supers);
      assert w in xs && e in xs && w != e;
    }
  }

  lemma NewPlaces(before: NodeStore, nodes: NodeStore)
    requires forall id :: id in nodes ==> IsNodeId(id)
    ensures forall id :: id in nodes && id !in before ==> Place(id) in Places(nodes.Keys - before.Keys)
  {
    hide IsNodeId, Place;
  }

  lemma CountHere(free: set<LocationEntry>, used: set<LocationEntry>, supers: nat, total: nat, n: nat)
    requires Divided(free, used, supers, total) && total > 0 && SuperBlockCount(total, n)
    ensures n == supers > 0 && SuperBlockCount(total, supers)
  {
    CountUnique(total, n, supers);
  }

  /** What purging asks for after a commit. */
  lemma AfterCommit(before: NodeStore, nodes: NodeStore, rootId: Option<BlockId>, rootHeight: nat, bid: BlockId, h: nat,
                    c: set<BlockId>)
    requires Grown(Tree(NODE_SIZE, before), Tree(NODE_SIZE, nodes)) && bid in nodes && bid !in before
    requires rootId.Some? ==> Rooted(Tree(NODE_SIZE, before), rootId.value, rootHeight)
    requires WfRoot(Tree(NODE_SIZE, nodes), FromData(nodes[bid], bid), h)
    requires Tracked(before, nodes, {}, c, Reach(nodes, bid, h))
    ensures rootId.Some? ==>
              Committed(Tree(NODE_SIZE, before), rootId.value, rootHeight, Tree(NODE_SIZE, nodes), bid, h, c)
    ensures Extends(before, nodes) && Reach(nodes, bid, h) <= nodes.Keys && nodes.Keys - before.Keys <= Reach(nodes, bid, h)
  {
    hide Rooted, WfRoot, Reach;
    RootReach(Tree(NODE_SIZE, nodes), bid, h);
    if nodes[bid].children != [] {
      ReachStored(Tree(NODE_SIZE, nodes), bid, h);
    }
  }

  lemma SavedInUse(before: NodeStore, saved: NodeStore)
    requires (forall id :: id in saved ==> IsNodeId(id)) && Extends(before, saved)
    ensures before.Keys <= saved.Keys && Places(saved.Keys) == Places(before.Keys) + Places(saved.Keys - before.Keys)
  {
    hide IsNodeId, Place;
    assert saved.Keys == before.Keys + (saved.Keys - before.Keys);
  }

  /** What is left in use is what the new tree and the blocks take up. */
  lemma AfterPurge(before: NodeStore, saved: NodeStore, nodes: NodeStore, blocks: set<LocationEntry>,
                   was: set<LocationEntry>, used: set<LocationEntry>)
    requires (forall id :: id in saved ==> IsNodeId(id)) && before.Keys <= saved.Keys && nodes.Keys <= saved.Keys
    requires was == Places(before.Keys) + blocks && Places(before.Keys) !! blocks
    requires Places(saved.Keys - before.Keys) !! was
    requires used == was + Places(saved.Keys - before.Keys) - (Places(saved.Keys) - Places(nodes.Keys))
    ensures used == Places(nodes.Keys) + blocks && Places(nodes.Keys) !! blocks
  {
    hide IsNodeId, Place;
    var a, b := before.Keys, saved.Keys - before.Keys;
    assert saved.Keys == a + b;
    assert Places(saved.Keys) == Places(a) + Places(b);
    assert Places(nodes.Keys) <= Places(saved.Keys);
  }

  function IdsIn(s: seq<BlockId>): (r: set<BlockId>)
    ensures r == IdsOf(s)
  {
    set x | x in s
  }

  lemma PurgedNothing(before: NodeStore, nodes: NodeStore, bid: BlockId, h: nat)
    requires before == map[] && nodes.Keys - before.Keys <= Reach(nodes, bid, h) <= nodes.Keys
    ensures forall x :: x in [] <==> x in nodes && x !in Reach(nodes, bid, h)
  {
    hide Reach;
  }

  /** The old tree can be purged from what is stored now. */
  lemma PurgeReady(t: Tree, o: BlockId, ho: nat, u: Tree, n: BlockId, hn: nat, c: set<BlockId>, used: set<LocationEntry>)
    requires Committed(t, o, ho, u, n, hn, c) && (forall id :: id in u.backend ==> IsNodeId(id))
    requires Places(u.backend.Keys) <= used && u.backend.Keys - t.backend.Keys <= Reach(u.backend, n, hn)
    ensures o in u.backend && u.backend[o].leafy == (ho == 0) && (ho > 0 ==> WfStored(u, o, ho))
    ensures Freeable(Purged(u.backend, c, o, ho), used)
    ensures forall x :: x in Purged(u.backend, c, o, ho) <==> x in u.backend && x !in Reach(u.backend, n, hn)
  {
    hide WfNode, Sorted, Flat, Reach, Purged, Tracked, IsNodeId;
    PurgeExact(t, o, ho, u, n, hn, c);
    RootGrown(t, u, o, ho);
    RootLeafy(t, o, ho);
    forall x | x in Purged(u.backend, c, o, ho) ensures x in u.backend && Place(x) in used {
      assert x in u.backend.Keys;
      PlaceIn(u.backend.Keys, x);
    }
  }

  lemma PlaceIn(ids: set<BlockId>, x: BlockId)
    requires (forall id :: id in ids ==> IsNodeId(id)) && x in ids
    ensures Place(x) in Places(ids)
  {
  }

  lemma RootLeafy(t: Tree, o: BlockId, h: nat)
    requires Rooted(t, o, h)
    ensures t.backend[o].leafy == (h == 0) && (h > 0 ==> t.backend[o].children != [])
  {
  }

  lemma PurgedKept(nodes: NodeStore, reach: set<BlockId>, purged: seq<BlockId>)
    requires (forall id :: id in nodes ==> IsNodeId(id))
    requires forall x :: x in purged <==> x in nodes && x !in reach
    ensures nodes - IdsOf(purged) == Kept(nodes, reach)
    ensures Places(IdsOf(purged)) == Places(nodes.Keys) - Places((nodes - IdsOf(purged)).Keys)
  {
    hide IsNodeId, Place;
    var kept := nodes - IdsOf(purged);
    assert kept.Keys == nodes.Keys - IdsOf(purged);
    assert nodes.Keys - kept.Keys == IdsOf(purged);
    PlacesMinus(nodes.Keys, kept.Keys);
  }

  lemma WfRootParts(t: Tree, n: Node, h: nat)
    requires WfRoot(t, n, h)
    ensures WfNode(t, n, h) && (n.blockId.None? ==> Dirty(n, h) > 0)
  {
  }

  lemma NewIds(b: NodeStore, used: set<LocationEntry>, ids: seq<BlockId>)
    requires (forall id :: id in b ==> IsNodeId(id)) && Places(b.Keys) <= used
    requires forall i :: 0 <= i < |ids| ==> IsNodeId(ids[i]) && Place(ids[i]) !in used
    ensures forall i :: 0 <= i < |ids| ==> ids[i] !in b && |ids[i]| <= HASH_SIZE
  {
    assert forall id :: id in b.Keys ==> Place(id) in Places(b.Keys);
  }

  lemma PlacesApart(ids: seq<BlockId>, used: set<LocationEntry>)
    requires forall i :: 0 <= i < |ids| ==> IsNodeId(ids[i]) && Place(ids[i]) !in used
    ensures Places(IdsOf(ids)) !! used
  {
    hide IsNodeId, Place;
  }

  lemma TookAll(b: NodeStore, b': NodeStore, ids: seq<BlockId>, rest: seq<BlockId>)
    requires Took(b, b', ids, rest, |ids|)
    ensures b'.Keys == b.Keys + IdsOf(ids)
  {
    assert (set i | 0 <= i < |ids| :: ids[i]) == IdsOf(ids);
  }

  lemma TookPlaces(b: NodeStore, b': NodeStore, ids: seq<BlockId>)
    requires b'.Keys == b.Keys + IdsOf(ids) && (forall id :: id in b ==> IsNodeId(id))
    requires forall i :: 0 <= i < |ids| ==> IsNodeId(ids[i]) && ids[i] !in b
    ensures (forall id :: id in b' ==> IsNodeId(id)) && b'.Keys - b.Keys == IdsOf(ids)
  {
    hide IsNodeId;
  }

  /** A list of nodes that are in use, each once. */
  ghost predicate Freeable(s: seq<BlockId>, used: set<LocationEntry>) {
    Distinct(s) && forall x :: x in s ==> IsNodeId(x) && Place(x) in used
  }

  lemma NothingFreed(used: set<LocationEntry>)
    ensures used == used - Places(IdsOf([]))
  {
  }

  lemma FreeableParts(a: seq<BlockId>, b: seq<BlockId>, used: set<LocationEntry>)
    requires Freeable(a + b, used)
    ensures Freeable(a, used) && Freeable(b, used) && forall x :: x in a ==> x !in b
  {
    hide IsNodeId, Place;
    var s := a + b;
    assert forall i :: 0 <= i < |a| ==> s[i] == a[i];
    assert forall i :: 0 <= i < |b| ==> s[|a| + i] == b[i];
    forall i, j | 0 <= i < |a| && 0 <= j < |b| ensures a[i] != b[j] {
      assert s[i] != s[|a| + j];
    }
    forall x | x in a ensures x in s {
    }
    forall x | x in b ensures x in s {
    }
  }

  /** What is freed later is still in use after the first part is freed. */
  lemma FreedBoth(a: seq<BlockId>, b: seq<BlockId>, used: set<LocationEntry>)
    requires forall x :: x in a || x in b ==> IsNodeId(x)
    ensures used - Places(IdsOf(a)) - Places(IdsOf(b)) == used - Places(IdsOf(a + b))
  {
    hide IsNodeId, Place;
    assert IdsOf(a + b) == IdsOf(a) + IdsOf(b);
    assert Places(IdsOf(a) + IdsOf(b)) == Places(IdsOf(a)) + Places(IdsOf(b));
  }

  lemma StillUsed(a: seq<BlockId>, b: seq<BlockId>, used: set<LocationEntry>)
    requires Freeable(a + b, used)
    ensures (forall x :: x in a ==> IsNodeId(x)) && Freeable(b, used - Places(IdsOf(a)))
  {
    FreeableParts(a, b, used);
    forall x | x in b ensures Place(x) !in Places(IdsOf(a)) {
      assert ToKeySO(Place(x)) == x;
    }
  }

  lemma FreeableLast(below: seq<BlockId>, id: BlockId, used: set<LocationEntry>)
    requires Freeable(below + [id], used)
    ensures (forall x :: x in below + [id] ==> IsNodeId(x)) && Place(id) in used - Places(IdsOf(below))
    ensures used - Places(IdsOf(below)) - {Place(id)} == used - Places(IdsOf(below + [id]))
  {
    StillUsed(below, [id], used);
    assert id in [id];
    FreedBoth(below, [id], used);
    assert Places(IdsOf([id])) == {Place(id)};
  }

  lemma {:induction false} PurgedSplit(b: NodeStore, c: set<BlockId>, es: seq<Entry>, h: nat, n: nat)
    requires h > 0 && n < |es|
    ensures PurgedAll(b, c, es[..n], h) + Purged(b, c, es[n].value, h - 1) <= PurgedAll(b, c, es, h)
    decreases |es|
  {
    var p := es[..|es| - 1];
    if n < |es| - 1 {
      PurgedSplit(b, c, p, h, n);
      assert p[..n] == es[..n];
    } else {
      assert es[..n] == p;
    }
  }

  lemma FreeableSplit(s: seq<BlockId>, a: seq<BlockId>, b: seq<BlockId>, used: set<LocationEntry>)
    requires Freeable(s, used) && a + b <= s
    ensures (forall x :: x in a || x in b ==> IsNodeId(x)) && Freeable(b, used - Places(IdsOf(a)))
  {
    assert s == (a + b) + s[|a + b|..];
    FreeableParts(a + b, s[|a + b|..], used);
    FreeableParts(a, b, used);
    StillUsed(a, b, used);
  }

  ghost function IdsOf(s: seq<BlockId>): set<BlockId> {
    set x | x in s
  }

  /** The device can hold nodes of these sizes, whether or not it grows for each. */
  ghost predicate Enough(total: nat, n: nat, sizes: seq<nat>)
    decreases |sizes|
  {
    sizes == [] ||
    var total' := GrownTotal(total, n, BlockSize(LocationEntry(0, sizes[0])));
    && total' < LIMIT && Enough(total, n, sizes[1..])
    && forall m :: SuperBlockCount(total', m) ==> Enough(total', m, sizes[1..])
  }

  lemma EnoughNext(total: nat, n: nat, sizes: seq<nat>)
    requires sizes != [] && Enough(total, n, sizes)
    ensures GrownTotal(total, n, BlockSize(LocationEntry(0, sizes[0]))) < LIMIT && Enough(total, n, sizes[1..])
    ensures forall m :: SuperBlockCount(GrownTotal(total, n, BlockSize(LocationEntry(0, sizes[0]))), m) ==>
                        Enough(GrownTotal(total, n, BlockSize(LocationEntry(0, sizes[0]))), m, sizes[1..])
  {
  }

  lemma UsedWithin(free: set<LocationEntry>, used: set<LocationEntry>, supers: nat, total: nat, e: LocationEntry)
    requires Divided(free, used, supers, total) && e in used
    ensures total > 0 && SuperBlockCount(total, supers)
  {
    WithinTotal(free + used + SuperBlocks(supers), total, e);
  }

  lemma NextId(ids: seq<BlockId>, id: BlockId)
    requires (forall i :: 0 <= i < |ids| ==> IsNodeId(ids[i])) && Distinct(ids) && IsNodeId(id)
    requires Place(id) !in Places(IdsOf(ids))
    ensures Distinct(ids + [id]) && forall i :: 0 <= i < |ids + [id]| ==> IsNodeId((ids + [id])[i])
    ensures Places(IdsOf(ids + [id])) == Places(IdsOf(ids)) + {Place(id)}
  {
    hide IsNodeId, Place;
    assert forall x :: x in IdsOf(ids) ==> Place(x) in Places(IdsOf(ids));
    assert IdsOf(ids + [id]) == IdsOf(ids) + {id};
    assert id in ids ==> id in IdsOf(ids);
    DistinctConcat(ids, [id]);
  }

  lemma BlockHeld(t: Contents, encode: BlockData -> Value, decode: Value -> BlockData, data: map<Id, BlockData>, id: Id)
    requires Codec(encode, decode) && Holds(t, encode, data) && DataOk(data) && id in data
    ensures BlockKey(id) in t && decode(t[BlockKey(id)]) == data[id]
    ensures |data[id].location| <= 1 && forall i :: 0 <= i < |data[id].location| ==> Fits64(data[id].location[i])
  {
  }

  lemma PlacesOf(ls: LocationSlice)
    requires |ls| <= 1
    ensures (set i | 0 <= i < |ls| :: Rounded(ls[i])) == if ls == [] then {} else {Rounded(ls[0])}
  {
  }

  /** Everything the backend puts into its tree is within the size that tree operations
      demand, and light enough for rebalancing: both keys of a place, and the data of a
      block together with its id. */
  lemma EntriesFit(nodes: NodeStore, e: LocationEntry, id: Id, v: Value)
    requires |id| + HASH_SIZE + |v| <= 1000
    ensures var t := Tree(NODE_SIZE, nodes);
            && t.Valid()
            && IbStack.Even(t, [Entry(SizeKey(e), []), Entry(OffsetKey(e), []), Entry(BlockKey(id), v)], CHILD_OVERHEAD + 1 + HASH_SIZE)
            && Fits(t, NodeDataChild(SizeKey(e), [], None)) && Fits(t, NodeDataChild(OffsetKey(e), [], None))
            && Fits(t, NodeDataChild(BlockKey(id), v, None))
  {
  }

  /** Blocks are not in the indexes of free places. */
  lemma BlockNotIndexed(t: Contents, f: set<LocationEntry>, id: Id, v: Value)
    requires Indexed(t, f)
    ensures Indexed(t[BlockKey(id) := v], f) && Indexed(t - {BlockKey(id)}, f)
  {
    assert Tagged(t[BlockKey(id) := v], SIZE_TAG) == Tagged(t, SIZE_TAG);
    assert Tagged(t[BlockKey(id) := v], OFFSET_TAG) == Tagged(t, OFFSET_TAG);
    assert Tagged(t - {BlockKey(id)}, SIZE_TAG) == Tagged(t, SIZE_TAG);
    assert Tagged(t - {BlockKey(id)}, OFFSET_TAG) == Tagged(t, OFFSET_TAG);
  }

  /** The free places once the front of one is taken. */
  function FreeAfter(f: set<LocationEntry>, e: LocationEntry, n: nat): set<LocationEntry>
    requires n <= e.size
  {
    if n < e.size then f - {e} + {LocationEntry(e.offset + n, e.size - n)} else f - {e}
  }

  lemma SameOtherRefl(t: Contents)
    ensures SameOther(t, t)
  {
  }

  lemma WantedFits(total: nat, n: nat, size: nat)
    requires size > 0 && GrownTotal(total, n, BlockSize(LocationEntry(0, size))) < LIMIT
    ensures Fits64(LocationEntry(0, size))
    ensures BlockSize(LocationEntry(0, size)) > 0 && BlockSize(LocationEntry(0, size)) % BLOCK_SIZE == 0
  {
    GrownCovers(total, n, BlockSize(LocationEntry(0, size)));
  }

  lemma FitIsFree(t: Contents, f: set<LocationEntry>, size: nat, e: LocationEntry)
    requires Indexed(t, f) && BestFit(f, size, e)
    ensures e in f && Whole(e) && e.size >= size && !NoFit(f, size)
  {
  }

  lemma GrownFits(f: set<LocationEntry>, total: nat, size: nat)
    requires size <= total && LocationEntry(total - size, size) in f
    ensures !NoFit(f, size)
  {
  }

  lemma WantedPlace(offset: nat, size: nat)
    requires Whole(LocationEntry(offset, BlockSize(LocationEntry(0, size))))
    ensures Fits64(LocationEntry(offset, size))
    ensures Rounded(LocationEntry(offset, size)) == LocationEntry(offset, BlockSize(LocationEntry(0, size)))
  {
  }

  lemma RestIsWhole(e: LocationEntry)
    requires Whole(e)
    ensures Fits64(e) && Rounded(e) == e && BlockSize(e) == e.size
  {
  }

  lemma LowerNext(prefix: Key, r: Option<Key>, s: Key)
    requires r.Some? ==> Less(s, r.value)
    ensures forall k :: r.Some? && !Less(k, r.value) ==> !Less(k, s)
  {
    forall k | r.Some? && !Less(k, r.value) ensures !Less(k, s) {
      if Less(k, s) {
        LessTransitive(k, s, r.value);
      }
    }
  }

  lemma CountBoth(free: set<LocationEntry>, used: set<LocationEntry>, supers: nat, total: nat, asize: nat, n: nat, m: nat)
    requires Divided(free, used, supers, total) && asize > 0
    requires SuperBlockCount(total, n) && SuperBlockCount(total + asize, m)
    ensures n == supers && (n == m <==> n > 0 && total + asize < SuperBlockOffset(n))
    ensures n == m ==> GrownTotal(total, n, asize) == total + asize
  {
    CountUnique(total, n, supers);
    SameGap(total, total + asize, n, m);
  }

  lemma SameGap(total: nat, more: nat, n: nat, m: nat)
    requires total < more && SuperBlockCount(more, m) && (total > 0 ==> SuperBlockCount(total, n)) && (total == 0 ==> n == 0)
    ensures n == m <==> n > 0 && more < SuperBlockOffset(n)
  {
    if n > 0 && more < SuperBlockOffset(n) {
      CountUnique(more, n, m);
    }
  }

  lemma GrownPast(total: nat, n: nat, asize: nat)
    requires !(n > 0 && total + asize < SuperBlockOffset(n))
    ensures GrownTotal(total, n, asize) == GrownTotal(SuperBlockOffset(n) + SUPERBLOCK_SIZE, n + 1, asize)
    ensures JustBehind(total, n) ==> Excess(n + 1, asize) < Excess(n, asize)
    ensures SuperBlockOffset(n) + SUPERBLOCK_SIZE <= GrownTotal(total, n, asize)
  {
    GrownAtLeast(SuperBlockOffset(n) + SUPERBLOCK_SIZE, n + 1, asize);
    if JustBehind(total, n) {
      ExcessFalls(n, asize);
    }
  }

  lemma {:induction false} GrownCovers(total: nat, n: nat, asize: nat)
    ensures asize <= GrownTotal(total, n, asize)
    decreases !JustBehind(total, n), if JustBehind(total, n) then Excess(n, asize) else 0
  {
    if !(n > 0 && total + asize < SuperBlockOffset(n)) {
      if JustBehind(total, n) {
        ExcessFalls(n, asize);
      }
      GrownCovers(SuperBlockOffset(n) + SUPERBLOCK_SIZE, n + 1, asize);
    }
  }

  lemma {:induction false} GrownAtLeast(total: nat, n: nat, asize: nat)
    requires n > 0 && total < SuperBlockOffset(n)
    ensures total <= GrownTotal(total, n, asize)
    decreases !JustBehind(total, n), if JustBehind(total, n) then Excess(n, asize) else 0
  {
    if total + asize >= SuperBlockOffset(n) {
      if JustBehind(total, n) {
        ExcessFalls(n, asize);
      }
      SuperBlockGap(n);
      GrownAtLeast(SuperBlockOffset(n) + SUPERBLOCK_SIZE, n + 1, asize);
    }
  }
}
