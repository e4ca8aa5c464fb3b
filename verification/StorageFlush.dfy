/** Looking at blocks whose in-memory use has changed, and why flushing ends. */
module StorageFlush {
  import opened Keys
  import opened StorageState
  import opened StorageLemmas

  function Unlist(w: World, x: Id): World {
    w.(dirtyStorageRefBlocks := w.dirtyStorageRefBlocks - {x})
  }

  function Forget(w: World, x: Id): World {
    w.(blocks := w.blocks - {x})
  }

  /** A block that nothing uses leaves memory; another holds in-memory references
      exactly when it has no disk count. */
  function FlushStorageRef(g: Graph, w: World, x: Id): World
    requires x in w.blocks
  {
    if w.blocks[x].storageRefCount == 0 then Forget(SetStorageDeps(g, Unlist(w, x), x, false), x)
    else SetStorageDeps(g, Unlist(w, x), x, w.blocks[x].refCount == 0)
  }

  /** A block that is stored or in use. */
  ghost predicate Live(w: World, b: Id) {
    b in w.backend || Rec(w, b).storageRefCount > 0
  }

  /** Blocks in use that hold references refer to blocks that exist. */
  ghost predicate LiveClosed(g: Graph, w: World) {
    forall b :: Live(w, b) && HasDeps(Rec(w, b).status) ==> Present(g, w, b)
  }

  /** Every block in use without a disk count holds its references in memory. */
  ghost predicate AllHold(w: World) {
    forall b :: Rec(w, b).storageRefCount > 0 && Rec(w, b).refCount == 0 ==> Rec(w, b).haveStorageRefs
  }

  /** What holds while in-memory counts are flushed.  References of blocks that
      are about to leave memory may already be gone, but only once every block in
      use holds its own. */
  ghost predicate Sweeping(g: Graph, w: World) {
    && Core(w, {}) && Balanced(g, w) && NamesOk(w) && w.dirtyBlocks == {}
    && (Closed(g, w) || (LiveClosed(g, w) && AllHold(w)))
  }

  lemma UnlistStep(g: Graph, w: World, x: Id)
    requires Core(w, {}) && Balanced(g, w)
    ensures var w' := Unlist(w, x);
            && Core(w', {x}) && Balanced(g, w') && DiskSame(w', w) && (forall y :: Rec(w', y) == Rec(w, y))
  {
    var w' := Unlist(w, x);
    hide Balanced, DiskSum, StorageSum, DiskLead, StorageLead;
    assert forall y :: Rec(w', y) == Rec(w, y);
    forall y | y !in {x} ensures BlockOk(w', y) && Flagged(w', y) {
      CoreAt(w, {}, y);
    }
    hide Core, Rec, BlockOk, Flagged;
    forall y ensures DiskLead(g, w', y) == DiskLead(g, w, y) && StorageLead(g, w', y) == StorageLead(g, w, y) {
      SameSumLeads(g, w, w', y);
    }
    BalancedLeads(g, w);
    BalancedLeads(g, w');
  }

  lemma SameSumLeads(g: Graph, w: World, w': World, y: Id)
    requires Known(w') == Known(w) && w'.names == w.names && w'.backendNames == w.backendNames
    requires w'.explicit == w.explicit && w'.held == w.held && forall z :: Rec(w', z) == Rec(w, z)
    ensures DiskLead(g, w', y) == DiskLead(g, w, y) && StorageLead(g, w', y) == StorageLead(g, w, y)
  {
    hide Rec, Known, DiskSum, StorageSum;
    SumsSame(g, w, w', y);
  }

  // ----- a block in use

  lemma NothingDirty(w: World, x: Id)
    requires Core(w, {}) && w.dirtyBlocks == {}
    ensures Rec(w, x).stored.None?
  {
    hide Core;
    if x in w.blocks {
      DirtyInCore(w, x, {});
    }
  }

  lemma UsedOk(w: World, w': World, x: Id)
    requires BlockOk(w, x) && w'.backend == w.backend
    requires Rec(w', x) == Rec(w, x).(haveStorageRefs := Rec(w, x).refCount == 0) && Rec(w, x).storageRefCount > 0
    ensures BlockOk(w', x) && Flagged(w', x)
  {
    hide Rec;
  }

  lemma LiveKept(g: Graph, w: World, w': World)
    requires LiveClosed(g, w) && w'.backend == w.backend && Known(w') == Known(w)
    requires forall y :: Rec(w', y).status == Rec(w, y).status && Rec(w', y).storageRefCount <= Rec(w, y).storageRefCount
    ensures LiveClosed(g, w')
  {
    hide Rec, Known;
    forall b | Live(w', b) && HasDeps(Rec(w', b).status) ensures Present(g, w', b) {
      assert Live(w, b);
      assert Present(g, w, b);
    }
  }

  /** A block in use comes to hold references exactly when it has no disk count. */
  lemma FlushUsed(g: Graph, rank: Id -> nat, w: World, x: Id)
    requires Acyclic(g, rank) && Sweeping(g, w) && x in w.dirtyStorageRefBlocks && Rec(w, x).storageRefCount > 0
    ensures x in w.blocks
    ensures var w' := SetStorageDeps(g, Unlist(w, x), x, Rec(w, x).refCount == 0);
            && Sweeping(g, w') && DiskSame(Unlist(w, x), w')
            && w'.dirtyStorageRefBlocks <= w.dirtyStorageRefBlocks - {x} + IdSet(Refs(g, x))
            && (AllHold(w) ==> AllHold(w'))
  {
    hide Core, Balanced, Closed, LiveClosed, AllHold, Rec, Known, SetStorageDeps, NamesOk, BlockOk, Flagged, DiskSame,
      Acyclic, Refs, SameLeads, IdSet, StorageDelta;
    ListedLoaded(w, x);
    var w0 := Unlist(w, x);
    var add := Rec(w, x).refCount == 0;
    var w' := SetStorageDeps(g, w0, x, add);
    UnlistStep(g, w, x);
    DiskSameFields(w0, w);
    UsedPresent(g, w, w0, x);
    SetStorageDepsStep(g, rank, w0, x, add, {x});
    SetStorageDepsCore(g, rank, w0, x, add, {x});
    DiskSameFields(w0, w');
    CoreAt(w, {}, x);
    UsedOk(w, w', x);
    assert {} + {x} == {x};
    CoreNarrow(w', {}, x);
    BalancedKept(g, w0, w');
    UsedClosed(g, w, w0, w', x);
    NamesKept(w, w');
    UsedListed(g, w0, w', x);
  }

  lemma DiskSameFields(w: World, w': World)
    requires DiskSame(w, w')
    ensures w'.backend == w.backend && w'.dirtyBlocks == w.dirtyBlocks && Known(w') == Known(w)
    ensures w'.names == w.names && w'.backendNames == w.backendNames
    ensures w'.explicit == w.explicit && w'.held == w.held
  {
  }

  lemma UsedListed(g: Graph, w: World, w': World, x: Id)
    requires forall y :: y !in Refs(g, x) ==> (y in w'.dirtyStorageRefBlocks <==> y in w.dirtyStorageRefBlocks)
    ensures w'.dirtyStorageRefBlocks <= w.dirtyStorageRefBlocks + IdSet(Refs(g, x))
  {
  }

  lemma NamesKept(w: World, w': World)
    requires NamesOk(w) && w'.names == w.names && w'.backendNames == w.backendNames
    ensures NamesOk(w')
  {
  }

  lemma ListedLoaded(w: World, x: Id)
    requires Core(w, {}) && x in w.dirtyStorageRefBlocks
    ensures x in w.blocks && Rec(w, x) == w.blocks[x]
  {
  }

  lemma UsedPresent(g: Graph, w: World, w0: World, x: Id)
    requires Closed(g, w) || LiveClosed(g, w)
    requires x in w.blocks && Rec(w, x).storageRefCount > 0 && Known(w0) == Known(w) && Rec(w0, x) == Rec(w, x)
    ensures HasDeps(Rec(w0, x).status) ==> Present(g, w0, x)
  {
    assert Live(w, x) && x in Known(w);
  }

  lemma UsedClosed(g: Graph, w: World, w0: World, w': World, x: Id)
    requires Closed(g, w) || (LiveClosed(g, w) && AllHold(w))
    requires Known(w0) == Known(w) && DiskSame(w0, w') && w0.backend == w.backend
    requires Rec(w, x).storageRefCount > 0 && forall y :: Rec(w0, y) == Rec(w, y)
    requires var add := Rec(w, x).refCount == 0;
             forall y :: Rec(w', y) == Plus(if y == x then Rec(w0, x).(haveStorageRefs := add) else Rec(w0, y),
                                            StorageDelta(g, w0, x, add, y))
    ensures Closed(g, w') || (LiveClosed(g, w') && AllHold(w'))
    ensures AllHold(w) ==> AllHold(w')
  {
    var add := Rec(w, x).refCount == 0;
    hide Rec, Known, LiveClosed, Closed, Refs, SameOnDisk;
    assert forall y :: StorageDelta(g, w0, x, add, y) == StorageDelta(g, w, x, add, y);
    if AllHold(w) {
      UsedAll(g, w, w', x, add);
    }
    if Closed(g, w) {
      ClosedKept(g, w, w');
    } else {
      LiveKept(g, w, w');
    }
  }

  lemma UsedAll(g: Graph, w: World, w': World, x: Id, add: bool)
    requires AllHold(w) && add == (Rec(w, x).refCount == 0) && Rec(w, x).storageRefCount > 0
    requires forall y :: Rec(w', y) == Plus(if y == x then Rec(w, x).(haveStorageRefs := add) else Rec(w, y),
                                            StorageDelta(g, w, x, add, y))
    ensures AllHold(w') && forall y :: Rec(w', y).storageRefCount <= Rec(w, y).storageRefCount
  {
    hide Rec, Refs;
    assert add ==> Rec(w, x).haveStorageRefs;
    assert forall y :: StorageDelta(g, w, x, add, y) <= 0;
  }

  // ----- a block that nothing uses

  lemma RefCounted(g: Graph, hs: set<Id>, x: Id, y: Id)
    requires x in hs && y in Refs(g, x)
    ensures RefsTo(g, hs, y) >= 1
  {
    RefsToSplit(g, hs, x, y);
  }

  /** What a holder refers to is counted. */
  lemma HolderCounts(g: Graph, w: World, x: Id, y: Id)
    requires Balanced(g, w) && y in Refs(g, x)
    ensures DiskActive(Rec(w, x)) ==> Rec(w, y).refCount >= 1
    ensures StorageActive(Rec(w, x)) ==> Rec(w, y).storageRefCount >= 1
  {
    hide Rec, RefsTo, DiskHolders, StorageHolders, DiskActive, StorageActive;
    HolderIsActive(w, x);
    if DiskActive(Rec(w, x)) {
      RefCounted(g, DiskHolders(w), x, y);
    }
    if StorageActive(Rec(w, x)) {
      RefCounted(g, StorageHolders(w), x, y);
    }
  }

  lemma HolderPresent(g: Graph, w: World, x: Id)
    requires Balanced(g, w) && StorageActive(Rec(w, x))
    ensures Present(g, w, x)
  {
    hide Balanced;
    forall i | 0 <= i < |Refs(g, x)| ensures Refs(g, x)[i] in Known(w) {
      HolderCounts(g, w, x, Refs(g, x)[i]);
    }
  }

  /** Letting go of the references of a block that is about to leave memory. */
  lemma ReleaseUnused(g: Graph, rank: Id -> nat, w: World, x: Id)
    requires Acyclic(g, rank) && Core(w, {x}) && Balanced(g, w) && x in w.blocks && Rec(w, x).storageRefCount == 0
    ensures var w' := SetStorageDeps(g, w, x, false);
            && Core(w', {x}) && Balanced(g, w') && DiskSame(w, w')
            && Rec(w', x) == Rec(w, x).(haveStorageRefs := false)
            && (forall y :: y != x ==> Rec(w', y).haveStorageRefs == Rec(w, y).haveStorageRefs)
            && (forall y :: Rec(w', y).storageRefCount <= Rec(w, y).storageRefCount)
            && w'.dirtyStorageRefBlocks <= w.dirtyStorageRefBlocks + IdSet(Refs(g, x))
  {
    hide Core, Balanced, SetStorageDeps, Rec, Known, DiskSame, DiskLead, StorageLead, IdSet, StorageActive;
    var w' := SetStorageDeps(g, w, x, false);
    if !Rec(w, x).haveStorageRefs {
      ReleaseNothing(g, w, x);
    } else {
      ReleaseKnown(g, w, x);
      SetStorageDepsStep(g, rank, w, x, false, {x});
      SetStorageDepsCore(g, rank, w, x, false, {x});
      ReleaseLowers(g, w, w', x);
      BalancedKept(g, w, w');
      UsedListed(g, w, w', x);
    }
  }

  lemma ReleaseNothing(g: Graph, w: World, x: Id)
    requires !Rec(w, x).haveStorageRefs
    ensures SetStorageDeps(g, w, x, false) == w && DiskSame(w, w)
  {
    DiskSameRefl(w);
  }

  lemma ReleaseKnown(g: Graph, w: World, x: Id)
    requires Balanced(g, w) && Rec(w, x).haveStorageRefs
    ensures HasDeps(Rec(w, x).status) ==> Present(g, w, x)
  {
    hide Balanced, Rec, Present;
    if HasDeps(Rec(w, x).status) {
      HolderPresent(g, w, x);
    }
  }

  lemma ReleaseLowers(g: Graph, w: World, w': World, x: Id)
    requires forall y :: Rec(w', y) == Plus(if y == x then Rec(w, x).(haveStorageRefs := false) else Rec(w, y),
                                            StorageDelta(g, w, x, false, y))
    ensures forall y :: Rec(w', y).storageRefCount <= Rec(w, y).storageRefCount
  {
    hide Rec, Refs;
    forall y ensures Rec(w', y).storageRefCount <= Rec(w, y).storageRefCount {
      assert StorageDelta(g, w, x, false, y) <= 0;
    }
  }

  lemma ForgetShape(w: World, x: Id)
    requires x in w.blocks && BlockOk(w, x) && Rec(w, x).stored.None?
    requires Rec(w, x).storageRefCount == 0 && !Rec(w, x).haveStorageRefs
    ensures var w' := Forget(w, x);
            && SameElsewhere(w, w', x)
            && (x in w.backend ==> Rec(w', x) == Rec(w, x) && Known(w') == Known(w))
            && (x !in w.backend ==> Rec(w', x) == Rec(w, x).(status := UNSET) && Known(w') == Known(w) - {x}
                                    && Rec(w, x).refCount == 0 && !Rec(w, x).haveDiskRefs)
            && w'.backend == w.backend
  {
  }

  lemma ForgetCore(w: World, x: Id)
    requires Core(w, {x}) && x in w.blocks && BlockOk(w, x) && Rec(w, x).stored.None? && x !in w.dirtyStorageRefBlocks
    requires Rec(w, x).storageRefCount == 0 && !Rec(w, x).haveStorageRefs
    ensures Core(Forget(w, x), {})
  {
    var w' := Forget(w, x);
    ForgetShape(w, x);
    assert w'.dirtyBlocks == set y | y in w'.blocks && w'.blocks[y].stored.Some?;
    forall y ensures BlockOk(w', y) && Flagged(w', y) {
      if y != x {
        CoreAt(w, {x}, y);
      }
    }
  }

  lemma ForgetBalanced(g: Graph, w: World, x: Id)
    requires Balanced(g, w) && x in w.blocks && BlockOk(w, x) && Rec(w, x).stored.None?
    requires Rec(w, x).storageRefCount == 0 && !Rec(w, x).haveStorageRefs
    ensures Balanced(g, Forget(w, x))
  {
    var w' := Forget(w, x);
    ForgetShape(w, x);
    hide Balanced, Forget, DiskLead, StorageLead, Known, BlockOk, Rec;
    BalancedLeads(g, w);
    BalancedLeads(g, w');
    forall y ensures DiskLead(g, w', y) == 0 && StorageLead(g, w', y) == 0 {
      OneBlockLeads(g, w, w', x, y);
    }
  }

  /** No block in use refers to a block that leaves memory for good. */
  lemma ForgetLive(g: Graph, w: World, w': World, x: Id)
    requires Core(w', {}) && Balanced(g, w') && AllHold(w') && LiveClosed(g, w) && w'.dirtyBlocks == {}
    requires w'.backend == w.backend && Known(w) - {x} <= Known(w') && (x in w.backend ==> x in Known(w'))
    requires forall y :: y != x || x in w.backend ==>
                         Rec(w', y).status == Rec(w, y).status && Rec(w', y).storageRefCount <= Rec(w, y).storageRefCount
    requires x !in w.backend ==> Rec(w', x).storageRefCount == 0 && Rec(w', x).refCount == 0
    ensures LiveClosed(g, w')
  {
    forall b | Live(w', b) && HasDeps(Rec(w', b).status) ensures Present(g, w', b) {
      hide Rec, Known, Core, Balanced, LiveClosed, DiskActive, StorageActive, BlockOk, AllHold, Present;
      LivePresent(g, w, b);
      LiveHolds(w', b);
      forall i | 0 <= i < |Refs(g, b)| ensures Refs(g, b)[i] in Known(w') {
        HolderCounts(g, w', b, Refs(g, b)[i]);
        PresentAt(g, w, b, i);
      }
      PresentAll(g, w', b);
    }
  }

  lemma PresentAt(g: Graph, w: World, b: Id, i: nat)
    requires Present(g, w, b) && i < |Refs(g, b)|
    ensures Refs(g, b)[i] in Known(w)
  {
  }

  lemma PresentAll(g: Graph, w: World, b: Id)
    requires forall i :: 0 <= i < |Refs(g, b)| ==> Refs(g, b)[i] in Known(w)
    ensures Present(g, w, b)
  {
  }

  lemma LivePresent(g: Graph, w: World, b: Id)
    requires LiveClosed(g, w) && (b in w.backend || Rec(w, b).storageRefCount > 0) && HasDeps(Rec(w, b).status)
    ensures Present(g, w, b)
  {
    assert Live(w, b);
  }

  lemma LiveHolds(w: World, b: Id)
    requires Core(w, {}) && AllHold(w) && w.dirtyBlocks == {} && Live(w, b) && HasDeps(Rec(w, b).status)
    ensures DiskActive(Rec(w, b)) || StorageActive(Rec(w, b))
  {
    CoreAt(w, {}, b);
    NothingDirty(w, b);
  }

  /** A block that nothing uses leaves memory, with its references. */
  lemma FlushUnused(g: Graph, rank: Id -> nat, w: World, x: Id)
    requires Acyclic(g, rank) && Sweeping(g, w) && x in w.dirtyStorageRefBlocks && Rec(w, x).storageRefCount == 0
    requires LiveClosed(g, w) && AllHold(w)
    ensures x in w.blocks
    ensures var w' := Forget(SetStorageDeps(g, Unlist(w, x), x, false), x);
            && Sweeping(g, w') && LiveClosed(g, w') && AllHold(w')
            && w'.backend == w.backend && w'.names == w.names && w'.backendNames == w.backendNames
            && w'.explicit == w.explicit && w'.held == w.held
            && w'.dirtyStorageRefBlocks <= w.dirtyStorageRefBlocks - {x} + IdSet(Refs(g, x))
  {
    ListedLoaded(w, x);
    hide Core, Balanced, Closed, LiveClosed, AllHold, Rec, Known, SetStorageDeps, NamesOk, BlockOk, Flagged, SameOnDisk,
      Acyclic, Refs, DiskLead, StorageLead, Forget, IdSet;
    var w0 := Unlist(w, x);
    var w1 := SetStorageDeps(g, w0, x, false);
    var w' := Forget(w1, x);
    UnlistStep(g, w, x);
    ReleaseUnused(g, rank, w0, x);
    NothingDirty(w, x);
    CoreAt(w, {}, x);
    UnusedOk(w, w0, w1, x);
    UnusedUnlisted(g, rank, w0, w1, x);
    ForgetShape(w1, x);
    ForgetSame(w1, x);
    ForgetCore(w1, x);
    ForgetBalanced(g, w1, x);
    NamesKept(w, w');
    UnusedAll(w, w0, w1, w', x);
    UnusedLive(g, w, w0, w1, w', x);
  }

  lemma ForgetSame(w: World, x: Id)
    ensures var w' := Forget(w, x);
            && w'.backend == w.backend && w'.names == w.names && w'.backendNames == w.backendNames
            && w'.explicit == w.explicit && w'.held == w.held && w'.dirtyBlocks == w.dirtyBlocks
            && w'.dirtyStorageRefBlocks == w.dirtyStorageRefBlocks
  {
  }

  lemma UnusedOk(w: World, w0: World, w1: World, x: Id)
    requires BlockOk(w, x) && Rec(w, x).stored.None? && Rec(w0, x) == Rec(w, x) && w1.backend == w.backend
    requires Rec(w1, x) == Rec(w0, x).(haveStorageRefs := false)
    ensures BlockOk(w1, x) && Rec(w1, x).stored.None?
  {
    hide Rec;
  }

  lemma UnusedUnlisted(g: Graph, rank: Id -> nat, w0: World, w1: World, x: Id)
    requires Acyclic(g, rank) && x !in w0.dirtyStorageRefBlocks
    requires w1.dirtyStorageRefBlocks <= w0.dirtyStorageRefBlocks + IdSet(Refs(g, x))
    ensures x !in w1.dirtyStorageRefBlocks
  {
    NotOwnRef(g, rank, x);
  }

  lemma UnusedAll(w: World, w0: World, w1: World, w': World, x: Id)
    requires AllHold(w) && SameElsewhere(w1, w', x) && DiskSame(w0, w1)
    requires forall y :: Rec(w0, y) == Rec(w, y)
    requires forall y :: y != x ==> Rec(w1, y).haveStorageRefs == Rec(w0, y).haveStorageRefs
    requires forall y :: Rec(w1, y).storageRefCount <= Rec(w0, y).storageRefCount
    requires Rec(w', x).storageRefCount == 0
    ensures AllHold(w')
  {
    hide Rec, Known;
    assert forall y :: SameOnDisk(Rec(w0, y), Rec(w1, y));
  }

  lemma UnusedLive(g: Graph, w: World, w0: World, w1: World, w': World, x: Id)
    requires LiveClosed(g, w) && Core(w', {}) && Balanced(g, w') && AllHold(w') && w'.dirtyBlocks == {}
    requires DiskSame(w0, w) && DiskSame(w0, w1) && SameElsewhere(w1, w', x) && w'.backend == w.backend
    requires forall y :: Rec(w0, y) == Rec(w, y)
    requires forall y :: Rec(w1, y).storageRefCount <= Rec(w0, y).storageRefCount
    requires x in w.backend ==> Rec(w', x) == Rec(w1, x)
    requires x !in w.backend ==> Rec(w', x) == Rec(w1, x).(status := UNSET) && Rec(w1, x).refCount == 0
                                 && Rec(w1, x).storageRefCount == 0
    ensures LiveClosed(g, w')
  {
    assert w'.backend.Keys <= Known(w');
    hide Rec, Known, Core, Balanced, AllHold, LiveClosed;
    assert forall y :: SameOnDisk(Rec(w0, y), Rec(w1, y));
    ForgetLive(g, w, w', x);
  }

  // ----- before, between and after

  lemma SweepStart(g: Graph, w: World)
    requires Inv(g, w) && w.dirtyBlocks == {}
    ensures Sweeping(g, w)
  {
  }

  /** Once only unused blocks are left on the list, every block in use holds what
      it should. */
  lemma SweepBetween(g: Graph, w: World)
    requires Sweeping(g, w) && forall x :: x in w.dirtyStorageRefBlocks ==> Rec(w, x).storageRefCount == 0
    ensures AllHold(w) && LiveClosed(g, w)
  {
    forall b | Rec(w, b).storageRefCount > 0 && Rec(w, b).refCount == 0 ensures Rec(w, b).haveStorageRefs {
      hide Core, Balanced, Closed, LiveClosed, NamesOk;
      CoreAt(w, {}, b);
      NothingDirty(w, b);
    }
    hide Core, Balanced, NamesOk, AllHold;
    forall b | Live(w, b) && HasDeps(Rec(w, b).status) ensures Present(g, w, b) {
      assert b in Known(w);
    }
  }

  lemma SweepEnd(g: Graph, w: World)
    requires Sweeping(g, w) && w.dirtyStorageRefBlocks == {}
    ensures Inv(g, w)
  {
    hide Balanced, NamesOk, AllHold;
    forall b | b in Known(w) && HasDeps(Rec(w, b).status) ensures Present(g, w, b) {
      hide Core;
      CoreAt(w, {}, b);
      CountNatural(g, w, b);
      assert Live(w, b);
    }
  }

  lemma CountNatural(g: Graph, w: World, b: Id)
    requires Balanced(g, w)
    ensures Rec(w, b).refCount >= 0 && Rec(w, b).storageRefCount >= 0
  {
    hide Rec, DiskSum, StorageSum;
  }

  /** Nothing waits to be written. */
  ghost predicate Flushed(w: World) {
    && w.dirtyBlocks == {} && w.dirtyStorageRefBlocks == {}
    && forall n :: n in w.names ==> w.names[n].oldValue == w.names[n].newValue
  }

  /** The backend holds exactly the blocks with a disk count, as they are, and what
      is persisted refers only to what is persisted. */
  ghost predicate Persisted(g: Graph, w: World) {
    && (forall b :: b in w.backend <==> Rec(w, b).refCount > 0)
    && (forall b :: b in w.backend ==> w.backend[b] == Meta(Rec(w, b).refCount, Rec(w, b).status))
    && (forall b, r :: b in w.backend && HasDeps(w.backend[b].status) && r in Refs(g, b) ==> r in w.backend)
    && (forall n :: n in w.backendNames ==> w.backendNames[n] in w.backend)
    && (forall n :: n in w.names ==>
          w.names[n].newValue == if n in w.backendNames then Some(w.backendNames[n]) else None)
  }

  lemma NamedIsCounted(g: Graph, w: World, n: Name)
    requires Balanced(g, w) && n in w.backendNames
    ensures Rec(w, w.backendNames[n]).refCount > 0
  {
    hide Rec, RefsTo;
    var ns := set k | k in w.backendNames && w.backendNames[k] == w.backendNames[n];
    assert n in ns;
    assert NamesAt(w.backendNames, w.backendNames[n]) == |ns|;
  }

  lemma CleanStored(g: Graph, w: World, b: Id)
    requires Inv(g, w) && w.dirtyBlocks == {}
    ensures b in w.backend <==> Rec(w, b).refCount > 0
    ensures b in w.backend ==> w.backend[b] == Meta(Rec(w, b).refCount, Rec(w, b).status) && Rec(w, b).haveDiskRefs
  {
    hide Core, Balanced, Closed, NamesOk, Flagged;
    CoreAt(w, {}, b);
    NothingDirty(w, b);
    CountNatural(g, w, b);
  }

  /** A block in memory holds in-memory references exactly if it has no disk count and is
      in use, and one that nothing uses is as it was loaded. */
  ghost predicate Tended(w: World) {
    forall b :: b in w.blocks ==>
      && (w.blocks[b].haveStorageRefs <==> w.blocks[b].refCount == 0 && w.blocks[b].storageRefCount > 0)
      && (w.blocks[b].storageRefCount == 0 ==> b in w.backend && w.blocks[b] == Loaded(w.backend[b]))
  }

  lemma FlushedIsTended(g: Graph, w: World)
    requires Inv(g, w) && Flushed(w)
    ensures Tended(w)
  {
    hide Core, Balanced, Closed, NamesOk;
    forall b | b in w.blocks
      ensures w.blocks[b].haveStorageRefs <==> w.blocks[b].refCount == 0 && w.blocks[b].storageRefCount > 0
      ensures w.blocks[b].storageRefCount == 0 ==> b in w.backend && w.blocks[b] == Loaded(w.backend[b]) {
      CoreAt(w, {}, b);
      NothingDirty(w, b);
      CountNatural(g, w, b);
    }
  }

  /** What a flush leaves behind. */
  lemma FlushedIsPersisted(g: Graph, w: World)
    requires Inv(g, w) && Flushed(w)
    ensures Persisted(g, w)
  {
    hide Core, Balanced, Closed, NamesOk, Rec, Refs, HasDeps;
    forall b ensures b in w.backend <==> Rec(w, b).refCount > 0 {
      CleanStored(g, w, b);
    }
    forall b | b in w.backend ensures w.backend[b] == Meta(Rec(w, b).refCount, Rec(w, b).status) {
      CleanStored(g, w, b);
    }
    forall b, r | b in w.backend && HasDeps(w.backend[b].status) && r in Refs(g, b) ensures r in w.backend {
      CleanStored(g, w, b);
      HolderCounts(g, w, b, r);
      CleanStored(g, w, r);
    }
    forall n | n in w.backendNames ensures w.backendNames[n] in w.backend {
      NamedIsCounted(g, w, n);
      CleanStored(g, w, w.backendNames[n]);
    }
    NamesFlushed(w);
  }

  /** The storage as it starts on what a backend holds. */
  function Reopened(w: World): World {
    World(map[], {}, {}, map[], w.backend, w.backendNames, w.explicit, map[])
  }

  lemma ReopenedRec(g: Graph, w: World, b: Id)
    requires Inv(g, w) && w.dirtyBlocks == {}
    ensures Rec(Reopened(w), b).refCount == Rec(w, b).refCount && Rec(Reopened(w), b).storageRefCount == 0
    ensures Rec(Reopened(w), b).stored.None? && !Rec(Reopened(w), b).haveStorageRefs
    ensures DiskActive(Rec(Reopened(w), b)) == DiskActive(Rec(w, b))
  {
    hide Core, Balanced, Closed, NamesOk, Flagged;
    CoreAt(w, {}, b);
    CleanStored(g, w, b);
    CountsNatural(g, w, b);
  }

  lemma ReopenedSums(g: Graph, w: World, b: Id)
    requires Inv(g, w) && w.dirtyBlocks == {}
    ensures DiskSum(g, Reopened(w), b) == DiskSum(g, w, b) && StorageSum(g, Reopened(w), b) == 0
  {
    hide Inv, Rec, Known, DiskActive;
    var w' := Reopened(w);
    forall y ensures y in DiskHolders(w') <==> y in DiskHolders(w) {
      ReopenedRec(g, w, y);
      HolderIsActive(w, y);
      HolderIsActive(w', y);
    }
    assert DiskHolders(w') == DiskHolders(w);
    forall y ensures y !in StorageHolders(w') {
      ReopenedRec(g, w, y);
      HolderIsActive(w', y);
    }
    assert StorageHolders(w') == {};
    ReopenedRec(g, w, b);
  }

  /** After a flush the storage can be closed and opened again: all counts are
      still what they should be. */
  lemma ReopenStep(g: Graph, w: World)
    requires Inv(g, w) && Flushed(w)
    ensures Inv(g, Reopened(w))
  {
    var w' := Reopened(w);
    FlushedIsPersisted(g, w);
    assert Core(w', {}) by {
      forall b ensures BlockOk(w', b) && Flagged(w', b) {
        CleanStored(g, w, b);
        ReopenedRec(g, w, b);
      }
    }
    assert Closed(g, w');
    hide Inv, Rec, Reopened, DiskSum, StorageSum, Persisted;
    forall b ensures Rec(w', b).refCount == DiskSum(g, w', b) && Rec(w', b).storageRefCount == StorageSum(g, w', b) {
      ReopenedRec(g, w, b);
      ReopenedSums(g, w, b);
      ReopenBalance(g, w, b);
    }
    ReopenInv(g, w');
  }

  lemma ReopenBalance(g: Graph, w: World, b: Id)
    requires Inv(g, w)
    ensures Rec(w, b).refCount == DiskSum(g, w, b)
  {
    hide Core, Closed, NamesOk;
  }

  lemma ReopenInv(g: Graph, w: World)
    requires Core(w, {}) && Closed(g, w) && w.names == map[]
    requires forall b :: Rec(w, b).refCount == DiskSum(g, w, b) && Rec(w, b).storageRefCount == StorageSum(g, w, b)
    ensures Inv(g, w)
  {
    hide Core, Closed, DiskSum, StorageSum, Rec;
  }

  lemma NamesFlushed(w: World)
    requires NamesOk(w) && forall n :: n in w.names ==> w.names[n].oldValue == w.names[n].newValue
    ensures forall n :: n in w.names ==>
              w.names[n].newValue == if n in w.backendNames then Some(w.backendNames[n]) else None
  {
  }

  // ----- why it ends

  /** One more than what all references of a block weigh. */
  ghost function Weight(g: Graph, rank: Id -> nat, b: Id): nat
    requires Acyclic(g, rank)
    decreases rank(b)
  {
    1 + WeightAll(g, rank, Refs(g, b), rank(b))
  }

  ghost function WeightAll(g: Graph, rank: Id -> nat, rs: seq<Id>, n: nat): nat
    requires Acyclic(g, rank) && forall i :: 0 <= i < |rs| ==> rank(rs[i]) < n
    decreases n, |rs|
  {
    if rs == [] then 0 else WeightAll(g, rank, rs[..|rs| - 1], n) + Weight(g, rank, rs[|rs| - 1])
  }

  ghost function SetWeight(g: Graph, rank: Id -> nat, s: set<Id>): nat
    requires Acyclic(g, rank)
  {
    if s == {} then 0 else
    var x :| x in s;
    Weight(g, rank, x) + SetWeight(g, rank, s - {x})
  }

  lemma {:induction false} SetWeightSplit(g: Graph, rank: Id -> nat, s: set<Id>, x: Id)
    requires Acyclic(g, rank) && x in s
    ensures SetWeight(g, rank, s) == Weight(g, rank, x) + SetWeight(g, rank, s - {x})
    decreases s
  {
    hide Acyclic, Weight;
    var y :| y in s && SetWeight(g, rank, s) == Weight(g, rank, y) + SetWeight(g, rank, s - {y});
    if y != x {
      SetWeightSplit(g, rank, s - {y}, x);
      SetWeightSplit(g, rank, s - {x}, y);
      assert s - {y} - {x} == s - {x} - {y};
    }
  }

  lemma {:induction false} SetWeightUnion(g: Graph, rank: Id -> nat, s: set<Id>, t: set<Id>, u: set<Id>)
    requires Acyclic(g, rank) && u <= s + t
    ensures SetWeight(g, rank, u) <= SetWeight(g, rank, s) + SetWeight(g, rank, t)
    decreases u
  {
    hide Acyclic, Weight;
    if u != {} {
      var x :| x in u;
      SetWeightSplit(g, rank, u, x);
      if x in s {
        SetWeightSplit(g, rank, s, x);
        SetWeightUnion(g, rank, s - {x}, t, u - {x});
      } else {
        SetWeightSplit(g, rank, t, x);
        SetWeightUnion(g, rank, s, t - {x}, u - {x});
      }
    }
  }

  lemma {:induction false} SetWeightRefs(g: Graph, rank: Id -> nat, rs: seq<Id>, n: nat)
    requires Acyclic(g, rank) && forall i :: 0 <= i < |rs| ==> rank(rs[i]) < n
    ensures SetWeight(g, rank, IdSet(rs)) <= WeightAll(g, rank, rs, n)
    decreases |rs|
  {
    if rs == [] {
      IdSetNone();
    } else {
      var a, b := rs[..|rs| - 1], rs[|rs| - 1];
      assert rs == a + [b];
      hide Acyclic, IdSet, Weight;
      IdSetSnoc(a, b);
      SetWeightRefs(g, rank, a, n);
      SetWeightUnion(g, rank, IdSet(a), {b}, IdSet(rs));
      SetWeightSplit(g, rank, {b}, b);
      assert {b} - {b} == {};
    }
  }

  /** Replacing a block by what it refers to makes a list lighter. */
  lemma Lighter(g: Graph, rank: Id -> nat, s: set<Id>, s': set<Id>, b: Id)
    requires Acyclic(g, rank) && b in s && s' <= s - {b} + IdSet(Refs(g, b))
    ensures SetWeight(g, rank, s') < SetWeight(g, rank, s)
  {
    assert forall i :: 0 <= i < |Refs(g, b)| ==> rank(Refs(g, b)[i]) < rank(b);
    hide Acyclic, IdSet, SetWeight, WeightAll;
    SetWeightSplit(g, rank, s, b);
    SetWeightUnion(g, rank, s - {b}, IdSet(Refs(g, b)), s');
    SetWeightRefs(g, rank, Refs(g, b), rank(b));
  }
}
