/** Changing the status of a block, with the references that depend on it. */
module StorageStatus {
  import opened Keys
  import opened StorageState
  import opened StorageLemmas
  import opened StorageFlush
  import opened StorageJobs

  /** Brings in what `rs` names, up to the first that does not exist. */
  function LoadRefs(w: World, rs: seq<Id>): World
    decreases |rs|
  {
    if rs == [] || (rs[0] !in w.blocks && rs[0] !in w.backend) then w else LoadRefs(Load(w, rs[0]), rs[1..])
  }

  /** Looks again at the in-memory counts of what was brought in. */
  function TouchRefs(w: World, rs: seq<Id>): World
    decreases |rs|
  {
    if rs == [] || rs[0] !in w.blocks then w else TouchRefs(AddStorageRef(w, rs[0], 0), rs[1..])
  }

  predicate AllKnown(w: World, rs: seq<Id>) {
    forall i :: 0 <= i < |rs| ==> rs[i] in w.blocks || rs[i] in w.backend
  }

  /** The references that a block in its new status is to hold. */
  function TakeDeps(g: Graph, w: World, b: Id, st: BlockStatus, disk: bool): World {
    if !HasDeps(st) then w else if disk then AddRefs(g, w, Refs(g, b), 1) else AddStorageRefs(w, Refs(g, b), 1)
  }

  function PutStatus(w: World, b: Id, st: BlockStatus, disk: bool, storage: bool): World {
    if b !in w.blocks then w
    else w.(blocks := w.blocks[b := w.blocks[b].(haveDiskRefs := disk, haveStorageRefs := storage, status := st)])
  }

  function StoredCount(w: World, b: Id): int {
    if b in w.blocks && w.blocks[b].stored.Some? then w.blocks[b].stored.value.refCount else 0
  }

  /** The change itself, once it is known to be possible. */
  function ChangeStatus(g: Graph, w: World, b: Id, st: BlockStatus): World
    requires b in w.blocks
  {
    var w1 := MarkDirty(w, b);
    if HasDeps(st) == HasDeps(w.blocks[b].status) then
      PutStatus(w1, b, st, w.blocks[b].haveDiskRefs, w.blocks[b].haveStorageRefs)
    else
      var disk := StoredCount(w1, b) > 0;
      var w2 := SetStorageDeps(g, TakeDeps(g, w1, b, st, disk), b, false);
      PutStatus(SetDiskDeps(g, w2, b, false), b, st, disk, !disk)
  }

  predicate Gains(w: World, b: Id, st: BlockStatus) {
    HasDeps(st) && !HasDeps(Rec(w, b).status)
  }

  predicate StatusPossible(g: Graph, w: World, b: Id, st: BlockStatus) {
    Gains(w, b, st) ==> AllKnown(w, Refs(g, b))
  }

  function SetStatusJob(g: Graph, w: World, b: Id, st: BlockStatus): World
    requires b in w.blocks
  {
    if w.blocks[b].status == st then w
    else if !Gains(w, b, st) then ChangeStatus(g, w, b, st)
    else
      var w1 := LoadRefs(w, Refs(g, b));
      TouchRefs(if AllKnown(w, Refs(g, b)) && b in w1.blocks then ChangeStatus(g, w1, b, st) else w1, Refs(g, b))
  }

  // ----- bringing in and touching

  lemma {:induction false} LoadRefsStep(g: Graph, w: World, rs: seq<Id>)
    requires Inv(g, w)
    ensures var w' := LoadRefs(w, rs);
            && Inv(g, w') && Known(w') == Known(w) && w.blocks.Keys <= w'.blocks.Keys && w'.backend == w.backend
            && (forall y :: Rec(w', y) == Rec(w, y))
            && (AllKnown(w, rs) ==> forall i :: 0 <= i < |rs| ==> rs[i] in w'.blocks)
            && w'.names == w.names && w'.backendNames == w.backendNames
            && w'.explicit == w.explicit && w'.held == w.held && w'.dirtyBlocks == w.dirtyBlocks
    decreases |rs|
  {
    hide Inv, Rec, Known;
    if rs != [] && (rs[0] in w.blocks || rs[0] in w.backend) {
      LoadStep(g, w, rs[0]);
      LoadRefsStep(g, Load(w, rs[0]), rs[1..]);
    }
  }

  lemma LoadStep(g: Graph, w: World, b: Id)
    requires Inv(g, w)
    ensures Inv(g, Load(w, b)) && Known(Load(w, b)) == Known(w) && forall y :: Rec(Load(w, b), y) == Rec(w, y)
  {
    hide Core, Closed, Balanced, NamesOk, DiskLead, StorageLead, Known, Rec, DiskSame;
    LoadSame(w, b, {});
    DiskSameClosed(g, w, Load(w, b));
    forall y ensures Leads(g, Load(w, b), y, 0, 0) {
      LeadsOfInv(g, w, y);
      LoadLeads(g, w, b, y);
    }
    InvByLeads(g, Load(w, b));
  }

  lemma {:induction false} TouchRefsStep(g: Graph, w: World, rs: seq<Id>)
    requires Inv(g, w)
    ensures Inv(g, TouchRefs(w, rs)) && forall y :: Rec(TouchRefs(w, rs), y).status == Rec(w, y).status
    decreases |rs|
  {
    hide Inv, Rec;
    if rs != [] && rs[0] in w.blocks {
      TouchStep(g, w, rs[0]);
      TouchRefsStep(g, AddStorageRef(w, rs[0], 0), rs[1..]);
    }
  }

  lemma TouchStep(g: Graph, w: World, b: Id)
    requires Inv(g, w) && b in w.blocks
    ensures Inv(g, AddStorageRef(w, b, 0)) && forall y :: Rec(AddStorageRef(w, b, 0), y).status == Rec(w, y).status
  {
    hide Core, Closed, Balanced, NamesOk, DiskLead, StorageLead, Known, Rec, DiskSame, AddStorageRef;
    AddStorageRefStep(w, b, 0, {});
    AddStorageRefLeads(g, w, b, 0, {});
    DiskSameClosed(g, w, AddStorageRef(w, b, 0));
    forall y ensures Leads(g, AddStorageRef(w, b, 0), y, 0, 0) {
      LeadsOfInv(g, w, y);
    }
    InvByLeads(g, AddStorageRef(w, b, 0));
  }

  // ----- the change

  lemma SettledTrans(w: World, w1: World, w2: World, b: Id)
    requires Settled(w, w1, b) && Settled(w1, w2, b)
    ensures Settled(w, w2, b)
  {
    hide Rec, Known;
  }

  lemma SettledRefl(w: World, b: Id)
    ensures Settled(w, w, b)
  {
  }

  lemma SettledByDisk(w: World, w': World, b: Id)
    requires DiskSame(w, w')
    ensures Settled(w, w', b)
  {
    hide Rec, Known;
    assert forall y :: SameOnDisk(Rec(w, y), Rec(w', y));
  }

  lemma SettledByRef(w: World, w': World, b: Id, bs: set<Id>)
    requires RefSame(w, w', bs) && b !in bs
    ensures Settled(w, w', b)
  {
    hide Rec, Known;
    assert forall y :: SameHolding(Rec(w, y), Rec(w', y));
    assert SameCount(Rec(w, b), Rec(w', b));
  }

  lemma SettledClosed(g: Graph, w: World, w': World, b: Id)
    requires Settled(w, w', b)
    ensures Closed(g, w) ==> Closed(g, w')
    ensures NamesOk(w) ==> NamesOk(w')
    ensures b in w.blocks ==> b in w'.blocks
  {
    hide Rec, Known, Closed;
    if Closed(g, w) {
      ClosedKept(g, w, w');
    }
  }

  lemma AddStorageRefsLeads(g: Graph, w: World, rs: seq<Id>, v: int, y: Id, xs: set<Id>)
    requires Core(w, xs) && (v == 1 || v == -1) && forall i :: 0 <= i < |rs| ==> rs[i] in Known(w)
    ensures var w' := AddStorageRefs(w, rs, v);
            && DiskLead(g, w', y) == DiskLead(g, w, y)
            && StorageLead(g, w', y) == StorageLead(g, w, y) + Signed(v == 1, multiset(rs)[y])
  {
    hide Core, Known, Rec, AddStorageRefs, DiskSame, DiskSum, StorageSum;
    var w' := AddStorageRefs(w, rs, v);
    AddStorageRefsStep(w, rs, v, xs);
    DiskSameFields(w, w');
    DiskSameActive(w, w');
    SumsSame(g, w, w', y);
  }

  lemma DiskSameActive(w: World, w': World)
    requires DiskSame(w, w')
    ensures forall y :: DiskActive(Rec(w', y)) == DiskActive(Rec(w, y)) && Rec(w', y).refCount == Rec(w, y).refCount
                        && Rec(w', y).stored == Rec(w, y).stored
  {
    hide Rec, Known;
    forall y ensures DiskActive(Rec(w', y)) == DiskActive(Rec(w, y)) && Rec(w', y).refCount == Rec(w, y).refCount
                     && Rec(w', y).stored == Rec(w, y).stored
    {
      assert SameOnDisk(Rec(w, y), Rec(w', y));
    }
  }

  /** Taking the references of the new status. */
  lemma TakeDepsStep(g: Graph, rank: Id -> nat, w: World, b: Id, st: BlockStatus, disk: bool)
    requires Acyclic(g, rank) && Core(w, {b}) && Closed(g, w) && b in w.blocks
    requires HasDeps(st) ==> Present(g, w, b)
    ensures var w' := TakeDeps(g, w, b, st, disk);
            && Core(w', {b}) && Settled(w, w', b)
            && (forall y :: DiskLead(g, w', y) == DiskLead(g, w, y) + Share(HasDeps(st) && disk, multiset(Refs(g, b))[y])
                            && StorageLead(g, w', y) == StorageLead(g, w, y)
                                                        + Share(HasDeps(st) && !disk, multiset(Refs(g, b))[y]))
  {
    hide Core, Closed, DiskLead, StorageLead, AddRefs, AddStorageRefs, Known, Rec, RefSame, DiskSame, Settled, HasDeps;
    var w' := TakeDeps(g, w, b, st, disk);
    NotOwnRef(g, rank, b);
    if !HasDeps(st) {
      SettledRefl(w, b);
    } else if disk {
      PresentRefs(g, w, b);
      AddRefsStep(g, rank, w, Refs(g, b), 1, {b});
      SettledByRef(w, w', b, IdSet(Refs(g, b)));
    } else {
      AddStorageRefsStep(w, Refs(g, b), 1, {b});
      SettledByDisk(w, w', b);
      forall y ensures DiskLead(g, w', y) == DiskLead(g, w, y)
                       && StorageLead(g, w', y) == StorageLead(g, w, y) + multiset(Refs(g, b))[y]
      {
        AddStorageRefsLeads(g, w, Refs(g, b), 1, y, {b});
      }
    }
  }

  lemma PresentRefs(g: Graph, w: World, b: Id)
    requires Closed(g, w) && Present(g, w, b)
    ensures forall r :: r in Refs(g, b) ==> r in Known(w) && (HasDeps(Rec(w, r).status) ==> Present(g, w, r))
  {
    hide Rec, Known;
  }

  /** Letting go of the references of the old status. */
  lemma DropDepsStep(g: Graph, rank: Id -> nat, w: World, b: Id)
    requires Acyclic(g, rank) && Core(w, {b}) && Closed(g, w) && b in w.blocks
    ensures var w' := SetDiskDeps(g, SetStorageDeps(g, w, b, false), b, false);
            && Core(w', {b}) && Settled(w, w', b) && SameLeads(g, w, w')
            && !Rec(w', b).haveDiskRefs && !Rec(w', b).haveStorageRefs
  {
    hide Core, Closed, DiskLead, StorageLead, SetStorageDeps, SetDiskDeps, Known, Rec, HoldSame, DiskSame, Settled,
      Acyclic, Present, IdSet;
    var w1 := SetStorageDeps(g, w, b, false);
    var w' := SetDiskDeps(g, w1, b, false);
    KnownLoaded(w, b);
    KnownPresent(g, w, b);
    SetStorageDepsStep(g, rank, w, b, false, {b});
    SettledByDisk(w, w1, b);
    SettledClosed(g, w, w1, b);
    SetDiskDepsStep(g, rank, w1, b, false, {b});
    DiskSameRefl(w');
    SettledByHold(w1, w', w', b);
    SettledTrans(w, w1, w', b);
    SameLeadsTrans(g, w, w1, w');
  }

  lemma PutStatusStep(g: Graph, w: World, b: Id, st: BlockStatus, disk: bool, storage: bool)
    requires Core(w, {b}) && b in w.blocks
    ensures var w' := PutStatus(w, b, st, disk, storage);
            && Core(w', {b}) && SameElsewhere(w, w', b) && Known(w') == Known(w)
            && Rec(w', b) == Rec(w, b).(haveDiskRefs := disk, haveStorageRefs := storage, status := st)
            && w'.backend == w.backend && b in w'.blocks
  {
    hide Core;
    var w' := PutStatus(w, b, st, disk, storage);
    DirtyInCore(w, b, {b});
    assert if Rec(w', b).stored.Some? then w.dirtyBlocks + {b} == w.dirtyBlocks else w.dirtyBlocks - {b} == w.dirtyBlocks;
    ReplaceBlock(w, w', b, Rec(w', b), {b});
  }

  lemma PutStatusLeads(g: Graph, w: World, w': World, b: Id, y: Id)
    requires SameElsewhere(w, w', b) && !DiskActive(Rec(w, b)) && !StorageActive(Rec(w, b))
    requires Rec(w', b).refCount == Rec(w, b).refCount && Rec(w', b).storageRefCount == Rec(w, b).storageRefCount
    requires Rec(w', b).stored == Rec(w, b).stored
    ensures DiskLead(g, w', y) == DiskLead(g, w, y) - Share(DiskActive(Rec(w', b)), multiset(Refs(g, b))[y])
    ensures StorageLead(g, w', y) == StorageLead(g, w, y) - Share(StorageActive(Rec(w', b)), multiset(Refs(g, b))[y])
  {
    hide Rec, Known, DiskSum, StorageSum, DiskActive, StorageActive;
    SumsMove(g, w, w', b, y);
  }

  lemma PutStatusClosed(g: Graph, w: World, w': World, b: Id)
    requires Closed(g, w) && SameElsewhere(w, w', b) && Known(w') == Known(w)
    requires HasDeps(Rec(w', b).status) ==> Present(g, w, b)
    ensures Closed(g, w')
  {
    hide Rec, Known;
    forall y | y in Known(w') && HasDeps(Rec(w', y).status) ensures Present(g, w', y) {
      assert Present(g, w, y);
    }
  }

  lemma DirtyChanged(g: Graph, w: World, w': World, b: Id)
    requires BlockOk(w, b) && Rec(w, b).stored.Some? && Leads(g, w', b, 0, 0) && b in w'.blocks
    requires w'.backend == w.backend && Rec(w', b).stored == Rec(w, b).stored && Rec(w', b).backed == Rec(w, b).backed
    requires Rec(w', b).haveDiskRefs == (Rec(w, b).stored.value.refCount > 0)
    ensures BlockOk(w', b) && Flagged(w', b)
  {
    hide DiskLead, StorageLead;
    DirtyInUse(g, w', b);
  }

  lemma DirtyInUse(g: Graph, w: World, b: Id)
    requires StorageLead(g, w, b) == 0 && Rec(w, b).stored.Some?
    ensures Rec(w, b).storageRefCount > 0
  {
    hide Rec, RefsTo, PendingAt, StorageHolders, At;
  }

  lemma MarkedDirty(g: Graph, w: World, b: Id)
    requires Inv(g, w) && b in w.blocks
    ensures var w1 := MarkDirty(w, b);
            && Core(w1, {}) && Core(w1, {b}) && Closed(g, w1) && NamesOk(w1) && b in w1.blocks && Known(w1) == Known(w)
            && BlockOk(w1, b) && Rec(w1, b).stored.Some? && w1.backend == w.backend
            && (forall y :: Rec(w1, y).status == Rec(w, y).status)
            && Rec(w1, b).haveDiskRefs == Rec(w, b).haveDiskRefs
            && Rec(w1, b).haveStorageRefs == Rec(w, b).haveStorageRefs
            && StoredCount(w1, b) == Rec(w1, b).stored.value.refCount
            && forall y :: Leads(g, w1, y, 0, 0)
  {
    hide Core, Closed, Balanced, NamesOk, DiskLead, StorageLead, Known, MarkDirty, BlockOk, Flagged;
    var w1 := MarkDirty(w, b);
    MarkDirtyShape(w, b);
    MarkDirtyStep(g, w, b, {});
    CoreWiden(w1, {}, b);
    assert {} + {b} == {b};
    CoreAt(w1, {}, b);
    hide Rec;
    ClosedKept(g, w, w1);
    NamesKept(w, w1);
    forall y ensures Leads(g, w1, y, 0, 0) {
      LeadsOfInv(g, w, y);
    }
  }

  lemma DirtyDisk(w: World, b: Id)
    requires BlockOk(w, b) && Rec(w, b).stored.Some?
    ensures Rec(w, b).haveDiskRefs == (Rec(w, b).stored.value.refCount > 0)
  {
  }

  lemma SameDepsStep(g: Graph, w: World, b: Id, st: BlockStatus)
    requires Inv(g, w) && b in w.blocks && HasDeps(st) == HasDeps(Rec(w, b).status)
    ensures Inv(g, PutStatus(MarkDirty(w, b), b, st, Rec(w, b).haveDiskRefs, Rec(w, b).haveStorageRefs))
  {
    hide Core, Closed, Balanced, NamesOk, DiskLead, StorageLead, Known, MarkDirty, BlockOk, Flagged, PutStatus, Rec,
      Present;
    var w1 := MarkDirty(w, b);
    var w' := PutStatus(w1, b, st, Rec(w, b).haveDiskRefs, Rec(w, b).haveStorageRefs);
    MarkedDirty(g, w, b);
    PutStatusStep(g, w1, b, st, Rec(w, b).haveDiskRefs, Rec(w, b).haveStorageRefs);
    KnownLoaded(w1, b);
    KnownPresent(g, w1, b);
    PutStatusClosed(g, w1, w', b);
    NamesKept(w1, w');
    forall y ensures Leads(g, w', y, 0, 0) {
      assert Leads(g, w1, y, 0, 0);
      OneBlockLeads(g, w1, w', b, y);
    }
    DirtyDisk(w1, b);
    DirtyChanged(g, w1, w', b);
    assert {} + {b} == {b};
    CoreNarrow(w', {}, b);
    InvByLeads(g, w');
  }

  /** The references of the old status are exchanged for those of the new. */
  lemma ExchangeDeps(g: Graph, rank: Id -> nat, w: World, b: Id, st: BlockStatus, disk: bool)
    requires Acyclic(g, rank) && Core(w, {b}) && Closed(g, w) && NamesOk(w) && b in w.blocks
    requires HasDeps(st) ==> Present(g, w, b)
    requires forall y :: Leads(g, w, y, 0, 0)
    ensures var w2 := SetStorageDeps(g, TakeDeps(g, w, b, st, disk), b, false);
            var w3 := SetDiskDeps(g, w2, b, false);
            && Core(w3, {b}) && Closed(g, w3) && NamesOk(w3) && Settled(w, w3, b) && b in w3.blocks
            && !Rec(w3, b).haveDiskRefs && !Rec(w3, b).haveStorageRefs
            && forall y :: Leads(g, w3, y, Share(HasDeps(st) && disk, multiset(Refs(g, b))[y]),
                                 Share(HasDeps(st) && !disk, multiset(Refs(g, b))[y]))
  {
    hide Core, Closed, NamesOk, DiskLead, StorageLead, Known, Rec, TakeDeps, SetStorageDeps, SetDiskDeps, Settled, Present,
      Acyclic, HasDeps, Refs;
    var w1 := TakeDeps(g, w, b, st, disk);
    var w3 := SetDiskDeps(g, SetStorageDeps(g, w1, b, false), b, false);
    TakeDepsStep(g, rank, w, b, st, disk);
    SettledClosed(g, w, w1, b);
    DropDepsStep(g, rank, w1, b);
    SettledClosed(g, w1, w3, b);
    SettledTrans(w, w1, w3, b);
    forall y ensures Leads(g, w3, y, Share(HasDeps(st) && disk, multiset(Refs(g, b))[y]),
                           Share(HasDeps(st) && !disk, multiset(Refs(g, b))[y]))
    {
      assert Leads(g, w, y, 0, 0);
    }
  }

  lemma PutExchanged(g: Graph, w: World, w3: World, b: Id, st: BlockStatus, disk: bool)
    requires BlockOk(w, b) && Rec(w, b).stored.Some? && disk == (Rec(w, b).stored.value.refCount > 0)
    requires Core(w3, {b}) && Closed(g, w3) && NamesOk(w3) && Settled(w, w3, b) && b in w3.blocks
    requires !Rec(w3, b).haveDiskRefs && !Rec(w3, b).haveStorageRefs
    requires HasDeps(st) ==> Present(g, w, b)
    requires forall y :: Leads(g, w3, y, Share(HasDeps(st) && disk, multiset(Refs(g, b))[y]),
                               Share(HasDeps(st) && !disk, multiset(Refs(g, b))[y]))
    ensures Inv(g, PutStatus(w3, b, st, disk, !disk))
  {
    hide Core, Closed, NamesOk, DiskLead, StorageLead, Known, Rec, Present, BlockOk, Flagged, PutStatus, HasDeps, Refs;
    var w' := PutStatus(w3, b, st, disk, !disk);
    PutStatusStep(g, w3, b, st, disk, !disk);
    PresentKept(g, w, w3, b);
    PutStatusClosed(g, w3, w', b);
    NamesKept(w3, w');
    forall y ensures Leads(g, w', y, 0, 0) {
      assert Leads(g, w3, y, Share(HasDeps(st) && disk, multiset(Refs(g, b))[y]),
                   Share(HasDeps(st) && !disk, multiset(Refs(g, b))[y]));
      PutStatusLeads(g, w3, w', b, y);
    }
    DirtyChanged(g, w, w', b);
    assert {} + {b} == {b};
    CoreNarrow(w', {}, b);
    InvByLeads(g, w');
  }

  /** A status change that is possible keeps the invariant. */
  lemma ChangeStatusStep(g: Graph, rank: Id -> nat, w: World, b: Id, st: BlockStatus)
    requires Acyclic(g, rank) && Inv(g, w) && b in w.blocks && (Gains(w, b, st) ==> Present(g, w, b))
    ensures Inv(g, ChangeStatus(g, w, b, st)) && w.blocks.Keys <= ChangeStatus(g, w, b, st).blocks.Keys
  {
    hide Core, Closed, NamesOk, Balanced, DiskLead, StorageLead, Known, Present, BlockOk, Flagged, PutStatus, TakeDeps,
      SetStorageDeps, SetDiskDeps, Settled, Refs, MarkDirty, Acyclic, HasDeps, StoredCount, Rec, Inv;
    RecOfLoaded(w, b);
    DirtyKeys(w, b);
    if HasDeps(st) == HasDeps(w.blocks[b].status) {
      SameDepsStep(g, w, b, st);
      PutStatusKeys(MarkDirty(w, b), b, st, w.blocks[b].haveDiskRefs, w.blocks[b].haveStorageRefs);
    } else {
      MarkedDirty(g, w, b);
      var w1 := MarkDirty(w, b);
      var disk := StoredCount(w1, b) > 0;
      PresentKept(g, w, w1, b);
      ExchangeDeps(g, rank, w1, b, st, disk);
      var w3 := SetDiskDeps(g, SetStorageDeps(g, TakeDeps(g, w1, b, st, disk), b, false), b, false);
      PutExchanged(g, w1, w3, b, st, disk);
      SettledKeys(w1, w3, b);
      PutStatusKeys(w3, b, st, disk, !disk);
    }
  }

  /** One block has a new status, and no other. */
  ghost predicate StatusMoved(w: World, w': World, b: Id, st: BlockStatus) {
    Rec(w', b).status == st && forall y :: y != b ==> Rec(w', y).status == Rec(w, y).status
  }

  lemma PutStatusMoves(w: World, w1: World, b: Id, st: BlockStatus, disk: bool, storage: bool)
    requires b in w1.blocks && forall y :: Rec(w1, y).status == Rec(w, y).status
    ensures StatusMoved(w, PutStatus(w1, b, st, disk, storage), b, st)
  {
    var w' := PutStatus(w1, b, st, disk, storage);
    forall y | y != b ensures Rec(w', y).status == Rec(w, y).status {
      assert Rec(w', y) == Rec(w1, y);
    }
  }

  lemma ChangedStatus(g: Graph, rank: Id -> nat, w: World, b: Id, st: BlockStatus)
    requires Acyclic(g, rank) && Inv(g, w) && b in w.blocks && (Gains(w, b, st) ==> Present(g, w, b))
    ensures StatusMoved(w, ChangeStatus(g, w, b, st), b, st)
  {
    hide Core, Closed, NamesOk, Balanced, DiskLead, StorageLead, Known, Present, BlockOk, Flagged, PutStatus, TakeDeps,
      SetStorageDeps, SetDiskDeps, Refs, MarkDirty, Acyclic, HasDeps, StoredCount, Rec, Inv, StatusMoved;
    RecOfLoaded(w, b);
    MarkedDirty(g, w, b);
    var w1 := MarkDirty(w, b);
    if HasDeps(st) == HasDeps(w.blocks[b].status) {
      PutStatusMoves(w, w1, b, st, w.blocks[b].haveDiskRefs, w.blocks[b].haveStorageRefs);
    } else {
      var disk := StoredCount(w1, b) > 0;
      PresentKept(g, w, w1, b);
      ExchangeDeps(g, rank, w1, b, st, disk);
      var w3 := SetDiskDeps(g, SetStorageDeps(g, TakeDeps(g, w1, b, st, disk), b, false), b, false);
      PutStatusMoves(w, w3, b, st, disk, !disk);
    }
  }

  lemma PutStatusKeys(w: World, b: Id, st: BlockStatus, disk: bool, storage: bool)
    ensures PutStatus(w, b, st, disk, storage).blocks.Keys == w.blocks.Keys
  {
  }

  lemma DirtyKeys(w: World, b: Id)
    ensures MarkDirty(w, b).blocks.Keys == w.blocks.Keys
  {
  }

  lemma RecOfLoaded(w: World, b: Id)
    requires b in w.blocks
    ensures Rec(w, b) == w.blocks[b] && b in Known(w)
  {
  }

  lemma SettledKeys(w: World, w': World, b: Id)
    requires Settled(w, w', b)
    ensures w.blocks.Keys <= w'.blocks.Keys
  {
  }

  lemma KnownPresentAll(g: Graph, w: World, b: Id)
    ensures Present(g, w, b) <==> AllKnown(w, Refs(g, b))
  {
  }

  /** A status change keeps the invariant, whether it is refused or not. */
  lemma SetStatusStep(g: Graph, rank: Id -> nat, w: World, b: Id, st: BlockStatus)
    requires Acyclic(g, rank) && Inv(g, w) && b in w.blocks
    ensures Inv(g, SetStatusJob(g, w, b, st))
    ensures StatusMoved(w, SetStatusJob(g, w, b, st), b, if StatusPossible(g, w, b, st) then st else w.blocks[b].status)
  {
    hide Inv, Present, ChangeStatus, LoadRefs, TouchRefs, Refs, AllKnown, Acyclic, HasDeps, Known;
    RecOfLoaded(w, b);
    if w.blocks[b].status == st {
    } else if !Gains(w, b, st) {
      ChangeStatusStep(g, rank, w, b, st);
      ChangedStatus(g, rank, w, b, st);
    } else {
      var rs := Refs(g, b);
      var w1 := LoadRefs(w, rs);
      LoadRefsStep(g, w, rs);
      KnownPresentAll(g, w, b);
      PresentKept(g, w, w1, b);
      if AllKnown(w, rs) && b in w1.blocks {
        ChangeStatusStep(g, rank, w1, b, st);
        ChangedStatus(g, rank, w1, b, st);
        TouchRefsStep(g, ChangeStatus(g, w1, b, st), rs);
      } else {
        TouchRefsStep(g, w1, rs);
      }
    }
  }
}
