/** What the storage does not do: it changes no status of a block by itself, and leaves
    no block in memory that nothing uses and that is not going to be looked at. */
module StorageSteady {
  import opened Keys
  import opened StorageState
  import opened StorageLemmas
  import opened StorageFlush
  import opened StorageJobs
  import opened StorageStatus

  /** No block appears, and those that are still known have the status they had. */
  ghost predicate SameStatus(w: World, w': World) {
    forall y :: y in Known(w') ==> y in Known(w) && Rec(w', y).status == Rec(w, y).status
  }

  /** A block is in memory for nothing, and would stay there. */
  ghost predicate Idle(w: World, b: Id) {
    b in w.blocks && w.blocks[b].storageRefCount == 0 && b !in w.dirtyStorageRefBlocks
  }

  /** No block becomes idle. */
  ghost predicate NotIdler(w: World, w': World) {
    forall b :: Idle(w', b) ==> Idle(w, b)
  }

  ghost predicate Steady(w: World, w': World) {
    SameStatus(w, w') && NotIdler(w, w')
  }

  lemma SteadyTrans(w: World, w1: World, w2: World)
    requires Steady(w, w1) && Steady(w1, w2)
    ensures Steady(w, w2)
  {
    hide Rec, Known;
  }

  /** One record is replaced by one with the same status. */
  lemma ReplacedSteady(w: World, w': World, b: Id, r: Block)
    requires b in w.blocks && w'.blocks == w.blocks[b := r] && r.status == w.blocks[b].status
    requires forall y :: y in w.backend && y !in w'.backend ==> y == b
    requires forall y :: y in w'.backend && y != b ==> y in w.backend && w'.backend[y] == w.backend[y]
    requires w.dirtyStorageRefBlocks <= w'.dirtyStorageRefBlocks && (Idle(w', b) ==> Idle(w, b))
    ensures Steady(w, w')
  {
  }

  lemma CountSteady(w: World, b: Id, v: int)
    ensures Steady(w, AddStorageRef(w, b, v))
  {
    hide Steady;
    SteadyRefl(w);
    if b in w.blocks {
      ReplacedSteady(w, AddStorageRef(w, b, v), b, AddStorageRef(w, b, v).blocks[b]);
    }
  }

  lemma LoadStatus(w: World, b: Id)
    ensures SameStatus(w, Load(w, b)) && forall y :: Idle(Load(w, b), y) ==> Idle(w, y) || y == b
  {
  }

  /** A block that is brought in and counted is in use or listed. */
  lemma LoadedSteady(w: World, b: Id, w': World)
    requires Steady(Load(w, b), w') && !Idle(w', b)
    ensures Steady(w, w')
  {
    hide Rec, Known, Load, Idle;
    LoadStatus(w, b);
  }

  lemma LoadCountSteady(w: World, b: Id, v: int)
    ensures Steady(w, AddStorageRef(Load(w, b), b, v))
  {
    hide Steady, Load;
    CountSteady(Load(w, b), b, v);
    LoadedSteady(w, b, AddStorageRef(Load(w, b), b, v));
  }

  lemma {:induction false} AddStorageRefsSteady(w: World, rs: seq<Id>, v: int)
    ensures Steady(w, AddStorageRefs(w, rs, v))
    decreases |rs|
  {
    hide Steady, Load, AddStorageRef;
    if rs == [] {
      SteadyRefl(w);
    } else {
      var w1 := AddStorageRefs(w, rs[..|rs| - 1], v);
      AddStorageRefsSteady(w, rs[..|rs| - 1], v);
      LoadCountSteady(w1, rs[|rs| - 1], v);
      SteadyTrans(w, w1, AddStorageRefs(w, rs, v));
    }
  }

  lemma SteadyRefl(w: World)
    ensures Steady(w, w)
  {
  }

  lemma FlagSteady(w: World, x: Id, add: bool)
    ensures Steady(w, SetStorageFlag(w, x, add)) && Steady(w, SetDiskFlag(w, x, add))
  {
  }

  lemma SetStorageDepsSteady(g: Graph, w: World, x: Id, add: bool)
    ensures Steady(w, SetStorageDeps(g, w, x, add))
  {
    hide Steady, SetStorageFlag, AddStorageRefs;
    SteadyRefl(w);
    var w1 := SetStorageFlag(w, x, add);
    var v := if add then 1 else -1;
    FlagSteady(w, x, add);
    AddStorageRefsSteady(w1, Refs(g, x), v);
    SteadyTrans(w, w1, AddStorageRefs(w1, Refs(g, x), v));
  }

  lemma MarkDirtySteady(w: World, b: Id, count: int)
    requires b in w.blocks
    ensures b in MarkDirty(w, b).blocks && Steady(w, BumpRef(MarkDirty(w, b), b, count))
  {
    hide Steady;
    var w' := BumpRef(MarkDirty(w, b), b, count);
    ReplacedSteady(w, w', b, w'.blocks[b]);
  }

  lemma AddRefSteady(g: Graph, w: World, b: Id, count: int)
    ensures Steady(w, AddRef(g, w, b, count))
    ensures b in w.blocks && count != 0 && !Idle(BumpRef(MarkDirty(w, b), b, count), b) ==> !Idle(AddRef(g, w, b, count), b)
  {
    hide Steady, SetStorageDeps, MarkDirty;
    SteadyRefl(w);
    if count != 0 && b in w.blocks {
      MarkDirtySteady(w, b, count);
      var w2 := BumpRef(MarkDirty(w, b), b, count);
      SetStorageDepsSteady(g, w2, b, true);
      SteadyTrans(w, w2, SetStorageDeps(g, w2, b, true));
      SteadyAt(w2, SetStorageDeps(g, w2, b, true), b);
    }
  }

  lemma SteadyAt(w: World, w': World, y: Id)
    requires Steady(w, w')
    ensures Idle(w', y) ==> Idle(w, y)
  {
  }

  lemma DirtyNotIdle(w: World, b: Id, count: int)
    requires b in w.blocks && w.blocks[b].stored.None?
    ensures b in MarkDirty(w, b).blocks && !Idle(BumpRef(MarkDirty(w, b), b, count), b)
  {
  }

  /** The same for a block that may have to be brought in first. */
  lemma LoadAddRefSteady(g: Graph, w: World, b: Id, count: int)
    requires count != 0
    ensures Steady(w, AddRef(g, Load(w, b), b, count))
  {
    hide Steady, SetStorageDeps, MarkDirty, AddRef;
    AddRefSteady(g, Load(w, b), b, count);
    if b !in w.blocks && b in w.backend {
      DirtyNotIdle(Load(w, b), b, count);
      LoadedSteady(w, b, AddRef(g, Load(w, b), b, count));
    }
  }

  lemma {:induction false} AddRefsSteady(g: Graph, w: World, rs: seq<Id>, v: int)
    requires v != 0
    ensures Steady(w, AddRefs(g, w, rs, v))
    decreases |rs|
  {
    hide Steady, Load, AddRef;
    if rs == [] {
      SteadyRefl(w);
    } else {
      var w1 := AddRefs(g, w, rs[..|rs| - 1], v);
      AddRefsSteady(g, w, rs[..|rs| - 1], v);
      LoadAddRefSteady(g, w1, rs[|rs| - 1], v);
      SteadyTrans(w, w1, AddRefs(g, w, rs, v));
    }
  }

  lemma SetDiskDepsSteady(g: Graph, w: World, x: Id, add: bool)
    ensures Steady(w, SetDiskDeps(g, w, x, add))
  {
    hide Steady, SetDiskFlag, AddRefs;
    SteadyRefl(w);
    var w1 := SetDiskFlag(w, x, add);
    var v := if add then 1 else -1;
    FlagSteady(w, x, add);
    AddRefsSteady(g, w1, Refs(g, x), v);
    SteadyTrans(w, w1, AddRefs(g, w1, Refs(g, x), v));
  }

  lemma WriteCleanSteady(w: World, b: Id)
    ensures b in w.blocks ==> Steady(w, WriteBlock(w, b))
    ensures Steady(w, AddStorageRef(MarkClean(w, b), b, -1))
  {
    hide Steady;
    SteadyRefl(w);
    if b in w.blocks {
      var w1, w2 := WriteBlock(w, b), AddStorageRef(MarkClean(w, b), b, -1);
      assert w.blocks[b := w.blocks[b]] == w.blocks;
      ReplacedSteady(w, w1, b, w1.blocks[b]);
      ReplacedSteady(w, w2, b, w2.blocks[b]);
    }
  }

  /** Writing out a block changes no status, neither its own nor that of what it refers
      to. */
  lemma FlushBlockSteady(g: Graph, w: World, b: Id)
    requires b in w.blocks && w.blocks[b].stored.Some?
    ensures Steady(w, FlushBlock(g, w, b))
  {
    hide Steady, WriteBlock, SetDiskDeps, SetStorageDeps, MarkClean, AddStorageRef;
    var r := w.blocks[b];
    var w1 := WriteBlock(w, b);
    var w2 := SetDiskDeps(g, w1, b, r.refCount != 0);
    WriteCleanSteady(w, b);
    SetDiskDepsSteady(g, w1, b, r.refCount != 0);
    SetStorageDepsSteady(g, w2, b, false);
    var w3 := SetStorageDeps(g, w2, b, false);
    SteadyTrans(w, w1, w2);
    SteadyTrans(w, w2, w3);
    WriteCleanSteady(w1, b);
    WriteCleanSteady(w2, b);
    WriteCleanSteady(w3, b);
    SteadyTrans(w, w1, AddStorageRef(MarkClean(w1, b), b, -1));
    SteadyTrans(w, w2, AddStorageRef(MarkClean(w2, b), b, -1));
    SteadyTrans(w, w3, AddStorageRef(MarkClean(w3, b), b, -1));
  }

  lemma ForgetSteady(w: World, x: Id)
    requires x in w.backend ==> Rec(w, x).status == w.backend[x].status
    ensures Steady(w, Forget(w, x)) && !Idle(Forget(w, x), x)
  {
  }

  /** Looking at a listed block does not, either, and leaves none that is neither used nor
      listed. */
  lemma FlushStorageRefSteady(g: Graph, rank: Id -> nat, w: World, x: Id)
    requires Acyclic(g, rank) && Sweeping(g, w) && x in w.dirtyStorageRefBlocks && x in w.blocks
    requires w.blocks[x].storageRefCount == 0 ==> LiveClosed(g, w) && AllHold(w)
    ensures Steady(w, StorageFlush.FlushStorageRef(g, w, x))
  {
    hide Steady, SetStorageDeps, Forget, Core, Balanced, Closed, NamesOk, LiveClosed, AllHold, Known;
    RecOfLoaded(w, x);
    var w0 := Unlist(w, x);
    if w.blocks[x].storageRefCount == 0 {
      var w1 := SetStorageDeps(g, w0, x, false);
      SetStorageDepsSteady(g, w0, x, false);
      StoredStatus(g, rank, w, x);
      StatusAt(w0, w1, x);
      ForgetSteady(w1, x);
      SteadyTrans(w0, w1, Forget(w1, x));
      UnlistedSteady(w, x, Forget(w1, x));
    } else {
      var w1 := SetStorageDeps(g, w0, x, w.blocks[x].refCount == 0);
      SetStorageDepsSteady(g, w0, x, w.blocks[x].refCount == 0);
      SteadyAt(w0, w1, x);
      UnlistedSteady(w, x, w1);
    }
  }

  lemma UnlistedSteady(w: World, x: Id, w': World)
    requires Steady(Unlist(w, x), w') && !Idle(w', x)
    ensures Steady(w, w')
  {
  }

  lemma StatusAt(w: World, w': World, y: Id)
    requires Steady(w, w') && (y in w'.blocks || y in w'.backend)
    ensures Rec(w', y).status == Rec(w, y).status
  {
    assert y in Known(w');
  }

  lemma StoredStatus(g: Graph, rank: Id -> nat, w: World, x: Id)
    requires Acyclic(g, rank) && Sweeping(g, w) && x in w.blocks && Rec(w, x).storageRefCount == 0
    ensures var w1 := SetStorageDeps(g, Unlist(w, x), x, false);
            w1.backend == w.backend && (x in w1.blocks || x in w1.backend)
    ensures x in w.backend ==> Rec(w, x).status == w.backend[x].status
  {
    hide SetStorageDeps, Core, Balanced, Closed, NamesOk, LiveClosed, AllHold, Known, Refs;
    UnlistStep(g, w, x);
    ReleaseUnused(g, rank, Unlist(w, x), x);
    CoreAt(w, {}, x);
    NothingDirty(w, x);
  }

  lemma {:induction false} FlushNameSteady(g: Graph, w: World, n: Name)
    requires n in w.names
    ensures Steady(w, FlushName(g, w, n))
  {
    hide Steady, AddRef, AddStorageRef, Load, Naming;
    var e := w.names[n];
    var w1 := PutBackendName(w, n, e.newValue);
    SameBlocksSteady(w, w1);
    var w2 := TradeRef(g, w1, n, e.newValue);
    if e.newValue.Some? {
      var b := e.newValue.value;
      var v1 := MoveRef(g, w1, e.newValue, 1);
      var v2 := MoveStorageRef(v1, e.newValue, -1);
      LoadAddRefSteady(g, w1, b, 1);
      LoadCountSteady(v1, b, -1);
      SteadyTrans(w1, v1, v2);
      SameBlocksSteady(v2, w2);
      SteadyTrans(w1, v2, w2);
    }
    SteadyRefl(w1);
    SteadyTrans(w, w1, w2);
    var w3 := MoveRef(g, w2, e.oldValue, -1);
    SteadyRefl(w2);
    if e.oldValue.Some? {
      LoadAddRefSteady(g, w2, e.oldValue.value, -1);
    }
    SteadyTrans(w, w2, w3);
    SameBlocksSteady(w3, FlushName(g, w, n));
    SteadyTrans(w, w3, FlushName(g, w, n));
  }

  lemma SameBlocksSteady(w: World, w': World)
    requires w'.blocks == w.blocks && w'.backend == w.backend && w'.dirtyStorageRefBlocks == w.dirtyStorageRefBlocks
    ensures Steady(w, w')
  {
  }

  // ----- jobs

  lemma NotIdlerTrans(w: World, w1: World, w2: World)
    requires NotIdler(w, w1) && NotIdler(w1, w2)
    ensures NotIdler(w, w2)
  {
    hide Idle;
  }

  lemma SameIdle(w: World, w': World)
    requires w'.blocks == w.blocks && w'.dirtyStorageRefBlocks == w.dirtyStorageRefBlocks
    ensures NotIdler(w, w')
  {
  }

  lemma ReferNotIdler(g: Graph, w: World, b: Id, v: int)
    requires At(w.explicit, b) + v >= 0 && v != 0
    ensures NotIdler(w, ReferJob(g, w, b, v))
  {
    hide AddRef, Load, SameStatus, NotIdler;
    var w1 := Owe(w, b, v, 0);
    SameIdle(w, w1);
    LoadAddRefSteady(g, w1, b, v);
    NotIdlerTrans(w, w1, ReferJob(g, w, b, v));
  }

  lemma HoldNotIdler(w: World, b: Id, v: int)
    requires At(w.held, b) + v >= 0
    ensures NotIdler(w, HoldJob(w, b, v))
  {
    hide AddStorageRef, Load, SameStatus, NotIdler;
    var w1 := Owe(w, b, 0, v);
    SameIdle(w, w1);
    LoadCountSteady(w1, b, v);
    NotIdlerTrans(w, w1, HoldJob(w, b, v));
  }

  /** A new block is in use at once. */
  lemma StoreNotIdler(g: Graph, w: World, b: Id, st: BlockStatus, count: int)
    requires count >= 0 && b !in Known(w)
    ensures NotIdler(w, StoreJob(g, w, b, st, count))
  {
    hide AddRef, SameStatus, AddStorageRef;
    var w1 := Place(Owe(w, b, count, 0), b, st);
    var w2 := AddRef(g, w1, b, count);
    AddRefSteady(g, w1, b, count);
    var w3 := Owe(w2, b, 0, 1);
    SameIdle(w2, w3);
    CountSteady(w3, b, 1);
    CountedNotIdle(w3, b, 1);
    PlacedIdle(w, b, st, count);
  }

  lemma CountedNotIdle(w: World, b: Id, v: int)
    ensures !Idle(AddStorageRef(w, b, v), b)
  {
  }

  lemma PlacedIdle(w: World, b: Id, st: BlockStatus, count: int)
    requires count >= 0
    ensures forall y :: Idle(Place(Owe(w, b, count, 0), b, st), y) ==> Idle(w, y) || y == b
  {
  }

  lemma SetNameNotIdler(w: World, n: Name, v: Option<Id>)
    ensures NotIdler(w, SetNameJob(w, n, v))
  {
    hide AddStorageRef, Load, SameStatus, NotIdler;
    var e, w1 := NameEntry(w, n), GetNameJob(w, n);
    SameIdle(w, w1);
    var w2 := MoveStorageRef(w1, v, 1);
    SteadyRefl(w1);
    if v.Some? {
      LoadCountSteady(w1, v.value, 1);
    }
    NotIdlerTrans(w, w1, w2);
    SteadyRefl(w2);
    if e.newValue.Some? {
      LoadCountSteady(w2, e.newValue.value, -1);
    }
    var w3 := if e.gotStorageRef then MoveStorageRef(w2, e.newValue, -1) else w2;
    NotIdlerTrans(w, w2, w3);
    SameIdle(w3, SetNameJob(w, n, v));
    NotIdlerTrans(w, w3, SetNameJob(w, n, v));
  }

  // ----- a change of status

  /** What is only brought in to see whether it is there is idle until it is touched. */
  lemma {:induction false} LoadedIdle(w: World, rs: seq<Id>, b: Id)
    requires Idle(LoadRefs(w, rs), b) && !Idle(w, b)
    ensures exists i :: 0 <= i < |rs| && rs[i] == b && forall j :: 0 <= j <= i ==> rs[j] in LoadRefs(w, rs).blocks
    decreases |rs|
  {
    hide Idle;
    assert rs != [] && (rs[0] in w.blocks || rs[0] in w.backend);
    var w1, rest := Load(w, rs[0]), rs[1..];
    LoadStatus(w, rs[0]);
    LoadRefsKeep(w1, rest);
    if b == rs[0] {
      assert forall j :: 0 <= j <= 0 ==> rs[j] in LoadRefs(w, rs).blocks;
    } else {
      LoadedIdle(w1, rest, b);
      var i :| 0 <= i < |rest| && rest[i] == b && forall j :: 0 <= j <= i ==> rest[j] in LoadRefs(w1, rest).blocks;
      forall j | 0 <= j <= i + 1 ensures rs[j] in LoadRefs(w, rs).blocks {
        assert j > 0 ==> rs[j] == rest[j - 1];
      }
      assert rs[i + 1] == b;
    }
  }

  lemma {:induction false} LoadRefsKeep(w: World, rs: seq<Id>)
    ensures w.blocks.Keys <= LoadRefs(w, rs).blocks.Keys
    decreases |rs|
  {
    if rs != [] && (rs[0] in w.blocks || rs[0] in w.backend) {
      LoadRefsKeep(Load(w, rs[0]), rs[1..]);
    }
  }

  lemma {:induction false} TouchRefsSteady(w: World, rs: seq<Id>)
    ensures NotIdler(w, TouchRefs(w, rs)) && TouchRefs(w, rs).blocks.Keys == w.blocks.Keys
    decreases |rs|
  {
    hide Idle;
    if rs != [] && rs[0] in w.blocks {
      CountSteady(w, rs[0], 0);
      TouchRefsSteady(AddStorageRef(w, rs[0], 0), rs[1..]);
    }
  }

  lemma {:induction false} TouchedNotIdle(w: World, rs: seq<Id>, i: nat)
    requires i < |rs| && forall j :: 0 <= j <= i ==> rs[j] in w.blocks
    ensures !Idle(TouchRefs(w, rs), rs[i])
    decreases |rs|
  {
    hide Idle, NotIdler;
    var w1, rest := AddStorageRef(w, rs[0], 0), rs[1..];
    assert rs[0] in w.blocks;
    if i == 0 {
      CountedNotIdle(w, rs[0], 0);
      TouchRefsSteady(w1, rest);
      NotIdlerAt(w1, TouchRefs(w1, rest), rs[0]);
    } else {
      forall j | 0 <= j <= i - 1 ensures rest[j] in w1.blocks {
        assert rest[j] == rs[j + 1];
      }
      TouchedNotIdle(w1, rest, i - 1);
    }
  }

  lemma NotIdlerAt(w: World, w': World, y: Id)
    requires NotIdler(w, w')
    ensures Idle(w', y) ==> Idle(w, y)
  {
  }

  lemma MarkDirtyOnly(w: World, b: Id)
    requires b in w.blocks
    ensures NotIdler(w, MarkDirty(w, b))
  {
  }

  lemma PutStatusIdle(w: World, b: Id, st: BlockStatus, disk: bool, storage: bool)
    ensures NotIdler(w, PutStatus(w, b, st, disk, storage))
  {
  }

  lemma ChangeStatusNotIdler(g: Graph, w: World, b: Id, st: BlockStatus)
    requires b in w.blocks
    ensures NotIdler(w, ChangeStatus(g, w, b, st))
  {
    hide SameStatus, NotIdler, AddRefs, AddStorageRefs, SetStorageDeps, SetDiskDeps, MarkDirty, PutStatus;
    var w1 := MarkDirty(w, b);
    MarkDirtyOnly(w, b);
    var disk := StoredCount(w1, b) > 0;
    PutStatusIdle(w1, b, st, w.blocks[b].haveDiskRefs, w.blocks[b].haveStorageRefs);
    NotIdlerTrans(w, w1, PutStatus(w1, b, st, w.blocks[b].haveDiskRefs, w.blocks[b].haveStorageRefs));
    var w2 := TakeDeps(g, w1, b, st, disk);
    SteadyRefl(w1);
    AddRefsSteady(g, w1, Refs(g, b), 1);
    AddStorageRefsSteady(w1, Refs(g, b), 1);
    var w3 := SetStorageDeps(g, w2, b, false);
    SetStorageDepsSteady(g, w2, b, false);
    var w4 := SetDiskDeps(g, w3, b, false);
    SetDiskDepsSteady(g, w3, b, false);
    PutStatusIdle(w4, b, st, disk, !disk);
    NotIdlerTrans(w, w1, w2);
    NotIdlerTrans(w, w2, w3);
    NotIdlerTrans(w, w3, w4);
    NotIdlerTrans(w, w4, PutStatus(w4, b, st, disk, !disk));
  }

  /** Whatever was brought in to see whether it is there is touched afterwards. */
  lemma TouchedAll(w: World, rs: seq<Id>, w1: World)
    requires NotIdler(LoadRefs(w, rs), w1) && LoadRefs(w, rs).blocks.Keys <= w1.blocks.Keys
    ensures NotIdler(w, TouchRefs(w1, rs))
  {
    hide Idle, LoadRefs, TouchRefs;
    forall y | Idle(TouchRefs(w1, rs), y) ensures Idle(w, y) {
      TouchRefsSteady(w1, rs);
      if !Idle(w, y) {
        LoadedIdle(w, rs, y);
        var i :| 0 <= i < |rs| && rs[i] == y && forall j :: 0 <= j <= i ==> rs[j] in LoadRefs(w, rs).blocks;
        TouchedNotIdle(w1, rs, i);
      }
    }
  }

  lemma SetStatusNotIdler(g: Graph, rank: Id -> nat, w: World, b: Id, st: BlockStatus)
    requires Acyclic(g, rank) && Inv(g, w) && b in w.blocks
    ensures NotIdler(w, SetStatusJob(g, w, b, st))
  {
    hide Inv, Present, ChangeStatus, LoadRefs, TouchRefs, Refs, AllKnown, Acyclic, HasDeps, Known, NotIdler;
    SteadyRefl(w);
    if w.blocks[b].status == st {
    } else if !Gains(w, b, st) {
      ChangeStatusNotIdler(g, w, b, st);
    } else {
      var rs := Refs(g, b);
      var w1 := LoadRefs(w, rs);
      LoadRefsStep(g, w, rs);
      KnownPresentAll(g, w, b);
      PresentKept(g, w, w1, b);
      SteadyRefl(w1);
      if AllKnown(w, rs) && b in w1.blocks {
        ChangeStatusStep(g, rank, w1, b, st);
        ChangeStatusNotIdler(g, w1, b, st);
        TouchedAll(w, rs, ChangeStatus(g, w1, b, st));
      } else {
        TouchedAll(w, rs, w1);
      }
    }
  }

  ghost predicate NoneIdle(w: World) {
    forall b :: !Idle(w, b)
  }

  lemma NoneIdleKept(w: World, w': World)
    requires NoneIdle(w) && NotIdler(w, w')
    ensures NoneIdle(w')
  {
    hide Idle;
  }

  /** After a flush every block in memory is in use. */
  lemma FlushedInUse(g: Graph, w: World, b: Id)
    requires Inv(g, w) && NoneIdle(w) && w.dirtyStorageRefBlocks == {} && b in w.blocks
    ensures w.blocks[b].storageRefCount > 0
  {
    hide Core, Balanced, Closed, NamesOk;
    assert !Idle(w, b);
    CountNatural(g, w, b);
  }

  /** A block that is held is in use. */
  lemma HeldNotIdle(g: Graph, w: World, b: Id)
    requires Inv(g, w)
    ensures At(w.held, b) > 0 ==> !Idle(w, b)
  {
    hide Core, Closed, NamesOk, DiskSum;
    assert Rec(w, b).storageRefCount == StorageSum(g, w, b);
  }
}
