/** The storage itself: its methods change the state as the step functions say,
    and none of them ever drives a count below zero or misses a block. */
module Storage {
  import opened Keys
  import opened StorageState
  import opened StorageLemmas
  import opened StorageFlush
  import opened StorageJobs
  import opened StorageStatus
  import opened StorageSteady

  /** No in-memory count is behind what it has to cover. */
  ghost predicate Covered(g: Graph, w: World) {
    forall y :: StorageLead(g, w, y) >= 0
  }

  ghost predicate DiskCovered(g: Graph, w: World) {
    forall y :: DiskLead(g, w, y) >= 0
  }

  lemma CoveredCount(g: Graph, w: World, x: Id, y: Id)
    requires Covered(g, w)
    ensures Rec(w, y).storageRefCount >= 0
    ensures StorageActive(Rec(w, x)) ==> Rec(w, y).storageRefCount >= multiset(Refs(g, x))[y]
  {
    hide Rec, RefsTo, StorageHolders, StorageActive;
    assert StorageLead(g, w, y) >= 0;
    HolderIsActive(w, x);
    if StorageActive(Rec(w, x)) {
      RefsToSplit(g, StorageHolders(w), x, y);
    }
  }

  lemma DiskCoveredCount(g: Graph, w: World, x: Id, y: Id)
    requires DiskCovered(g, w)
    ensures Rec(w, y).refCount >= 0
    ensures DiskActive(Rec(w, x)) ==> Rec(w, y).refCount >= multiset(Refs(g, x))[y]
  {
    hide Rec, RefsTo, DiskHolders, DiskActive;
    assert DiskLead(g, w, y) >= 0;
    HolderIsActive(w, x);
    if DiskActive(Rec(w, x)) {
      RefsToSplit(g, DiskHolders(w), x, y);
    }
  }

  class Storage {
    const graph: Graph
    ghost const rank: Id -> nat
    var blocks: map<Id, Block>
    var dirtyBlocks: set<Id>
    var dirtyStorageRefBlocks: set<Id>
    var names: map<Name, OldNew>
    var backend: map<Id, Meta>
    var backendNames: map<Name, Id>
    var external: map<Id, nat>     // open handles on each block
    ghost var explicit: map<Id, nat>
    ghost var held: map<Id, nat>
    ghost var owed: map<Id, nat>   // in-memory references to be given back by later jobs

    ghost function W(): World
      reads this
    {
      World(blocks, dirtyBlocks, dirtyStorageRefBlocks, names, backend, backendNames, explicit, held)
    }

    /** The counts are right. */
    ghost predicate Sound()
      reads this
    {
      Acyclic(graph, rank) && Inv(graph, W())
    }

    /** And no block is in memory for nothing. */
    ghost predicate Valid()
      reads this
    {
      Sound() && NoneIdle(W())
    }

    /** All handles on a block together hold it once; whoever closes the last one
        sends a job that lets it go. */
    ghost predicate Handles()
      reads this
    {
      forall b :: At(held, b) == Share(At(external, b) > 0, 1) + At(owed, b)
    }

    /** Starts on what a backend holds. */
    constructor (g: Graph, ghost rk: Id -> nat, be: map<Id, Meta>, beNames: map<Name, Id>, ghost refs: map<Id, nat>)
      requires Acyclic(g, rk) && Inv(g, World(map[], {}, {}, map[], be, beNames, refs, map[]))
      ensures Valid() && Handles()
      ensures W() == World(map[], {}, {}, map[], be, beNames, refs, map[]) && graph == g
    {
      graph, rank := g, rk;
      blocks, dirtyBlocks, dirtyStorageRefBlocks := map[], {}, {};
      names, backend, backendNames := map[], be, beNames;
      explicit, held, external, owed := refs, map[], map[], map[];
    }

    method GetBlockById(id: Id) returns (found: bool)
      modifies `blocks
      ensures W() == Load(old(W()), id)
      ensures found <==> id in blocks
      ensures found <==> id in Known(old(W()))
      ensures found ==> blocks[id] == Rec(old(W()), id)
    {
      if id in blocks {
        return true;
      }
      if id !in backend {
        return false;
      }
      blocks := blocks[id := Loaded(backend[id])];
      found := true;
    }

    method AddStorageRefCount(b: Id, v: int)
      requires b in blocks && blocks[b].storageRefCount + v >= 0
      modifies `blocks, `dirtyStorageRefBlocks
      ensures W() == AddStorageRef(old(W()), b, v)
    {
      blocks := blocks[b := blocks[b].(storageRefCount := blocks[b].storageRefCount + v)];
      if blocks[b].storageRefCount == 0 {
        dirtyStorageRefBlocks := dirtyStorageRefBlocks + {b};
      } else if (blocks[b].refCount == 0) != blocks[b].haveStorageRefs {
        dirtyStorageRefBlocks := dirtyStorageRefBlocks + {b};
      }
      assert old(dirtyStorageRefBlocks) + {} == old(dirtyStorageRefBlocks);
    }

    /** One in-memory reference more or less for everything `x` refers to. */
    method SetStorageDependencies(x: Id, add: bool, ghost xs: set<Id>)
      requires Core(W(), xs) && Present(graph, W(), x)
      requires forall y :: Rec(W(), y).storageRefCount >= 0
      requires !add ==> forall y :: Rec(W(), y).storageRefCount >= multiset(Refs(graph, x))[y]
      modifies `blocks, `dirtyStorageRefBlocks
      ensures W() == AddStorageRefs(old(W()), Refs(graph, x), if add then 1 else -1)
    {
      hide Core, Rec, Known, AddStorageRef, AddStorageRefs, Load;
      var rs, i := Refs(graph, x), 0;
      var v := if add then 1 else -1;
      ghost var w := W();
      NoRefs(graph, w, rs[..0], v);
      while i < |rs|
        invariant 0 <= i <= |rs|
        invariant W() == AddStorageRefs(w, rs[..i], v)
      {
        AddStorageRefsNext(w, rs, i, v);
        StorageRefsSoFar(w, rs, i, v, xs);
        var found := GetBlockById(rs[i]);
        AddStorageRefCount(rs[i], v);
        i := i + 1;
      }
      assert rs[..i] == rs;
    }

    method ShouldHaveStorageDependencies(x: Id, add: bool, ghost xs: set<Id>) returns (changed: bool)
      requires Core(W(), xs) && x in xs && x in blocks && Covered(graph, W())
      requires Acyclic(graph, rank)
      requires blocks[x].haveStorageRefs != add && HasDeps(blocks[x].status) ==> Present(graph, W(), x)
      modifies `blocks, `dirtyStorageRefBlocks
      ensures W() == SetStorageDeps(graph, old(W()), x, add)
      ensures changed <==> old(blocks[x].haveStorageRefs) != add
    {
      if blocks[x].haveStorageRefs == add {
        return false;
      }
      ghost var w := W();
      assert Rec(w, x) == blocks[x];
      blocks := blocks[x := blocks[x].(haveStorageRefs := add)];
      hide Core, Rec, Known, Covered, Acyclic, Present, AddStorageRefs;
      assert W() == SetStorageFlag(w, x, add);
      SetStorageFlagStep(w, x, add, xs);
      if HasDeps(blocks[x].status) {
        PresentKept(graph, w, W(), x);
        forall y ensures Rec(W(), y).storageRefCount >= 0
                         && (!add ==> Rec(W(), y).storageRefCount >= multiset(Refs(graph, x))[y])
        {
          CoveredCount(graph, w, x, y);
        }
        SetStorageDependencies(x, add, xs);
      }
      changed := true;
    }

    method MarkDirty(b: Id)
      requires b in blocks && blocks[b].storageRefCount >= 0
      modifies `blocks, `dirtyStorageRefBlocks, `dirtyBlocks
      ensures W() == StorageState.MarkDirty(old(W()), b)
    {
      if blocks[b].stored.Some? {
        return;
      }
      AddStorageRefCount(b, 1);
      blocks := blocks[b := blocks[b].(stored := Some(Meta(blocks[b].refCount, blocks[b].status)))];
      dirtyBlocks := dirtyBlocks + {b};
    }

    method AddRefCount(b: Id, count: int, ghost xs: set<Id>)
      requires b in blocks && blocks[b].refCount + count >= 0
      requires Core(W(), xs) && Covered(graph, W()) && Acyclic(graph, rank)
      requires HasDeps(blocks[b].status) ==> Present(graph, W(), b)
      modifies `blocks, `dirtyStorageRefBlocks, `dirtyBlocks
      ensures W() == AddRef(graph, old(W()), b, count)
    {
      if count == 0 {
        return;
      }
      ghost var w := W();
      assert Rec(w, b) == blocks[b];
      CoveredCount(graph, w, b, b);
      MarkDirty(b);
      blocks := blocks[b := blocks[b].(refCount := blocks[b].refCount + count)];
      assert W() == BumpRef(StorageState.MarkDirty(w, b), b, count);
      hide Core, Known, Covered, Acyclic, Present, SetStorageDeps, StorageState.MarkDirty, DiskLead, StorageLead;
      AddRefFirst(graph, w, b, count, xs);
      if blocks[b].refCount == 0 {
        CoreWiden(W(), xs, b);
        PresentKept(graph, w, W(), b);
        CoveredKept(graph, w, W());
        var _ := ShouldHaveStorageDependencies(b, true, xs + {b});
      }
    }

    /** One disk reference more or less for everything `x` refers to. */
    method SetDiskDependencies(x: Id, add: bool, ghost xs: set<Id>)
      requires Core(W(), xs) && Present(graph, W(), x) && Closed(graph, W()) && Covered(graph, W())
      requires Acyclic(graph, rank) && forall y :: Rec(W(), y).refCount >= 0
      requires !add ==> forall y :: Rec(W(), y).refCount >= multiset(Refs(graph, x))[y]
      modifies `blocks, `dirtyStorageRefBlocks, `dirtyBlocks
      ensures W() == AddRefs(graph, old(W()), Refs(graph, x), if add then 1 else -1)
    {
      hide Core, Rec, Known, AddRef, AddRefs, Load, Covered, Acyclic, Closed, Present;
      var rs, i := Refs(graph, x), 0;
      var v := if add then 1 else -1;
      ghost var w := W();
      PresentRefs(graph, w, x);
      NoRefs(graph, w, rs[..0], v);
      while i < |rs|
        invariant 0 <= i <= |rs|
        invariant W() == AddRefs(graph, w, rs[..i], v)
      {
        AddRefsNext(graph, w, rs, i, v);
        DiskRefsSoFar(graph, rank, w, rs, i, v, xs);
        var found := GetBlockById(rs[i]);
        AddRefCount(rs[i], v, xs);
        i := i + 1;
      }
      assert rs[..i] == rs;
    }

    method ShouldHaveDiskDependencies(x: Id, add: bool, ghost xs: set<Id>)
      requires Core(W(), xs) && x in xs && x in blocks && Closed(graph, W())
      requires Covered(graph, W()) && DiskCovered(graph, W()) && Acyclic(graph, rank)
      modifies `blocks, `dirtyStorageRefBlocks, `dirtyBlocks
      ensures W() == SetDiskDeps(graph, old(W()), x, add)
    {
      if blocks[x].haveDiskRefs == add {
        return;
      }
      ghost var w := W();
      assert Rec(w, x) == blocks[x] && x in Known(w);
      blocks := blocks[x := blocks[x].(haveDiskRefs := add)];
      assert W() == SetDiskFlag(w, x, add);
      hide Core, Rec, Known, Covered, DiskCovered, Acyclic, Present, AddRefs, Closed;
      SetDiskFlagStep(w, x, add, xs);
      if HasDeps(blocks[x].status) {
        KnownPresent(graph, w, x);
        PresentKept(graph, w, W(), x);
        ClosedKept(graph, w, W());
        FlagCovered(graph, w, W(), x);
        forall y ensures Rec(W(), y).refCount >= 0 && (!add ==> Rec(W(), y).refCount >= multiset(Refs(graph, x))[y]) {
          DiskCoveredCount(graph, w, x, y);
        }
        SetDiskDependencies(x, add, xs);
      }
    }

    // ----- the backend, as its interface promises

    method DeleteBlock(b: Id)
      requires b in backend
      modifies `backend
      ensures backend == old(backend) - {b}
    {
      backend := backend - {b};
    }

    method StoreBlock(b: Id, m: Meta)
      requires b !in backend
      modifies `backend
      ensures backend == old(backend)[b := m]
    {
      backend := backend[b := m];
    }

    method UpdateBlock(b: Id, m: Meta) returns (ops: nat)
      requires b in backend
      modifies `backend
      ensures backend == old(backend)[b := m] && ops == 1
    {
      backend := backend[b := m];
      ops := 1;
    }

    // ----- flushing

    method WriteBlock(b: Id) returns (ops: nat)
      requires b in blocks && BlockOk(W(), b)
      modifies `blocks, `backend
      ensures W() == StorageState.WriteBlock(old(W()), b) && ops == 1
    {
      var r := blocks[b];
      if r.refCount == 0 {
        if r.backed {
          DeleteBlock(b);
          blocks := blocks[b := r.(backed := false)];
        }
        ops := 1;
      } else if !r.backed {
        StoreBlock(b, Meta(r.refCount, r.status));
        blocks := blocks[b := r.(backed := true)];
        ops := 1;
      } else {
        ops := UpdateBlock(b, Meta(r.refCount, r.status));
        assert blocks[b := r.(backed := true)] == blocks;
      }
    }

    method SettleDependencies(b: Id, hadRefs: bool, haveRefs: bool)
      requires Acyclic(graph, rank) && Core(W(), {b}) && b in blocks && Closed(graph, W())
      requires Covered(graph, W()) && DiskCovered(graph, W())
      requires var wd := SetDiskDeps(graph, W(), b, haveRefs);
               && Core(wd, {b}) && b in wd.blocks && Covered(graph, wd)
               && (HasDeps(wd.blocks[b].status) ==> Present(graph, wd, b))
      modifies `blocks, `dirtyStorageRefBlocks, `dirtyBlocks
      ensures W() == SettleDeps(graph, old(W()), b, hadRefs, haveRefs)
    {
      hide Core, Closed, Acyclic, SetDiskDeps, SetStorageDeps, Covered, DiskCovered, Present;
      if hadRefs != haveRefs {
        ShouldHaveDiskDependencies(b, haveRefs, {b});
        if haveRefs {
          var _ := ShouldHaveStorageDependencies(b, false, {b});
        }
      }
    }

    /** Writes out what has changed of a block. */
    method FlushBlock(b: Id) returns (ops: nat)
      requires Valid() && b in blocks && blocks[b].stored.Some?
      modifies `blocks, `dirtyStorageRefBlocks, `dirtyBlocks, `backend
      ensures W() == StorageState.FlushBlock(graph, old(W()), b)
      ensures Valid() && ops == 1 && Steady(old(W()), W())
      ensures dirtyBlocks <= old(dirtyBlocks) - {b} + IdSet(Refs(graph, b))
      ensures old(blocks[b].refCount != 0 && !blocks[b].haveDiskRefs) ==> !Rec(W(), b).haveStorageRefs
    {
      hide Core, Balanced, Closed, NamesOk, BlockOk, Rec, Known, Acyclic, StorageState.WriteBlock, SetDiskDeps, SettleDeps,
        AddStorageRef, Covered, DiskCovered, IdSet, Present, Inv, Refs, SameStatus, Idle;
      ghost var w := W();
      FlushBlockSteady(graph, w, b);
      NoneIdleKept(w, StorageState.FlushBlock(graph, w, b));
      var hadRefs := blocks[b].backed && blocks[b].stored.value.refCount != 0;
      var haveRefs := blocks[b].refCount != 0;
      HadRefs(graph, w, b);
      FlushBlockReady(graph, rank, w, b, haveRefs);
      ops := WriteBlock(b);
      SettleDependencies(b, hadRefs, haveRefs);
      blocks := blocks[b := blocks[b].(stored := None)];
      dirtyBlocks := dirtyBlocks - {b};
      AddStorageRefCount(b, -1);
      DirtyStored(graph, w, b);
      FlushBlockStep(graph, rank, w, b);
    }

    /** Writes out dirty blocks until there are none: first those with a disk
        count, as they may add references; once only removals are left, those. */
    method FlushDirtyBlocks() returns (ops: nat)
      requires Valid()
      modifies `blocks, `dirtyStorageRefBlocks, `dirtyBlocks, `backend
      ensures Valid() && dirtyBlocks == {} && Steady(old(W()), W())
    {
      hide Inv, Acyclic, SetWeight, Steady;
      ops := 0;
      SteadyRefl(W());
      while dirtyBlocks != {}
        invariant Valid() && Steady(old(W()), W())
        decreases SetWeight(graph, rank, dirtyBlocks)
      {
        ghost var w := W();
        var counted := FlushCounted();
        ops := ops + counted;
        SteadyTrans(old(W()), w, W());
        if counted == 0 {
          w := W();
          var removed := FlushUncounted();
          SteadyTrans(old(W()), w, W());
          ops := ops + removed;
        }
      }
    }

    /** One pass over the dirty blocks with a disk count.  Blocks that become dirty
        during the pass may be met in it or not. */
    method FlushCounted() returns (ops: nat)
      requires Valid()
      modifies `blocks, `dirtyStorageRefBlocks, `dirtyBlocks, `backend
      ensures Valid() && Steady(old(W()), W())
      ensures ops > 0 ==> SetWeight(graph, rank, dirtyBlocks) < SetWeight(graph, rank, old(dirtyBlocks))
      ensures ops == 0 ==> W() == old(W()) && forall b :: b in dirtyBlocks ==> b in blocks && blocks[b].refCount == 0
    {
      hide Inv, Acyclic, SetWeight, Refs, IdSet, Steady;
      var todo := dirtyBlocks;
      ops := 0;
      SteadyRefl(W());
      while todo != {}
        invariant Valid() && Steady(old(W()), W())
        invariant ops > 0 ==> SetWeight(graph, rank, dirtyBlocks) < SetWeight(graph, rank, old(dirtyBlocks))
        invariant ops == 0 ==> W() == old(W())
                               && forall b :: b in dirtyBlocks ==> b in todo || (b in blocks && blocks[b].refCount == 0)
        decreases SetWeight(graph, rank, dirtyBlocks), todo
      {
        var b :| b in todo;
        todo := todo - {b};
        DirtyStored(graph, W(), b);
        if b in dirtyBlocks && blocks[b].refCount != 0 {
          ghost var before, w := dirtyBlocks, W();
          var n := FlushBlock(b);
          SteadyTrans(old(W()), w, W());
          Lighter(graph, rank, before, dirtyBlocks, b);
          ops := ops + n;
          var more: set<Id> := *;
          todo := todo + more * dirtyBlocks;
        }
      }
    }

    /** One pass over the dirty blocks without a disk count, until one is met that
        has one again. */
    method FlushUncounted() returns (ops: nat)
      requires Valid() && dirtyBlocks != {}
      requires forall b :: b in dirtyBlocks ==> b in blocks && blocks[b].refCount == 0
      modifies `blocks, `dirtyStorageRefBlocks, `dirtyBlocks, `backend
      ensures Valid() && ops > 0 && Steady(old(W()), W())
      ensures SetWeight(graph, rank, dirtyBlocks) < SetWeight(graph, rank, old(dirtyBlocks))
    {
      hide Inv, Acyclic, SetWeight, Refs, IdSet, Steady;
      var todo := dirtyBlocks;
      ops := 0;
      SteadyRefl(W());
      while todo != {}
        invariant Valid() && Steady(old(W()), W())
        invariant ops > 0 ==> SetWeight(graph, rank, dirtyBlocks) < SetWeight(graph, rank, old(dirtyBlocks))
        invariant ops == 0 ==> W() == old(W()) && todo == dirtyBlocks
        decreases SetWeight(graph, rank, dirtyBlocks), todo
      {
        var b :| b in todo;
        todo := todo - {b};
        DirtyStored(graph, W(), b);
        if b in dirtyBlocks {
          if blocks[b].refCount != 0 {
            break;
          }
          ghost var before, w := dirtyBlocks, W();
          var n := FlushBlock(b);
          SteadyTrans(old(W()), w, W());
          Lighter(graph, rank, before, dirtyBlocks, b);
          ops := ops + n;
          var more: set<Id> := *;
          todo := todo + more * dirtyBlocks;
        }
      }
    }

    /** Looks at a block whose in-memory count has changed. */
    method FlushStorageRef(x: Id) returns (ops: nat)
      requires Acyclic(graph, rank) && Sweeping(graph, W()) && x in dirtyStorageRefBlocks && x in blocks
      requires blocks[x].storageRefCount == 0 ==> LiveClosed(graph, W()) && AllHold(W())
      modifies `blocks, `dirtyStorageRefBlocks
      ensures Sweeping(graph, W()) && Steady(old(W()), W())
      ensures W() == StorageFlush.FlushStorageRef(graph, old(W()), x)
      ensures dirtyStorageRefBlocks <= old(dirtyStorageRefBlocks) - {x} + IdSet(Refs(graph, x))
      ensures AllHold(old(W())) ==> AllHold(W())
      ensures old(blocks[x].storageRefCount == 0) ==> ops > 0 && LiveClosed(graph, W())
      ensures ops == 0 ==> W() == Unlist(old(W()), x)
    {
      hide Sweeping, Acyclic, LiveClosed, AllHold, Core, Covered, Present, SetStorageDeps, Forget, Unlist, Refs, IdSet, Rec,
        Steady;
      ghost var w := W();
      FlushStorageRefSteady(graph, rank, w, x);
      SweepReady(graph, w, x);
      ListReady(w, x);
      dirtyStorageRefBlocks := dirtyStorageRefBlocks - {x};
      if blocks[x].storageRefCount == 0 {
        FlushUnused(graph, rank, w, x);
        var _ := ShouldHaveStorageDependencies(x, false, {x});
        ForgetReady(W(), x);
        blocks := blocks - {x};
        return 1;
      }
      FlushUsed(graph, rank, w, x);
      var changed := ShouldHaveStorageDependencies(x, blocks[x].refCount == 0, {x});
      KeptFlag(graph, Unlist(w, x), x, old(blocks[x].refCount) == 0);
      ops := if changed then 1 else 0;
    }

    /** Looks at listed blocks until there are none: first those in use, as they
        may take references; once nothing changes there, those not in use. */
    method FlushStorageRefs() returns (ops: nat)
      requires Valid() && dirtyBlocks == {}
      modifies `blocks, `dirtyStorageRefBlocks
      ensures Valid() && dirtyStorageRefBlocks == {} && Steady(old(W()), W())
    {
      hide Sweeping, Inv, SetWeight, Acyclic, LiveClosed, AllHold, SameStatus, Idle;
      SweepStart(graph, W());
      SteadyRefl(W());
      ops := 0;
      while dirtyStorageRefBlocks != {}
        invariant Acyclic(graph, rank) && Sweeping(graph, W()) && Steady(old(W()), W())
        decreases SetWeight(graph, rank, dirtyStorageRefBlocks)
      {
        ghost var w := W();
        var used := FlushUsedPass();
        ops := ops + used;
        SteadyTrans(old(W()), w, W());
        if used == 0 && dirtyStorageRefBlocks != {} {
          w := W();
          var dropped := FlushUnusedPass();
          SteadyTrans(old(W()), w, W());
          ops := ops + dropped;
        }
      }
      SweepEnd(graph, W());
    }

    method FlushUsedPass() returns (ops: nat)
      requires Acyclic(graph, rank) && Sweeping(graph, W())
      modifies `blocks, `dirtyStorageRefBlocks
      ensures Sweeping(graph, W()) && Steady(old(W()), W())
      ensures dirtyStorageRefBlocks == old(dirtyStorageRefBlocks)
              || SetWeight(graph, rank, dirtyStorageRefBlocks) < SetWeight(graph, rank, old(dirtyStorageRefBlocks))
      ensures ops > 0 ==> dirtyStorageRefBlocks != old(dirtyStorageRefBlocks)
      ensures ops == 0 ==> forall b :: b in dirtyStorageRefBlocks ==> b in blocks && blocks[b].storageRefCount == 0
    {
      hide Sweeping, Acyclic, SetWeight, Refs, IdSet, AllHold, LiveClosed, StorageFlush.FlushStorageRef, Steady;
      var todo := dirtyStorageRefBlocks;
      ghost var touched := false;
      ops := 0;
      SteadyRefl(W());
      while todo != {}
        invariant Sweeping(graph, W()) && Steady(old(W()), W())
        invariant touched ==>
          SetWeight(graph, rank, dirtyStorageRefBlocks) < SetWeight(graph, rank, old(dirtyStorageRefBlocks))
        invariant !touched ==> dirtyStorageRefBlocks == old(dirtyStorageRefBlocks) && ops == 0
        invariant ops == 0 ==>
          forall b :: b in dirtyStorageRefBlocks ==> b in todo || (b in blocks && blocks[b].storageRefCount == 0)
        decreases SetWeight(graph, rank, dirtyStorageRefBlocks), todo
      {
        var b :| b in todo;
        todo := todo - {b};
        if b in dirtyStorageRefBlocks {
          SweepReady(graph, W(), b);
          if blocks[b].storageRefCount != 0 {
            ghost var before, w := dirtyStorageRefBlocks, W();
            var n := FlushStorageRef(b);
            SteadyTrans(old(W()), w, W());
            Lighter(graph, rank, before, dirtyStorageRefBlocks, b);
            touched := true;
            ops := ops + n;
            var more: set<Id> := *;
            todo := todo + more * dirtyStorageRefBlocks;
          }
        }
      }
    }

    method FlushUnusedPass() returns (ops: nat)
      requires Acyclic(graph, rank) && Sweeping(graph, W()) && dirtyStorageRefBlocks != {}
      requires forall b :: b in dirtyStorageRefBlocks ==> b in blocks && blocks[b].storageRefCount == 0
      modifies `blocks, `dirtyStorageRefBlocks
      ensures Sweeping(graph, W()) && Steady(old(W()), W())
      ensures SetWeight(graph, rank, dirtyStorageRefBlocks) < SetWeight(graph, rank, old(dirtyStorageRefBlocks))
    {
      SweepBetween(graph, W());
      hide Sweeping, Acyclic, SetWeight, Refs, IdSet, AllHold, LiveClosed, StorageFlush.FlushStorageRef, Steady;
      var todo := dirtyStorageRefBlocks;
      ops := 0;
      SteadyRefl(W());
      while todo != {}
        invariant Sweeping(graph, W()) && LiveClosed(graph, W()) && AllHold(W()) && Steady(old(W()), W())
        invariant ops > 0 ==>
          SetWeight(graph, rank, dirtyStorageRefBlocks) < SetWeight(graph, rank, old(dirtyStorageRefBlocks))
        invariant ops == 0 ==> W() == old(W()) && todo == dirtyStorageRefBlocks
        decreases SetWeight(graph, rank, dirtyStorageRefBlocks), todo
      {
        var b :| b in todo;
        todo := todo - {b};
        if b in dirtyStorageRefBlocks {
          SweepReady(graph, W(), b);
          if blocks[b].storageRefCount != 0 {
            break;
          }
          ghost var before, w := dirtyStorageRefBlocks, W();
          var n := FlushStorageRef(b);
          SteadyTrans(old(W()), w, W());
          Lighter(graph, rank, before, dirtyStorageRefBlocks, b);
          ops := ops + n;
          var more: set<Id> := *;
          todo := todo + more * dirtyStorageRefBlocks;
        }
      }
    }

    // ----- names

    method MoveRefCount(b: Option<Id>, v: int)
      requires Core(W(), {}) && Closed(graph, W()) && Covered(graph, W()) && Acyclic(graph, rank)
      requires b.Some? ==> b.value in Known(W()) && Rec(W(), b.value).refCount + v >= 0
      modifies `blocks, `dirtyStorageRefBlocks, `dirtyBlocks
      ensures W() == MoveRef(graph, old(W()), b, v)
    {
      hide Core, Closed, Covered, Acyclic, Known, Rec, AddRef, Present, Load;
      if b.Some? {
        LoadReady(graph, W(), b.value);
        var _ := GetBlockById(b.value);
        AddRefCount(b.value, v, {});
      }
    }

    method MoveStorageRefCount(b: Option<Id>, v: int)
      requires b.Some? ==> b.value in Known(W()) && Rec(W(), b.value).storageRefCount + v >= 0
      modifies `blocks, `dirtyStorageRefBlocks
      ensures W() == MoveStorageRef(old(W()), b, v)
    {
      hide Known, Rec, AddStorageRef, Load;
      if b.Some? {
        var _ := GetBlockById(b.value);
        AddStorageRefCount(b.value, v);
      }
    }

    method GetName(n: Name) returns (e: OldNew)
      requires Valid()
      modifies `names
      ensures Valid() && W() == GetNameJob(old(W()), n)
      ensures e == NameEntry(old(W()), n)
    {
      GetNameStep(graph, W(), n);
      SameIdle(W(), GetNameJob(W(), n));
      NoneIdleKept(W(), GetNameJob(W(), n));
      if n in names {
        assert names[n := names[n]] == names;
        return names[n];
      }
      e := OldNew(LookUp(backendNames, n), LookUp(backendNames, n), false);
      names := names[n := e];
    }

    method SetNameToBlockId(n: Name, v: Option<Id>)
      requires Valid() && (v.Some? ==> v.value in Known(W()))
      requires NameEntry(W(), n).gotStorageRef ==> NameEntry(W(), n).newValue.Some?
      modifies `names, `blocks, `dirtyStorageRefBlocks
      ensures Valid() && W() == SetNameJob(old(W()), n, v)
      ensures n in names && names[n].newValue == v
    {
      hide Inv, Acyclic, Known, Rec, MoveStorageRef, Load;
      ghost var w := W();
      SetNameStep(graph, w, n, v);
      SetNameNotIdler(w, n, v);
      NoneIdleKept(w, SetNameJob(w, n, v));
      var e := GetName(n);
      SetNameReady(graph, w, W(), n, v);
      MoveStorageRefCount(v, 1);
      if e.gotStorageRef {
        MoveStorageRefCount(e.newValue, -1);
      }
      names := names[n := OldNew(e.oldValue, v, true)];
    }

    method FlushBlockName(n: Name)
      requires Valid() && n in names && names[n].oldValue != names[n].newValue
      modifies `names, `backendNames, `blocks, `dirtyStorageRefBlocks, `dirtyBlocks
      ensures Valid() && W() == FlushName(graph, old(W()), n)
    {
      hide Inv, Acyclic, Known, Rec, MoveStorageRef, MoveRef, Core, Closed, Covered, Naming;
      ghost var w := W();
      var e := names[n];
      FlushNameSteady(graph, w, n);
      NoneIdleKept(w, FlushName(graph, w, n));
      FlushNameStep(graph, rank, w, n);
      FlushNameReady(graph, rank, w, n);
      backendNames := Naming(backendNames, n, e.newValue);
      if e.newValue.Some? {
        MoveRefCount(e.newValue, 1);
        MoveStorageRefCount(e.newValue, -1);
        names := names[n := e.(gotStorageRef := false)];
      }
      if e.oldValue.Some? {
        MoveRefCount(e.oldValue, -1);
      } else {
        NoMove(graph, W());
      }
      names := names[n := names[n].(oldValue := e.newValue)];
    }

    method FlushBlockNames() returns (ops: nat)
      requires Valid()
      modifies `names, `backendNames, `blocks, `dirtyStorageRefBlocks, `dirtyBlocks
      ensures Valid() && names.Keys == old(names.Keys) && Steady(old(W()), W())
      ensures forall n :: n in names ==> names[n].oldValue == names[n].newValue == old(names[n].newValue)
    {
      hide Inv, Acyclic, FlushName, Steady;
      var todo := names.Keys;
      ops := 0;
      SteadyRefl(W());
      while todo != {}
        invariant Valid() && names.Keys == old(names.Keys) && Steady(old(W()), W())
        invariant forall n :: n in names ==> n in todo || names[n].oldValue == names[n].newValue
        invariant forall n :: n in names ==> names[n].newValue == old(names[n].newValue)
        decreases todo
      {
        var n :| n in todo;
        todo := todo - {n};
        if n in names && names[n].oldValue != names[n].newValue {
          ghost var w := W();
          FlushNameStep(graph, rank, w, n);
          FlushNameSteady(graph, w, n);
          FlushBlockName(n);
          SteadyTrans(old(W()), w, W());
          ops := ops + 1;
        }
      }
    }

    /** Writes out everything.  Afterwards the backend holds exactly the blocks with
        a disk count, and what it holds refers only to what it holds. */
    method Flush() returns (ops: nat)
      requires Valid()
      modifies `names, `backendNames, `blocks, `dirtyStorageRefBlocks, `dirtyBlocks, `backend
      ensures Valid() && Flushed(W()) && Persisted(graph, W()) && Tended(W()) && Steady(old(W()), W())
      ensures forall b :: b in blocks ==> blocks[b].storageRefCount > 0
      ensures names.Keys == old(names.Keys)
      ensures forall n :: n in names ==> names[n].newValue == old(names[n].newValue)
    {
      hide Inv, Acyclic, Persisted, Tended, Steady;
      var named := FlushBlockNames();
      ghost var w := W();
      var wrote := FlushDirtyBlocks();
      SteadyTrans(old(W()), w, W());
      w := W();
      var swept := FlushStorageRefs();
      SteadyTrans(old(W()), w, W());
      ops := named + wrote + swept;
      FlushedIsPersisted(graph, W());
      FlushedIsTended(graph, W());
      forall b | b in blocks ensures blocks[b].storageRefCount > 0 {
        FlushedInUse(graph, W(), b);
      }
    }

    // ----- status

    method TakeDependencies(b: Id, st: BlockStatus, disk: bool)
      requires Acyclic(graph, rank) && Core(W(), {b}) && Closed(graph, W()) && Covered(graph, W())
      requires forall y :: Rec(W(), y).storageRefCount >= 0 && Rec(W(), y).refCount >= 0
      requires HasDeps(st) ==> Present(graph, W(), b)
      modifies `blocks, `dirtyStorageRefBlocks, `dirtyBlocks
      ensures W() == TakeDeps(graph, old(W()), b, st, disk)
    {
      hide Acyclic, Core, Closed, Covered, Rec, Present, AddRefs, AddStorageRefs;
      if HasDeps(st) {
        if disk {
          SetDiskDependencies(b, true, {b});
        } else {
          SetStorageDependencies(b, true, {b});
        }
      }
    }

    method ExchangeDependencies(b: Id, st: BlockStatus, disk: bool)
      requires Acyclic(graph, rank) && Core(W(), {b}) && Closed(graph, W()) && Covered(graph, W())
      requires forall y :: Rec(W(), y).storageRefCount >= 0 && Rec(W(), y).refCount >= 0
      requires HasDeps(st) ==> Present(graph, W(), b)
      requires ExchangeReady(graph, W(), b, st, disk)
      modifies `blocks, `dirtyStorageRefBlocks, `dirtyBlocks
      ensures W() == SetDiskDeps(graph, SetStorageDeps(graph, TakeDeps(graph, old(W()), b, st, disk), b, false), b, false)
      ensures b in blocks
    {
      hide Acyclic, Core, Closed, Covered, DiskCovered, Rec, Present, TakeDeps, SetStorageDeps, SetDiskDeps, HasDeps;
      TakeDependencies(b, st, disk);
      var _ := ShouldHaveStorageDependencies(b, false, {b});
      ShouldHaveDiskDependencies(b, false, {b});
    }

    method ChangeStatus(b: Id, st: BlockStatus)
      requires Sound() && b in blocks && (Gains(W(), b, st) ==> Present(graph, W(), b))
      modifies `blocks, `dirtyStorageRefBlocks, `dirtyBlocks
      ensures W() == StorageStatus.ChangeStatus(graph, old(W()), b, st)
      ensures Sound() && NotIdler(old(W()), W()) && old(blocks.Keys) <= blocks.Keys
    {
      hide Inv, Acyclic, Core, Closed, Covered, DiskCovered, Rec, Present, TakeDeps, SetStorageDeps, SetDiskDeps, Known,
        StorageState.MarkDirty, ExchangeReady, PutStatus, HasDeps, NotIdler;
      ghost var w := W();
      ChangeReady(graph, rank, w, b, st);
      ChangeStatusStep(graph, rank, w, b, st);
      ChangeStatusNotIdler(graph, w, b, st);
      var changing := HasDeps(st) != HasDeps(blocks[b].status);
      MarkDirty(b);
      if changing {
        var disk := blocks[b].stored.value.refCount > 0;
        var storage := !disk && blocks[b].storageRefCount > 0;
        assert ExchangeReady(graph, W(), b, st, disk);
        ExchangeDependencies(b, st, disk);
        PutStatusFields(b, st, disk, storage);
      } else {
        PutStatusFields(b, st, blocks[b].haveDiskRefs, blocks[b].haveStorageRefs);
      }
    }

    method PutStatusFields(b: Id, st: BlockStatus, disk: bool, storage: bool)
      requires b in blocks
      modifies `blocks
      ensures W() == PutStatus(old(W()), b, st, disk, storage) && blocks.Keys == old(blocks.Keys)
    {
      blocks := blocks[b := blocks[b].(haveDiskRefs := disk, haveStorageRefs := storage)];
      blocks := blocks[b := blocks[b].(status := st)];
    }

    /** Changes the status of a block, unless it would come to hold references to
        blocks that do not exist. */
    method SetStatus(b: Id, st: BlockStatus) returns (ok: bool)
      requires Valid() && b in blocks
      modifies `blocks, `dirtyStorageRefBlocks, `dirtyBlocks
      ensures Valid() && W() == SetStatusJob(graph, old(W()), b, st)
      ensures ok <==> StatusPossible(graph, old(W()), b, st)
      ensures StatusMoved(old(W()), W(), b, if ok then st else old(blocks[b].status))
    {
      hide Inv, Acyclic, Rec, Known, StorageStatus.ChangeStatus, Present, StatusMoved, NoneIdle, NotIdler;
      ghost var w := W();
      RecOfLoaded(w, b);
      SetStatusStep(graph, rank, w, b, st);
      SetStatusNotIdler(graph, rank, w, b, st);
      NoneIdleKept(w, SetStatusJob(graph, w, b, st));
      if blocks[b].status == st {
        return true;
      }
      if !HasDeps(st) || HasDeps(blocks[b].status) {
        ChangeStatus(b, st);
        return true;
      }
      var rs := Refs(graph, b);
      var n := LoadReferences(rs);
      LoadRefsStep(graph, w, rs);
      ok := n == |rs|;
      if ok {
        KnownPresentAll(graph, w, b);
        PresentKept(graph, w, W(), b);
        ChangeStatus(b, st);
      }
      TouchReferences(rs, n);
    }

    /** Brings in blocks until one does not exist, and says how many did. */
    method LoadReferences(rs: seq<Id>) returns (n: nat)
      modifies `blocks
      ensures W() == LoadRefs(old(W()), rs)
      ensures n <= |rs| && (n == |rs| <==> AllKnown(old(W()), rs))
      ensures forall i :: 0 <= i < n ==> rs[i] in blocks
      ensures n < |rs| ==> rs[n] !in blocks
      ensures old(blocks.Keys) <= blocks.Keys
    {
      ghost var w := W();
      n := 0;
      assert rs[0..] == rs;
      while n < |rs|
        invariant 0 <= n <= |rs| && LoadRefs(w, rs) == LoadRefs(W(), rs[n..])
        invariant forall i :: 0 <= i < n ==> rs[i] in blocks
        invariant Known(W()) == Known(w) && w.blocks.Keys <= blocks.Keys && backend == w.backend
      {
        var found := GetBlockById(rs[n]);
        if !found {
          return;
        }
        assert rs[n..][1..] == rs[n + 1..];
        n := n + 1;
      }
    }

    method TouchReferences(rs: seq<Id>, n: nat)
      requires Sound() && n <= |rs| && (forall i :: 0 <= i < n ==> rs[i] in blocks)
      requires n < |rs| ==> rs[n] !in blocks
      modifies `blocks, `dirtyStorageRefBlocks
      ensures Sound() && W() == TouchRefs(old(W()), rs)
    {
      hide Inv, Acyclic;
      ghost var w := W();
      var i := 0;
      assert rs[0..] == rs;
      while i < n
        invariant 0 <= i <= n && TouchRefs(w, rs) == TouchRefs(W(), rs[i..]) && blocks.Keys == w.blocks.Keys && Sound()
      {
        CountsNatural(graph, W(), rs[i]);
        TouchStep(graph, W(), rs[i]);
        AddStorageRefCount(rs[i], 0);
        assert rs[i..][1..] == rs[i + 1..];
        i := i + 1;
      }
    }

    // ----- jobs

    /** One more handle on a block; the first one keeps it in memory. */
    method SetBlock(b: Id)
      requires Sound() && Handles() && b in blocks
      modifies `blocks, `dirtyStorageRefBlocks, `external, `held
      ensures Sound() && Handles()
      ensures W() == if old(At(external, b)) == 0 then HoldJob(old(W()), b, 1) else old(W())
      ensures external == old(external)[b := old(At(external, b)) + 1]
      ensures forall y :: Idle(W(), y) ==> Idle(old(W()), y) && y != b
    {
      hide Inv, Acyclic, AddStorageRef, Idle;
      HeldNotIdle(graph, W(), b);
      external := external[b := At(external, b) + 1];
      if external[b] == 1 {
        ghost var w := W();
        HoldStep(graph, w, b, 1);
        HoldNotIdler(w, b, 1);
        CountedNotIdle(Load(Owe(w, b, 0, 1), b), b, 1);
        CountsNatural(graph, w, b);
        held := Adjust(held, b, 1);
        AddStorageRefCount(b, 1);
      }
    }

    method GetBlockByIdJob(id: Id) returns (found: bool)
      requires Valid() && Handles()
      modifies `blocks, `dirtyStorageRefBlocks, `external, `held
      ensures Valid() && Handles()
      ensures found <==> id in Known(old(W()))
      ensures found ==> At(external, id) > 0
      ensures !found ==> W() == old(W())
    {
      hide Inv, Acyclic, HoldJob, Idle;
      LoadStep(graph, W(), id);
      LoadStatus(W(), id);
      found := GetBlockById(id);
      if found {
        SetBlock(id);
      }
    }

    method GetBlockIdByNameJob(n: Name) returns (id: Option<Id>)
      requires Valid()
      modifies `names
      ensures Valid() && W() == GetNameJob(old(W()), n)
      ensures id == NameEntry(old(W()), n).newValue
    {
      hide Inv, Acyclic;
      var e := GetName(n);
      id := e.newValue;
    }

    /** A disk reference from outside comes or goes. */
    method UpdateBlockIdRefCount(id: Id, count: int)
      requires Sound() && id in Known(W()) && count != 0 && At(explicit, id) + count >= 0
      modifies `blocks, `dirtyStorageRefBlocks, `dirtyBlocks, `explicit
      ensures Sound() && NotIdler(old(W()), W()) && W() == ReferJob(graph, old(W()), id, count)
    {
      hide Inv, Acyclic, Known, Rec, AddRef, Load, Core, Covered, Present, Closed, NotIdler;
      ghost var w := W();
      ReferNotIdler(graph, w, id, count);
      ReferStep(graph, rank, w, id, count);
      ReferReady(graph, w, id, count);
      explicit := Adjust(explicit, id, count);
      var _ := GetBlockById(id);
      AddRefCount(id, count, {});
    }

    /** An in-memory reference from outside comes or goes. */
    method UpdateBlockIdStorageRefCount(id: Id, count: int)
      requires Valid() && Handles() && id in Known(W()) && At(owed, id) + count >= 0
      modifies `blocks, `dirtyStorageRefBlocks, `held, `owed
      ensures Valid() && Handles() && W() == HoldJob(old(W()), id, count)
      ensures owed == Adjust(old(owed), id, count)
    {
      hide Inv, Acyclic, Known, Rec, AddStorageRef, Load;
      ghost var w := W();
      assert At(held, id) >= At(owed, id);
      HoldNotIdler(w, id, count);
      NoneIdleKept(w, HoldJob(w, id, count));
      HoldStep(graph, w, id, count);
      HoldReady(graph, w, id, count);
      held := Adjust(held, id, count);
      owed := Adjust(owed, id, count);
      var _ := GetBlockById(id);
      AddStorageRefCount(id, count);
    }

    /** A new block: nothing may know it yet, and what it refers to must exist. */
    method StoreBlockJob(id: Id, st: BlockStatus, count: int)
      requires Valid() && Handles() && id !in Known(W()) && count >= 0
      requires HasDeps(st) ==> Present(graph, W(), id)
      modifies `blocks, `dirtyStorageRefBlocks, `dirtyBlocks, `explicit, `held, `external
      ensures Valid() && Handles() && W() == StoreJob(graph, old(W()), id, st, count)
      ensures At(external, id) == 1 && explicit == Adjust(old(explicit), id, count)
    {
      hide Inv, Acyclic, Known, AddStorageRef, AddRef, Present, HasDeps, Adjust, Place;
      ghost var w := W();
      StoreNotIdler(graph, w, id, st, count);
      NoneIdleKept(w, StoreJob(graph, w, id, st, count));
      StoreStep(graph, rank, w, id, st, count);
      StoreReady(graph, rank, w, id, st, count);
      assert At(held, id) == 0 && At(external, id) == 0;
      PlaceBlock(id, st, count);
      AdjustNone(explicit, id);
      held := Adjust(held, id, 1);
      HeldOne(w.held, held, id);
      external := external[id := 1];
      AddStorageRefCount(id, 1);
    }

    method PlaceBlock(id: Id, st: BlockStatus, count: int)
      requires count >= 0 && Acyclic(graph, rank)
      requires var w2 := Place(Owe(W(), id, count, 0), id, st);
               Core(w2, {id}) && Covered(graph, w2) && (HasDeps(st) ==> Present(graph, w2, id))
      modifies `blocks, `dirtyStorageRefBlocks, `dirtyBlocks, `explicit
      ensures W() == AddRef(graph, Place(Owe(old(W()), id, count, 0), id, st), id, count)
      ensures explicit == Adjust(old(explicit), id, count)
    {
      hide Acyclic, Core, Covered, Present, AddRef, Adjust, HasDeps;
      explicit := Adjust(explicit, id, count);
      AdjustNone(held, id);
      blocks := blocks[id := Fresh(st)];
      AddRefCount(id, count, {id});
    }

    /** Refers to a block that is there, or else stores it. */
    method ReferOrStoreBlock(id: Id, st: BlockStatus, count: int)
      requires Valid() && Handles() && count >= 0
      requires id !in Known(W()) && HasDeps(st) ==> Present(graph, W(), id)
      modifies `blocks, `dirtyStorageRefBlocks, `dirtyBlocks, `explicit, `held, `external
      ensures Valid() && Handles() && At(external, id) > 0
      ensures At(explicit, id) == old(At(explicit, id)) + count
    {
      hide Inv, Acyclic, Present, HasDeps, Known, AddRef, AddStorageRef, Idle, ReferJob, HoldJob;
      LoadStep(graph, W(), id);
      LoadStatus(W(), id);
      var found := GetBlockById(id);
      if !found {
        StoreBlockJob(id, st, count);
        return;
      }
      if count != 0 {
        RecOfLoaded(W(), id);
        ReferKeeps(graph, rank, W(), id, count);
        UpdateBlockIdRefCount(id, count);
      }
      SetBlock(id);
    }

    /** Another handle on a block that has one. */
    method OpenHandle(b: Id)
      requires Handles() && At(external, b) > 0
      modifies `external
      ensures Handles() && external == old(external)[b := old(At(external, b)) + 1]
    {
      external := external[b := external[b] + 1];
    }

    /** One handle less; the last one leaves a job that lets the block go. */
    method CloseHandle(b: Id)
      requires Handles() && At(external, b) > 0
      modifies `external, `owed
      ensures Handles() && external == old(external)[b := old(At(external, b)) - 1]
      ensures owed == if external[b] == 0 then old(owed)[b := old(At(owed, b)) + 1] else old(owed)
    {
      external := external[b := external[b] - 1];
      if external[b] == 0 {
        owed := owed[b := At(owed, b) + 1];
      }
    }
  }

  lemma ReferReady(g: Graph, w: World, b: Id, count: int)
    requires Inv(g, w) && b in Known(w) && At(w.explicit, b) + count >= 0
    ensures var w1 := Owe(w, b, count, 0);
            && b in Known(w1) && Rec(w1, b).refCount + count >= 0 && Rec(w1, b) == Rec(w, b)
            && Core(Load(w1, b), {}) && Covered(g, Load(w1, b))
            && (HasDeps(Rec(w1, b).status) ==> Present(g, Load(w1, b), b))
  {
    hide Core, Balanced, Closed, NamesOk, Known, Rec, Covered, Present, Load;
    var w1 := Owe(w, b, count, 0);
    LedgerCore(g, w, w1, {});
    forall y ensures DiskLead(g, w1, y) == Share(y == b, -count) && StorageLead(g, w1, y) == 0 {
      OweLeads(g, w, b, count, 0, y);
    }
    LeadsCovered(g, w1, y => Share(y == b, -count));
    LoadReady(g, w1, b);
  }

  lemma HoldReady(g: Graph, w: World, b: Id, count: int)
    requires Inv(g, w) && b in Known(w) && At(w.held, b) + count >= 0
    ensures var w1 := Owe(w, b, 0, count);
            b in Known(w1) && Rec(w1, b).storageRefCount + count >= 0
  {
    hide Core, Balanced, Closed, NamesOk, Known, Rec;
    var w1 := Owe(w, b, 0, count);
    LedgerCore(g, w, w1, {});
    OweLeads(g, w, b, 0, count, b);
    LeadAtLeast(g, w1, b, -count);
  }

  lemma StoreReady(g: Graph, rank: Id -> nat, w: World, b: Id, st: BlockStatus, count: int)
    requires count >= 0
    requires Acyclic(g, rank) && Inv(g, w) && b !in Known(w) && (HasDeps(st) ==> Present(g, w, b))
    ensures At(w.held, b) == 0
    ensures var w2 := Place(Owe(w, b, count, 0), b, st);
            && Core(w2, {b}) && Covered(g, w2) && (HasDeps(st) ==> Present(g, w2, b))
            && var w3 := AddRef(g, w2, b, count);
               b in w3.blocks && w3.blocks[b].storageRefCount + 1 >= 0
  {
    hide Core, Balanced, Closed, NamesOk, Known, Covered, Present, AddRef, Place, Rec, DiskLead, StorageLead, Owe;
    UnknownHeld(g, w, b);
    var w2 := Place(Owe(w, b, count, 0), b, st);
    var w3 := AddRef(g, w2, b, count);
    StorePlaced(g, rank, w, b, st, count);
    LeadsCovered(g, w2, y => Share(y == b, -count));
    KnownLoaded(w2, b);
    KnownPresent(g, w2, b);
    FirstRef(g, rank, w2, b, count);
    RecOfLoaded(w3, b);
    LeadAtLeast(g, w3, b, 0);
  }

  lemma ReferKeeps(g: Graph, rank: Id -> nat, w: World, b: Id, count: int)
    requires Acyclic(g, rank) && Inv(g, w) && b in w.blocks && count != 0 && At(w.explicit, b) + count >= 0
    ensures var w' := ReferJob(g, w, b, count);
            b in w'.blocks && w'.explicit == Adjust(w.explicit, b, count)
  {
    hide Core, Closed, NamesOk, Balanced, DiskLead, StorageLead, Rec, Known, AddRef, RefSame, Acyclic, At;
    var w1 := Owe(w, b, count, 0);
    LedgerCore(g, w, w1, {});
    RecOfLoaded(w1, b);
    KnownPresent(g, w1, b);
    LoadAndAddRef(g, rank, w1, b, count, {});
    RefSameKeys(w1, ReferJob(g, w, b, count), {b});
  }

  lemma RefSameKeys(w: World, w': World, bs: set<Id>)
    requires RefSame(w, w', bs)
    ensures w.blocks.Keys <= w'.blocks.Keys && w'.explicit == w.explicit
  {
  }

  lemma AdjustNone(m: map<Id, nat>, b: Id)
    ensures Adjust(m, b, 0) == m
  {
  }

  lemma HeldOne(m: map<Id, nat>, m': map<Id, nat>, b: Id)
    requires At(m, b) == 0 && m' == Adjust(m, b, 1)
    ensures At(m', b) == 1 && forall y :: y != b ==> At(m', y) == At(m, y)
  {
  }

  lemma UnknownHeld(g: Graph, w: World, b: Id)
    requires Inv(g, w) && b !in Known(w)
    ensures At(w.held, b) == 0
  {
    hide Core, Closed, NamesOk;
    assert Rec(w, b).storageRefCount == StorageSum(g, w, b);
  }

  /** All that the steps of a status change ask for. */
  lemma ChangeReady(g: Graph, rank: Id -> nat, w: World, b: Id, st: BlockStatus)
    requires Acyclic(g, rank) && Inv(g, w) && b in w.blocks && (Gains(w, b, st) ==> Present(g, w, b))
    ensures w.blocks[b].storageRefCount >= 0
    ensures var w1 := StorageState.MarkDirty(w, b);
            b in w1.blocks && w1.blocks[b] == Rec(w1, b) && w1.blocks[b].stored.Some?
            && w1.blocks[b].storageRefCount > 0 && w1.blocks[b].haveDiskRefs == w.blocks[b].haveDiskRefs
            && w1.blocks[b].haveStorageRefs == w.blocks[b].haveStorageRefs
    ensures HasDeps(st) != HasDeps(w.blocks[b].status) ==>
              var w1 := StorageState.MarkDirty(w, b);
              && Core(w1, {b}) && Closed(g, w1) && Covered(g, w1)
              && (forall y :: Rec(w1, y).storageRefCount >= 0 && Rec(w1, y).refCount >= 0)
              && (HasDeps(st) ==> Present(g, w1, b))
    ensures HasDeps(st) != HasDeps(w.blocks[b].status) ==>
              forall disk :: ExchangeReady(g, StorageState.MarkDirty(w, b), b, st, disk)
  {
    hide Core, Balanced, Closed, NamesOk, BlockOk, Known, Present, Covered, StorageState.MarkDirty, Acyclic, DiskLead,
      StorageLead, ExchangeReady, HasDeps;
    var w1 := StorageState.MarkDirty(w, b);
    CountsNatural(g, w, b);
    RecOfLoaded(w, b);
    MarkedDirty(g, w, b);
    RecOfLoaded(w1, b);
    assert Leads(g, w1, b, 0, 0);
    DirtyInUse(g, w1, b);
    forall y ensures DiskLead(g, w1, y) == 0 && StorageLead(g, w1, y) == 0 {
      assert Leads(g, w1, y, 0, 0);
    }
    LeadsCovered(g, w1, y => 0);
    forall y ensures Rec(w1, y).storageRefCount >= 0 {
      CoveredCount(g, w1, b, y);
    }
    if HasDeps(st) != HasDeps(w.blocks[b].status) {
      PresentKept(g, w, w1, b);
      forall disk ensures ExchangeReady(g, w1, b, st, disk) {
        ExchangeIsReady(g, rank, w1, b, st, disk);
      }
    }
  }

  ghost predicate ExchangeReady(g: Graph, w: World, b: Id, st: BlockStatus, disk: bool) {
    var w2 := TakeDeps(g, w, b, st, disk);
    var w3 := SetStorageDeps(g, w2, b, false);
    && Core(w2, {b}) && b in w2.blocks && Covered(g, w2)
    && (HasDeps(w2.blocks[b].status) ==> Present(g, w2, b))
    && Core(w3, {b}) && b in w3.blocks && Closed(g, w3) && Covered(g, w3) && DiskCovered(g, w3)
    && b in SetDiskDeps(g, w3, b, false).blocks
  }

  lemma ExchangeIsReady(g: Graph, rank: Id -> nat, w: World, b: Id, st: BlockStatus, disk: bool)
    requires Acyclic(g, rank) && Core(w, {b}) && Closed(g, w) && b in w.blocks
    requires HasDeps(st) ==> Present(g, w, b)
    requires forall y :: Leads(g, w, y, 0, 0)
    ensures ExchangeReady(g, w, b, st, disk)
  {
    hide Core, Closed, DiskLead, StorageLead, Known, TakeDeps, SetStorageDeps, SetDiskDeps, Settled, Present, Rec,
      Acyclic, HasDeps, Refs, DiskSame, HoldSame, IdSet;
    var w2 := TakeDeps(g, w, b, st, disk);
    var w3 := SetStorageDeps(g, w2, b, false);
    TakeDepsStep(g, rank, w, b, st, disk);
    SettledClosed(g, w, w2, b);
    KnownLoaded(w2, b);
    KnownPresent(g, w2, b);
    RecOfLoaded(w2, b);
    SetStorageDepsStep(g, rank, w2, b, false, {b});
    SettledByDisk(w2, w3, b);
    SettledClosed(g, w2, w3, b);
    forall y ensures StorageLead(g, w2, y) >= 0 && StorageLead(g, w3, y) >= 0 && DiskLead(g, w3, y) >= 0 {
      assert Leads(g, w, y, 0, 0);
    }
    SetDiskDepsStep(g, rank, w3, b, false, {b});
    HoldClosed(g, w3, SetDiskDeps(g, w3, b, false), b);
  }

  lemma NoMove(g: Graph, w: World)
    ensures MoveRef(g, w, None, -1) == w
  {
  }

  /** Bringing in a block does not change what can be asked of it. */
  lemma LoadReady(g: Graph, w: World, b: Id)
    requires Core(w, {}) && Closed(g, w) && Covered(g, w) && b in Known(w)
    ensures Core(Load(w, b), {}) && Covered(g, Load(w, b))
    ensures HasDeps(Rec(w, b).status) ==> Present(g, Load(w, b), b)
  {
    hide Core, Closed, Covered, Known, Rec, Load, Present, StorageLead, DiskLead;
    LoadSame(w, b, {});
    KnownPresent(g, w, b);
    PresentKept(g, w, Load(w, b), b);
    forall y ensures StorageLead(g, Load(w, b), y) == StorageLead(g, w, y) {
      LoadLeads(g, w, b, y);
    }
    CoveredKept(g, w, Load(w, b));
  }

  lemma SetNameReady(g: Graph, w: World, w0: World, n: Name, v: Option<Id>)
    requires Inv(g, w) && w0 == GetNameJob(w, n) && (v.Some? ==> v.value in Known(w))
    requires NameEntry(w, n).gotStorageRef ==> NameEntry(w, n).newValue.Some?
    ensures v.Some? ==> v.value in Known(w0) && Rec(w0, v.value).storageRefCount + 1 >= 0
    ensures var e, w1 := NameEntry(w, n), MoveStorageRef(w0, v, 1);
            e.gotStorageRef ==> e.newValue.value in Known(w1) && Rec(w1, e.newValue.value).storageRefCount - 1 >= 0
  {
    hide Core, Closed, Balanced, NamesOk, Known, DiskLead, StorageLead, MoveStorageRef;
    var e, w1 := NameEntry(w, n), MoveStorageRef(w0, v, 1);
    GetNameStep(g, w, n);
    KnownSame(w, w0);
    if v.Some? {
      CountNatural(g, w0, v.value);
    }
    if e.gotStorageRef {
      MoveStorageRefStep(g, w0, v, 1);
      LeadsOfInv(g, w0, e.newValue.value);
      PendingKnown(g, w0, n, e.newValue.value);
      PendingCount(g, w1, n, e.newValue.value);
    }
  }

  /** What a pending name keeps in memory is counted. */
  lemma PendingCount(g: Graph, w: World, n: Name, b: Id)
    requires n in w.names && Pending(w.names[n], b) && StorageLead(g, w, b) >= 0
    ensures Rec(w, b).storageRefCount >= 1
  {
    hide Rec, RefsTo;
    var s := set k | k in w.names && w.names[k].gotStorageRef && w.names[k].newValue == Some(b);
    assert n in s;
    assert PendingAt(w.names, b) == |s|;
  }

  lemma LeadsCovered(g: Graph, w: World, d: Id -> int)
    requires forall y :: DiskLead(g, w, y) == d(y) && StorageLead(g, w, y) == 0
    ensures Covered(g, w) && forall y :: Rec(w, y).refCount >= d(y)
  {
    hide Rec, StorageSum, DiskSum;
    forall y ensures Rec(w, y).refCount >= d(y) {
      assert DiskLead(g, w, y) == d(y);
    }
  }

  lemma FlushNameReady(g: Graph, rank: Id -> nat, w: World, n: Name)
    requires Acyclic(g, rank) && Inv(g, w) && n in w.names && w.names[n].oldValue != w.names[n].newValue
    ensures var e := w.names[n];
            var w1 := PutBackendName(w, n, e.newValue);
            && Core(w1, {}) && Closed(g, w1) && Covered(g, w1)
            && (e.newValue.Some? ==>
                  && e.newValue.value in Known(w1) && Rec(w1, e.newValue.value).refCount + 1 >= 0
                  && var wr := MoveRef(g, w1, e.newValue, 1);
                     e.newValue.value in Known(wr) && Rec(wr, e.newValue.value).storageRefCount - 1 >= 0)
    ensures var e := w.names[n];
            var w2 := TradeRef(g, PutBackendName(w, n, e.newValue), n, e.newValue);
            && Core(w2, {}) && Closed(g, w2) && Covered(g, w2)
            && (e.oldValue.Some? ==> e.oldValue.value in Known(w2) && Rec(w2, e.oldValue.value).refCount - 1 >= 0)
  {
    hide Core, Closed, Balanced, NamesOk, Known, DiskLead, StorageLead, MoveRef, TradeRef, Rec, Acyclic, Covered, Naming;
    var e := w.names[n];
    var w1 := PutBackendName(w, n, e.newValue);
    var wr := MoveRef(g, w1, e.newValue, 1);
    var w2 := TradeRef(g, w1, n, e.newValue);
    NameEntryKnown(g, w, n);
    PutBackendNameStep(g, w, n);
    LeadsCovered(g, w1, y => Share(e.oldValue == Some(y), 1) - Share(e.newValue == Some(y), 1));
    if e.newValue.Some? {
      MoveRefStep(g, rank, w1, e.newValue, 1);
      assert Leads(g, w1, e.newValue.value, -1, 0);
      PendingCount(g, wr, n, e.newValue.value);
    }
    FlushNameMoves(g, rank, w, n);
    LeadsCovered(g, w2, y => Share(e.oldValue == Some(y), 1));
  }

  lemma ListReady(w: World, x: Id)
    ensures Unlist(w, x) == w.(dirtyStorageRefBlocks := w.dirtyStorageRefBlocks - {x})
  {
  }

  lemma ForgetReady(w: World, x: Id)
    ensures Forget(w, x) == w.(blocks := w.blocks - {x})
  {
  }

  lemma KeptFlag(g: Graph, w: World, x: Id, add: bool)
    requires x in w.blocks
    ensures w.blocks[x].haveStorageRefs == add ==> SetStorageDeps(g, w, x, add) == w
  {
  }

  lemma SweepReady(g: Graph, w: World, x: Id)
    requires Sweeping(g, w) && x in w.dirtyStorageRefBlocks
    ensures x in w.blocks && Rec(w, x) == w.blocks[x] && w.blocks[x].storageRefCount >= 0
    ensures var w0 := Unlist(w, x);
            && Core(w0, {x}) && x in w0.blocks && Covered(g, w0) && w0.blocks[x] == w.blocks[x]
            && (w.blocks[x].storageRefCount > 0 || w.blocks[x].haveStorageRefs ==>
                  HasDeps(w.blocks[x].status) ==> Present(g, w0, x))
  {
    ListedLoaded(w, x);
    hide Core, Balanced, Closed, LiveClosed, AllHold, Rec, Known, NamesOk, Present, DiskSame, Covered;
    var w0 := Unlist(w, x);
    UnlistStep(g, w, x);
    DiskSameFields(w0, w);
    CountNatural(g, w, x);
    BalancedCovered(g, w0);
    if w.blocks[x].storageRefCount > 0 {
      UsedPresent(g, w, w0, x);
    } else if w.blocks[x].haveStorageRefs {
      ReleaseKnown(g, w0, x);
    }
  }

  lemma BalancedCovered(g: Graph, w: World)
    requires Balanced(g, w)
    ensures Covered(g, w)
  {
    hide Balanced, DiskLead, StorageLead;
    BalancedLeads(g, w);
  }

  lemma InvCovered(g: Graph, w: World, w': World)
    requires Inv(g, w) && SameLeads(g, w, w')
    ensures Covered(g, w') && DiskCovered(g, w')
  {
    hide Core, Balanced, Closed, NamesOk, DiskLead, StorageLead;
    BalancedLeads(g, w);
  }

  lemma DirtyCount(g: Graph, w: World, b: Id)
    requires Covered(g, w) && Rec(w, b).stored.Some?
    ensures Rec(w, b).storageRefCount >= 1
  {
    hide Rec, RefsTo, StorageHolders;
    assert StorageLead(g, w, b) >= 0;
  }

  /** All that the steps of writing out a block ask for. */
  lemma FlushBlockReady(g: Graph, rank: Id -> nat, w: World, b: Id, haveRefs: bool)
    requires Acyclic(g, rank) && Inv(g, w) && b in w.blocks && Rec(w, b).stored.Some?
    ensures BlockOk(w, b)
    ensures var w1 := StorageState.WriteBlock(w, b);
            && Core(w1, {b}) && b in w1.blocks && Closed(g, w1) && Covered(g, w1) && DiskCovered(g, w1)
    ensures var wd := SetDiskDeps(g, StorageState.WriteBlock(w, b), b, haveRefs);
            && Core(wd, {b}) && b in wd.blocks && Covered(g, wd)
            && (HasDeps(wd.blocks[b].status) ==> Present(g, wd, b))
    ensures var w2 := SettleDeps(g, StorageState.WriteBlock(w, b), b, Rec(w, b).haveDiskRefs, haveRefs);
            b in w2.blocks && w2.blocks[b].storageRefCount >= 1
  {
    hide Core, Balanced, Closed, NamesOk, BlockOk, Flagged, Known, StorageState.WriteBlock, SetDiskDeps,
      Covered, DiskCovered, Present, SameLeads, HoldSame, SettleDeps, Acyclic, IdSet, HasDeps, Settled;
    var w1 := StorageState.WriteBlock(w, b);
    var wd := SetDiskDeps(g, w1, b, haveRefs);
    var w2 := SettleDeps(g, w1, b, Rec(w, b).haveDiskRefs, haveRefs);
    CoreAt(w, {}, b);
    WriteBlockShape(w, b);
    WriteBlockCore(w, b);
    WriteBlockLeads(g, w, b);
    InvCovered(g, w, w1);
    WrittenClosed(g, w, w1, b);
    SetDiskDepsStep(g, rank, w1, b, haveRefs, {b});
    SameLeadsTrans(g, w, w1, wd);
    InvCovered(g, w, wd);
    HoldClosed(g, w1, wd, b);
    ClosedPresent(g, wd, b);
    SettleWritten(g, rank, w, b, Rec(w, b).haveDiskRefs, haveRefs);
    InvCovered(g, w, w2);
    SettledDirty(w1, w2, b);
    DirtyCount(g, w2, b);
  }

  lemma WrittenClosed(g: Graph, w: World, w': World, b: Id)
    requires Closed(g, w) && SameElsewhere(w, w', b) && Known(w') == Known(w) && Rec(w', b).status == Rec(w, b).status
    ensures Closed(g, w')
  {
    hide Rec, Known;
    ClosedKept(g, w, w');
  }

  lemma SettledDirty(w: World, w': World, b: Id)
    requires Settled(w, w', b) && b in w.blocks
    ensures b in w'.blocks && Rec(w', b).stored == Rec(w, b).stored && w'.blocks[b] == Rec(w', b)
  {
  }

  lemma NoRefs(g: Graph, w: World, rs: seq<Id>, v: int)
    requires rs == []
    ensures AddRefs(g, w, rs, v) == w && AddStorageRefs(w, rs, v) == w
  {
  }

  lemma AddRefsNext(g: Graph, w: World, rs: seq<Id>, i: nat, v: int)
    requires i < |rs|
    ensures AddRefs(g, w, rs[..i + 1], v) == AddRef(g, Load(AddRefs(g, w, rs[..i], v), rs[i]), rs[i], v)
  {
    hide AddRef, Load;
    assert rs[..i + 1][..i] == rs[..i];
  }

  lemma AddStorageRefsNext(w: World, rs: seq<Id>, i: nat, v: int)
    requires i < |rs|
    ensures AddStorageRefs(w, rs[..i + 1], v) == AddStorageRef(Load(AddStorageRefs(w, rs[..i], v), rs[i]), rs[i], v)
  {
    hide AddStorageRef, Load;
    assert rs[..i + 1][..i] == rs[..i];
  }

  lemma FlagCovered(g: Graph, w: World, w': World, x: Id)
    requires Covered(g, w) && SameElsewhere(w, w', x) && Rec(w', x) == Rec(w, x).(haveDiskRefs := Rec(w', x).haveDiskRefs)
    ensures Covered(g, w')
  {
    hide Rec, Known, DiskSum, StorageSum;
    forall y ensures StorageLead(g, w', y) >= 0 {
      assert StorageLead(g, w, y) >= 0;
      SumsMove(g, w, w', x, y);
    }
  }

  /** When only the first `i` have been counted, the next one is there, and its
      count is high enough. */
  lemma DiskRefsSoFar(g: Graph, rank: Id -> nat, w: World, rs: seq<Id>, i: nat, v: int, xs: set<Id>)
    requires Acyclic(g, rank) && Core(w, xs) && i < |rs| && (v == 1 || v == -1) && Covered(g, w)
    requires forall b :: b in rs ==> b in Known(w) && (HasDeps(Rec(w, b).status) ==> Present(g, w, b))
    requires forall y :: Rec(w, y).refCount >= 0
    requires v == -1 ==> forall y :: Rec(w, y).refCount >= multiset(rs)[y]
    ensures var w1 := AddRefs(g, w, rs[..i], v);
            && rs[i] in Known(w1) && Rec(w1, rs[i]).refCount + v >= 0
            && Core(Load(w1, rs[i]), xs) && Covered(g, Load(w1, rs[i]))
            && (HasDeps(Rec(w1, rs[i]).status) ==> Present(g, Load(w1, rs[i]), rs[i]))
  {
    hide Core, Known, Rec, AddRefs, RefSame, Covered, Present, DiskLead, StorageLead, Load;
    var a := rs[..i];
    var w1 := AddRefs(g, w, a, v);
    AddRefsStep(g, rank, w, a, v, xs);
    RefSameAt(g, w, w1, IdSet(a), rs[i]);
    assert rs == a + [rs[i]] + rs[i + 1..];
    assert multiset(rs)[rs[i]] >= multiset(a)[rs[i]] + 1;
    LoadSame(w1, rs[i], xs);
    PresentKept(g, w1, Load(w1, rs[i]), rs[i]);
    CoveredKept(g, w, w1);
    forall y ensures StorageLead(g, Load(w1, rs[i]), y) == StorageLead(g, w1, y) {
      LoadLeads(g, w1, rs[i], y);
    }
    CoveredKept(g, w1, Load(w1, rs[i]));
  }

  lemma CoveredKept(g: Graph, w: World, w': World)
    requires Covered(g, w) && forall y :: StorageLead(g, w', y) == StorageLead(g, w, y)
    ensures Covered(g, w')
  {
    hide StorageLead;
  }

  lemma StorageRefsSoFar(w: World, rs: seq<Id>, i: nat, v: int, xs: set<Id>)
    requires Core(w, xs) && i < |rs| && (v == 1 || v == -1) && forall k :: 0 <= k < |rs| ==> rs[k] in Known(w)
    requires forall y :: Rec(w, y).storageRefCount >= 0
    requires v == -1 ==> forall y :: Rec(w, y).storageRefCount >= multiset(rs)[y]
    ensures var w1 := AddStorageRefs(w, rs[..i], v);
            rs[i] in Known(w1) && Rec(w1, rs[i]).storageRefCount + v >= 0
  {
    hide Core, Known, Rec, AddStorageRefs, DiskSame;
    var a := rs[..i];
    AddStorageRefsStep(w, a, v, xs);
    DiskSameKnown(w, AddStorageRefs(w, a, v));
    assert rs == a + [rs[i]] + rs[i + 1..];
    assert multiset(rs)[rs[i]] >= multiset(a)[rs[i]] + 1;
  }
}
