/** What each step of the storage keeps. */
module StorageLemmas {
  import opened Keys
  import opened StorageState

  /** The block with a different in-memory count. */
  ghost function Plus(r: Block, n: int): Block {
    r.(storageRefCount := r.storageRefCount + n)
  }

  ghost predicate SameOnDisk(r: Block, r': Block) {
    && r'.refCount == r.refCount && r'.status == r.status && r'.backed == r.backed
    && r'.stored == r.stored && r'.haveDiskRefs == r.haveDiskRefs
  }

  /** Only the in-memory counts, who holds in-memory references, and what is in
      memory at all may differ. */
  ghost predicate DiskSame(w: World, w': World) {
    && (forall b :: SameOnDisk(Rec(w, b), Rec(w', b)))
    && w'.backend == w.backend && w'.dirtyBlocks == w.dirtyBlocks
    && w'.names == w.names && w'.backendNames == w.backendNames
    && w'.explicit == w.explicit && w'.held == w.held
    && w.blocks.Keys <= w'.blocks.Keys && Known(w') == Known(w)
    && w.dirtyStorageRefBlocks <= w'.dirtyStorageRefBlocks
  }

  /** Sums do not depend on counts. */
  lemma SumsSame(g: Graph, w: World, w': World, b: Id)
    requires Known(w') == Known(w)
    requires w'.names == w.names && w'.backendNames == w.backendNames
    requires w'.explicit == w.explicit && w'.held == w.held
    requires forall y :: DiskActive(Rec(w', y)) == DiskActive(Rec(w, y))
                         && StorageActive(Rec(w', y)) == StorageActive(Rec(w, y))
    requires Rec(w', b).stored.Some? == Rec(w, b).stored.Some?
    ensures DiskSum(g, w', b) == DiskSum(g, w, b) && StorageSum(g, w', b) == StorageSum(g, w, b)
  {
    assert DiskHolders(w') == DiskHolders(w);
    assert StorageHolders(w') == StorageHolders(w);
  }

  lemma LoadSame(w: World, id: Id, xs: set<Id>)
    requires Core(w, xs)
    ensures Core(Load(w, id), xs)
    ensures forall b :: Rec(Load(w, id), b) == Rec(w, b)
    ensures Known(Load(w, id)) == Known(w)
    ensures id in Known(w) ==> id in Load(w, id).blocks
    ensures DiskSame(w, Load(w, id))
  {
    if id in w.blocks || id !in w.backend {
      return;
    }
    var w' := Load(w, id);
    assert forall b :: Rec(w', b) == Rec(w, b);
    forall b | b !in xs ensures BlockOk(w', b) && Flagged(w', b) {
      assert BlockOk(w, b) && Flagged(w, b);
    }
    assert w'.dirtyBlocks == set b | b in w'.blocks && w'.blocks[b].stored.Some?;
  }

  lemma AddStorageRefStep(w: World, b: Id, v: int, xs: set<Id>)
    requires Core(w, xs) && b in w.blocks
    ensures var w' := AddStorageRef(w, b, v);
            && Core(w', xs) && DiskSame(w, w') && w'.blocks.Keys == w.blocks.Keys
            && Rec(w', b) == Plus(Rec(w, b), v)
            && (forall y :: y != b ==> Rec(w', y) == Rec(w, y))
            && w.dirtyStorageRefBlocks <= w'.dirtyStorageRefBlocks <= w.dirtyStorageRefBlocks + {b}
  {
    var w' := AddStorageRef(w, b, v);
    assert Known(w') == Known(w);
    forall y | y !in xs ensures BlockOk(w', y) && Flagged(w', y) {
      assert BlockOk(w, y) && Flagged(w, y);
    }
    assert w'.dirtyBlocks == set y | y in w'.blocks && w'.blocks[y].stored.Some?;
  }

  lemma DiskSameTrans(w: World, w1: World, w2: World)
    requires DiskSame(w, w1) && DiskSame(w1, w2)
    ensures DiskSame(w, w2)
  {
    forall b ensures SameOnDisk(Rec(w, b), Rec(w2, b)) {
      assert SameOnDisk(Rec(w, b), Rec(w1, b)) && SameOnDisk(Rec(w1, b), Rec(w2, b));
    }
  }

  lemma LoadAndAdd(w: World, b: Id, v: int, xs: set<Id>)
    requires Core(w, xs) && b in Known(w)
    ensures var w' := AddStorageRef(Load(w, b), b, v);
            && Core(w', xs) && DiskSame(w, w')
            && Rec(w', b) == Plus(Rec(w, b), v)
            && (forall y :: y != b ==> Rec(w', y) == Rec(w, y))
            && w'.dirtyStorageRefBlocks <= w.dirtyStorageRefBlocks + {b}
  {
    hide Core, Rec, Known, AddStorageRef;
    LoadSame(w, b, xs);
    AddStorageRefStep(Load(w, b), b, v, xs);
    DiskSameTrans(w, Load(w, b), AddStorageRef(Load(w, b), b, v));
  }

  /** Counting the references of a block moves each count by how often the block
      refers to it, and nothing else. */
  lemma {:induction false} AddStorageRefsStep(w: World, rs: seq<Id>, v: int, xs: set<Id>)
    requires Core(w, xs) && (v == 1 || v == -1) && forall i :: 0 <= i < |rs| ==> rs[i] in Known(w)
    ensures var w' := AddStorageRefs(w, rs, v);
            && Core(w', xs) && DiskSame(w, w')
            && (forall b :: Rec(w', b) == Plus(Rec(w, b), Signed(v == 1, multiset(rs)[b])))
            && (forall b :: b !in rs ==> (b in w'.dirtyStorageRefBlocks <==> b in w.dirtyStorageRefBlocks))
  {
    hide Core, Rec, Known, Load, AddStorageRef, SameOnDisk, DiskSame;
    if rs != [] {
      var a, b := rs[..|rs| - 1], rs[|rs| - 1];
      assert rs == a + [b];
      AddStorageRefsStep(w, a, v, xs);
      var w1 := AddStorageRefs(w, a, v);
      DiskSameKnown(w, w1);
      LoadAndAdd(w1, b, v, xs);
      var w' := AddStorageRefs(w, rs, v);
      DiskSameTrans(w, w1, w');
      assert multiset(rs) == multiset(a)[b := multiset(a)[b] + 1];
      forall y ensures Rec(w', y) == Plus(Rec(w, y), Signed(v == 1, multiset(rs)[y])) {
        if y == b {
          assert Rec(w', y) == Plus(Rec(w1, y), v);
        } else {
          assert Rec(w', y) == Rec(w1, y);
        }
      }
    } else {
      assert multiset(rs) == multiset{};
      DiskSameRefl(w);
    }
  }

  lemma DiskSameKnown(w: World, w': World)
    requires DiskSame(w, w')
    ensures Known(w') == Known(w)
  {
  }

  ghost predicate SameLeads(g: Graph, w: World, w': World) {
    forall b :: StorageLead(g, w', b) == StorageLead(g, w, b) && DiskLead(g, w', b) == DiskLead(g, w, b)
  }

  lemma NotOwnRef(g: Graph, rank: Id -> nat, x: Id)
    requires Acyclic(g, rank)
    ensures x !in Refs(g, x)
  {
  }

  lemma SetStorageFlagStep(w: World, x: Id, add: bool, xs: set<Id>)
    requires Core(w, xs) && x in xs && x in w.blocks
    ensures var w' := SetStorageFlag(w, x, add);
            && Core(w', xs) && DiskSame(w, w') && SameElsewhere(w, w', x)
            && Rec(w', x) == Rec(w, x).(haveStorageRefs := add)
            && w'.dirtyStorageRefBlocks == w.dirtyStorageRefBlocks && w'.blocks.Keys == w.blocks.Keys
  {
    var w' := SetStorageFlag(w, x, add);
    assert Known(w') == Known(w);
    forall y | y !in xs ensures BlockOk(w', y) && Flagged(w', y) {
      assert BlockOk(w, y) && Flagged(w, y);
    }
    assert w'.dirtyBlocks == set y | y in w'.blocks && w'.blocks[y].stored.Some?;
  }

  lemma SetStorageDepsCore(g: Graph, rank: Id -> nat, w: World, x: Id, add: bool, xs: set<Id>)
    requires Acyclic(g, rank) && Core(w, xs) && x in xs && x in w.blocks
    requires HasDeps(Rec(w, x).status) ==> Present(g, w, x)
    ensures var w' := SetStorageDeps(g, w, x, add);
            && Core(w', xs) && DiskSame(w, w')
            && (forall y :: Rec(w', y) == Plus(if y == x then Rec(w, x).(haveStorageRefs := add) else Rec(w, y),
                                               StorageDelta(g, w, x, add, y)))
            && (forall y :: y !in Refs(g, x) ==> (y in w'.dirtyStorageRefBlocks <==> y in w.dirtyStorageRefBlocks))
  {
    hide Core, Known, AddStorageRefs, SetStorageFlag;
    NotOwnRef(g, rank, x);
    if Rec(w, x).haveStorageRefs == add {
      return;
    }
    var w1 := SetStorageFlag(w, x, add);
    SetStorageFlagStep(w, x, add, xs);
    if HasDeps(Rec(w, x).status) {
      AddStorageRefsStep(w1, Refs(g, x), if add then 1 else -1, xs);
      DiskSameTrans(w, w1, SetStorageDeps(g, w, x, add));
    }
  }

  /** How the in-memory count of `y` moves when `x` takes or drops references. */
  ghost function StorageDelta(g: Graph, w: World, x: Id, add: bool, y: Id): int {
    if Rec(w, x).haveStorageRefs == add || !HasDeps(Rec(w, x).status) then 0
    else Signed(add, multiset(Refs(g, x))[y])
  }

  /** Taking or dropping in-memory references keeps all counts in step. */
  lemma SetStorageDepsStep(g: Graph, rank: Id -> nat, w: World, x: Id, add: bool, xs: set<Id>)
    requires Acyclic(g, rank) && Core(w, xs) && x in xs && x in w.blocks
    requires HasDeps(Rec(w, x).status) ==> Present(g, w, x)
    ensures var w' := SetStorageDeps(g, w, x, add);
            && Core(w', xs) && DiskSame(w, w') && SameLeads(g, w, w')
            && Rec(w', x) == Rec(w, x).(haveStorageRefs := add)
            && (forall y :: y != x ==> Rec(w', y).haveStorageRefs == Rec(w, y).haveStorageRefs)
            && (forall y :: y !in Refs(g, x) ==> (y in w'.dirtyStorageRefBlocks <==> y in w.dirtyStorageRefBlocks))
  {
    hide Core, Known, AddStorageRefs, DiskSum, StorageSum, SetStorageFlag, SetStorageDeps;
    var w' := SetStorageDeps(g, w, x, add);
    SetStorageDepsCore(g, rank, w, x, add, xs);
    SetStorageFlagStep(w, x, add, xs);
    NotOwnRef(g, rank, x);
    var w1 := SetStorageFlag(w, x, add);
    forall b ensures StorageLead(g, w', b) == StorageLead(g, w, b) && DiskLead(g, w', b) == DiskLead(g, w, b) {
      SumsMove(g, w, w1, x, b);
      SumsSame(g, w1, w', b);
    }
  }

  lemma CoreNarrow(w: World, xs: set<Id>, b: Id)
    requires Core(w, xs + {b}) && BlockOk(w, b) && Flagged(w, b)
    ensures Core(w, xs)
  {
    forall y | y !in xs ensures BlockOk(w, y) && Flagged(w, y) {
      assert y == b || y !in xs + {b};
    }
  }

  lemma CoreWiden(w: World, xs: set<Id>, b: Id)
    requires Core(w, xs)
    ensures Core(w, xs + {b})
  {
  }

  /** What is stored of a block. */
  ghost function Pers(r: Block): Meta {
    if r.stored.Some? then r.stored.value else Meta(r.refCount, r.status)
  }

  ghost predicate SameHolding(r: Block, r': Block) {
    && r'.status == r.status && r'.backed == r.backed && r'.haveDiskRefs == r.haveDiskRefs && Pers(r') == Pers(r)
  }

  ghost predicate SameCount(r: Block, r': Block) {
    r'.refCount == r.refCount && r'.stored == r.stored && r'.haveStorageRefs == r.haveStorageRefs
  }

  /** What a change of the disk counts of some blocks leaves alone. */
  ghost predicate RefSame(w: World, w': World, bs: set<Id>) {
    && (forall y :: y !in bs ==> SameCount(Rec(w, y), Rec(w', y)))
    && (forall y :: SameHolding(Rec(w, y), Rec(w', y)))
    && w'.backend == w.backend
    && w'.names == w.names && w'.backendNames == w.backendNames
    && w'.explicit == w.explicit && w'.held == w.held
    && w.blocks.Keys <= w'.blocks.Keys && Known(w') == Known(w)
  }

  /** Replacing the record of one block. */
  lemma ReplaceBlock(w: World, w': World, b: Id, r: Block, xs: set<Id>)
    requires Core(w, xs) && b in xs && b in w.blocks && w'.blocks == w.blocks[b := r]
    requires w' == w.(blocks := w'.blocks, dirtyBlocks := w'.dirtyBlocks, dirtyStorageRefBlocks := w'.dirtyStorageRefBlocks)
    requires w'.dirtyBlocks == if r.stored.Some? then w.dirtyBlocks + {b} else w.dirtyBlocks - {b}
    requires w'.dirtyStorageRefBlocks - {b} == w.dirtyStorageRefBlocks - {b}
    ensures Core(w', xs) && SameElsewhere(w, w', b) && Rec(w', b) == r && Known(w') == Known(w)
  {
    assert Known(w') == Known(w);
    forall y | y !in xs ensures BlockOk(w', y) && Flagged(w', y) {
      assert BlockOk(w, y) && Flagged(w, y);
      assert y in w'.dirtyStorageRefBlocks <==> y in w'.dirtyStorageRefBlocks - {b};
      assert y in w.dirtyStorageRefBlocks <==> y in w.dirtyStorageRefBlocks - {b};
    }
    assert w'.dirtyBlocks == set y | y in w'.blocks && w'.blocks[y].stored.Some?;
    forall y | y in w'.dirtyStorageRefBlocks ensures y in w'.blocks {
      assert y == b || y in w.dirtyStorageRefBlocks - {b};
    }
  }

  /** Leads are kept by a change of one block that does not touch its holdings
      and moves its counts as it says. */
  lemma OneBlockLeads(g: Graph, w: World, w': World, b: Id, y: Id)
    requires SameElsewhere(w, w', b)
    requires DiskActive(Rec(w', b)) == DiskActive(Rec(w, b)) && StorageActive(Rec(w', b)) == StorageActive(Rec(w, b))
    ensures DiskLead(g, w', y) == DiskLead(g, w, y) + Share(y == b, Rec(w', b).refCount - Rec(w, b).refCount)
    ensures StorageLead(g, w', y) == StorageLead(g, w, y)
            + Share(y == b, Rec(w', b).storageRefCount - Rec(w, b).storageRefCount
                            - Share(Rec(w', b).stored.Some?, 1) + Share(Rec(w, b).stored.Some?, 1))
  {
    hide Rec, Known, DiskSum, StorageSum, DiskActive, StorageActive;
    SumsMove(g, w, w', b, y);
  }

  lemma MarkDirtyShape(w: World, b: Id)
    requires b in w.blocks
    ensures var w' := MarkDirty(w, b);
            && w'.blocks.Keys == w.blocks.Keys && w'.backend == w.backend
            && w'.dirtyBlocks == (if Rec(w, b).stored.Some? then w.dirtyBlocks else w.dirtyBlocks + {b})
            && w'.dirtyStorageRefBlocks - {b} == w.dirtyStorageRefBlocks - {b}
            && Rec(w', b).stored.Some?
            && (Rec(w, b).stored.Some? ==> w' == w)
            && (Rec(w, b).stored.None? ==>
                  Rec(w', b) == Plus(Rec(w, b), 1).(stored := Some(Meta(Rec(w, b).refCount, Rec(w, b).status))))
            && w'.blocks == w.blocks[b := Rec(w', b)]
            && w' == w.(blocks := w'.blocks, dirtyBlocks := w'.dirtyBlocks, dirtyStorageRefBlocks := w'.dirtyStorageRefBlocks)
            && (w.dirtyStorageRefBlocks <= w'.dirtyStorageRefBlocks)
            && (Rec(w, b).stored.None? && Rec(w', b).storageRefCount == 0 ==> b in w'.dirtyStorageRefBlocks)
  {
  }

  /** Becoming dirty counts once in memory. */
  lemma MarkDirtyStep(g: Graph, w: World, b: Id, xs: set<Id>)
    requires Core(w, xs) && b in w.blocks
    ensures var w' := MarkDirty(w, b);
            && Core(w', xs) && SameLeads(g, w, w') && SameElsewhere(w, w', b) && Known(w') == Known(w)
  {
    var w' := MarkDirty(w, b);
    MarkDirtyShape(w, b);
    if Rec(w, b).stored.Some? {
      return;
    }
    hide MarkDirty, Rec, Core, DiskLead, StorageLead, Known, BlockOk, Flagged;
    CoreWiden(w, xs, b);
    ReplaceBlock(w, w', b, Rec(w', b), xs + {b});
    forall y ensures StorageLead(g, w', y) == StorageLead(g, w, y) && DiskLead(g, w', y) == DiskLead(g, w, y) {
      OneBlockLeads(g, w, w', b, y);
    }
    if b !in xs {
      CoreAt(w, xs, b);
      DirtyIsOk(w, w', b);
      CoreNarrow(w', xs, b);
    } else {
      assert xs + {b} == xs;
    }
  }

  lemma DirtyIsOk(w: World, w': World, b: Id)
    requires b in w.blocks && w' == MarkDirty(w, b) && BlockOk(w, b) && Flagged(w, b)
    ensures BlockOk(w', b) && Flagged(w', b)
  {
  }

  lemma CoreAt(w: World, xs: set<Id>, b: Id)
    requires Core(w, xs) && b !in xs
    ensures BlockOk(w, b) && Flagged(w, b)
  {
  }

  /** The block with a different disk count, dirty. */
  ghost predicate Counted(r: Block, r': Block, count: int) {
    && r'.refCount == r.refCount + count
    && r'.status == r.status && r'.backed == r.backed && r'.haveDiskRefs == r.haveDiskRefs
    && r'.stored == Some(Pers(r))
  }

  ghost function BumpRef(w: World, b: Id, count: int): World
    requires b in w.blocks
  {
    w.(blocks := w.blocks[b := w.blocks[b].(refCount := w.blocks[b].refCount + count)])
  }

  lemma BumpRefStep(g: Graph, w: World, b: Id, count: int, xs: set<Id>)
    requires Core(w, xs) && b in w.blocks && Rec(w, b).stored.Some?
    ensures var w' := BumpRef(w, b, count);
            && Core(w', xs) && SameElsewhere(w, w', b) && Known(w') == Known(w)
            && Rec(w', b) == Rec(w, b).(refCount := Rec(w, b).refCount + count)
            && (forall y :: StorageLead(g, w', y) == StorageLead(g, w, y)
                            && DiskLead(g, w', y) == DiskLead(g, w, y) + Share(y == b, count))
  {
    var w' := BumpRef(w, b, count);
    var r := Rec(w, b).(refCount := Rec(w, b).refCount + count);
    assert b in w.dirtyBlocks;
    assert w.dirtyBlocks + {b} == w.dirtyBlocks;
    CoreWiden(w, xs, b);
    hide Core, DiskLead, StorageLead, Known;
    ReplaceBlock(w, w', b, r, xs + {b});
    forall y ensures StorageLead(g, w', y) == StorageLead(g, w, y)
                     && DiskLead(g, w', y) == DiskLead(g, w, y) + Share(y == b, count)
    {
      OneBlockLeads(g, w, w', b, y);
    }
    if b !in xs {
      CoreAt(w, xs, b);
      CoreNarrow(w', xs, b);
    } else {
      assert xs + {b} == xs;
    }
  }

  lemma DirtyInCore(w: World, b: Id, xs: set<Id>)
    requires Core(w, xs) && b in w.blocks
    ensures Rec(w, b).stored.Some? <==> b in w.dirtyBlocks
  {
  }

  lemma AddRefFirst(g: Graph, w: World, b: Id, count: int, xs: set<Id>)
    requires Core(w, xs) && b in w.blocks && count != 0
    ensures b in MarkDirty(w, b).blocks
    ensures var w' := BumpRef(MarkDirty(w, b), b, count);
            && Core(w', xs) && SameElsewhere(w, w', b) && Known(w') == Known(w) && w'.backend == w.backend
            && w'.blocks.Keys == w.blocks.Keys && Counted(Rec(w, b), Rec(w', b), count)
            && w'.dirtyBlocks == w.dirtyBlocks + {b}
            && (forall y :: StorageLead(g, w', y) == StorageLead(g, w, y)
                            && DiskLead(g, w', y) == DiskLead(g, w, y) + Share(y == b, count))
            && AddRef(g, w, b, count) == (if Rec(w', b).refCount == 0 then SetStorageDeps(g, w', b, true) else w')
  {
    hide Core, DiskLead, StorageLead, Known, SetStorageDeps, MarkDirty;
    DirtyInCore(w, b, xs);
    MarkDirtyShape(w, b);
    MarkDirtyStep(g, w, b, xs);
    BumpRefStep(g, MarkDirty(w, b), b, count, xs);
  }

  lemma RefSameThen(w: World, w1: World, w2: World, b: Id, count: int)
    requires SameElsewhere(w, w1, b) && Known(w1) == Known(w) && w1.backend == w.backend
    requires w1.blocks.Keys == w.blocks.Keys && Counted(Rec(w, b), Rec(w1, b), count)
    requires DiskSame(w1, w2)
    requires forall y :: y != b ==> Rec(w2, y).haveStorageRefs == Rec(w1, y).haveStorageRefs
    ensures RefSame(w, w2, {b}) && Counted(Rec(w, b), Rec(w2, b), count)
  {
    hide Rec, Known;
    assert forall y :: SameOnDisk(Rec(w1, y), Rec(w2, y));
  }

  lemma DiskSameRefl(w: World)
    ensures DiskSame(w, w)
  {
  }

  /** A disk count moves together with its sum's outside part, and all in-memory
      counts stay in step, also when the block drops to no references and takes
      in-memory references to what it refers to. */
  lemma AddRefStep(g: Graph, rank: Id -> nat, w: World, b: Id, count: int, xs: set<Id>)
    requires Acyclic(g, rank) && Core(w, xs) && b in w.blocks && count != 0
    requires HasDeps(Rec(w, b).status) ==> Present(g, w, b)
    ensures var w' := AddRef(g, w, b, count);
            && Core(w', xs) && RefSame(w, w', {b}) && Counted(Rec(w, b), Rec(w', b), count)
            && w'.dirtyBlocks == w.dirtyBlocks + {b}
            && (forall y :: StorageLead(g, w', y) == StorageLead(g, w, y)
                            && DiskLead(g, w', y) == DiskLead(g, w, y) + Share(y == b, count))
  {
    hide Core, DiskLead, StorageLead, MarkDirty, SetStorageDeps, Known, AddRef, Rec, BumpRef;
    AddRefFirst(g, w, b, count, xs);
    var w1 := BumpRef(MarkDirty(w, b), b, count);
    if Rec(w1, b).refCount == 0 {
      DropToZero(g, rank, w1, b, xs);
    } else {
      DiskSameRefl(w1);
    }
    RefSameThen(w, w1, AddRef(g, w, b, count), b, count);
  }

  lemma DropToZero(g: Graph, rank: Id -> nat, w: World, b: Id, xs: set<Id>)
    requires Acyclic(g, rank) && Core(w, xs) && b in w.blocks && Rec(w, b).stored.Some?
    requires HasDeps(Rec(w, b).status) ==> Present(g, w, b)
    ensures var w' := SetStorageDeps(g, w, b, true);
            && Core(w', xs) && DiskSame(w, w') && SameLeads(g, w, w')
            && (forall y :: y != b ==> Rec(w', y).haveStorageRefs == Rec(w, y).haveStorageRefs)
  {
    hide SetStorageDeps, DiskLead, StorageLead, Refs;
    var w' := SetStorageDeps(g, w, b, true);
    CoreWiden(w, xs, b);
    SetStorageDepsStep(g, rank, w, b, true, xs + {b});
    NotOwnRef(g, rank, b);
    if b !in xs {
      CoreAt(w, xs, b);
      CoreNarrow(w', xs, b);
    } else {
      assert xs + {b} == xs;
    }
  }

  lemma RefSameTrans(w: World, w1: World, w2: World, a: set<Id>, b: set<Id>)
    requires RefSame(w, w1, a) && RefSame(w1, w2, b)
    ensures RefSame(w, w2, a + b)
  {
    hide Rec, Known;
    forall y ensures SameHolding(Rec(w, y), Rec(w2, y)) {
      assert SameHolding(Rec(w, y), Rec(w1, y)) && SameHolding(Rec(w1, y), Rec(w2, y));
    }
    forall y | y !in a + b ensures SameCount(Rec(w, y), Rec(w2, y)) {
      assert SameCount(Rec(w, y), Rec(w1, y)) && SameCount(Rec(w1, y), Rec(w2, y));
    }
  }

  lemma LoadRefSame(w: World, id: Id)
    requires forall b :: Rec(Load(w, id), b) == Rec(w, b)
    requires Known(Load(w, id)) == Known(w)
    ensures RefSame(w, Load(w, id), {})
  {
    hide Rec, Known;
  }

  lemma LoadLeads(g: Graph, w: World, id: Id, y: Id)
    requires forall b :: Rec(Load(w, id), b) == Rec(w, b)
    requires Known(Load(w, id)) == Known(w)
    ensures StorageLead(g, Load(w, id), y) == StorageLead(g, w, y) && DiskLead(g, Load(w, id), y) == DiskLead(g, w, y)
  {
    hide Rec, Known, DiskSum, StorageSum;
    SumsSame(g, w, Load(w, id), y);
  }

  /** Bringing a block in and moving its disk count. */
  lemma LoadAndAddRef(g: Graph, rank: Id -> nat, w: World, b: Id, count: int, xs: set<Id>)
    requires Acyclic(g, rank) && Core(w, xs) && b in Known(w) && count != 0
    requires HasDeps(Rec(w, b).status) ==> Present(g, w, b)
    ensures var w' := AddRef(g, Load(w, b), b, count);
            && Core(w', xs) && RefSame(w, w', {b}) && Counted(Rec(w, b), Rec(w', b), count)
            && w'.dirtyBlocks == w.dirtyBlocks + {b}
            && (forall y :: StorageLead(g, w', y) == StorageLead(g, w, y)
                            && DiskLead(g, w', y) == DiskLead(g, w, y) + Share(y == b, count))
  {
    hide Core, DiskLead, StorageLead, AddRef, Known, Rec;
    LoadSame(w, b, xs);
    LoadRefSame(w, b);
    var w1 := Load(w, b);
    AddRefStep(g, rank, w1, b, count, xs);
    RefSameTrans(w, w1, AddRef(g, w1, b, count), {}, {b});
    assert {} + {b} == {b};
    forall y ensures StorageLead(g, w1, y) == StorageLead(g, w, y) && DiskLead(g, w1, y) == DiskLead(g, w, y) {
      LoadLeads(g, w, b, y);
    }
  }

  ghost function IdSet(rs: seq<Id>): set<Id> {
    set b | b in rs
  }

  /** Moving the disk counts of all that a block refers to. */
  lemma {:induction false} AddRefsStep(g: Graph, rank: Id -> nat, w: World, rs: seq<Id>, v: int, xs: set<Id>)
    requires Acyclic(g, rank) && Core(w, xs) && (v == 1 || v == -1)
    requires forall b :: b in rs ==> b in Known(w) && (HasDeps(Rec(w, b).status) ==> Present(g, w, b))
    ensures var w' := AddRefs(g, w, rs, v);
            && Core(w', xs) && RefSame(w, w', IdSet(rs))
            && w'.dirtyBlocks == w.dirtyBlocks + IdSet(rs)
            && (forall y :: Rec(w', y).refCount == Rec(w, y).refCount + Signed(v == 1, multiset(rs)[y]))
            && (forall y :: StorageLead(g, w', y) == StorageLead(g, w, y)
                            && DiskLead(g, w', y) == DiskLead(g, w, y) + Signed(v == 1, multiset(rs)[y]))
  {
    hide Core, DiskLead, StorageLead, AddRef, Known, Rec, Load, IdSet, RefSame, HasDeps, Present, Acyclic;
    if rs != [] {
      var a, b := rs[..|rs| - 1], rs[|rs| - 1];
      assert rs == a + [b];
      AddRefsStep(g, rank, w, a, v, xs);
      var w1 := AddRefs(g, w, a, v);
      RefSameAt(g, w, w1, IdSet(a), b);
      LoadAndAddRef(g, rank, w1, b, v, xs);
      var w' := AddRefs(g, w, rs, v);
      RefSameTrans(w, w1, w', IdSet(a), {b});
      IdSetSnoc(a, b);
      assert multiset(rs) == multiset(a)[b := multiset(a)[b] + 1];
      forall y ensures Rec(w', y).refCount == Rec(w, y).refCount + Signed(v == 1, multiset(rs)[y]) {
        RefSameCount(w1, w', b, y);
      }
    } else {
      assert multiset(rs) == multiset{};
      IdSetNone();
      RefSameRefl(w);
    }
  }

  lemma IdSetNone()
    ensures IdSet([]) == {}
  {
  }

  lemma IdSetSnoc(a: seq<Id>, b: Id)
    ensures IdSet(a + [b]) == IdSet(a) + {b}
  {
  }

  lemma RefSameCount(w: World, w': World, b: Id, y: Id)
    requires RefSame(w, w', {b})
    ensures y != b ==> Rec(w', y).refCount == Rec(w, y).refCount
  {
    hide Rec;
    assert y != b ==> SameCount(Rec(w, y), Rec(w', y));
  }

  lemma RefSameAt(g: Graph, w: World, w': World, bs: set<Id>, b: Id)
    requires RefSame(w, w', bs) && b in Known(w) && (HasDeps(Rec(w, b).status) ==> Present(g, w, b))
    ensures b in Known(w') && (HasDeps(Rec(w', b).status) ==> Present(g, w', b))
  {
    hide Rec, Known;
    assert SameHolding(Rec(w, b), Rec(w', b));
  }

  lemma SetDiskFlagStep(w: World, x: Id, add: bool, xs: set<Id>)
    requires Core(w, xs) && x in xs && x in w.blocks
    ensures var w' := SetDiskFlag(w, x, add);
            && Core(w', xs) && SameElsewhere(w, w', x) && Known(w') == Known(w)
            && Rec(w', x) == Rec(w, x).(haveDiskRefs := add)
            && w'.backend == w.backend && w'.dirtyBlocks == w.dirtyBlocks && w'.blocks.Keys == w.blocks.Keys
  {
    var w' := SetDiskFlag(w, x, add);
    assert if Rec(w', x).stored.Some? then w.dirtyBlocks + {x} == w.dirtyBlocks else w.dirtyBlocks - {x} == w.dirtyBlocks;
    hide Core;
    ReplaceBlock(w, w', x, Rec(w', x), xs);
  }

  /** What a change of who holds disk references leaves alone. */
  ghost predicate HoldSame(w: World, w': World, x: Id) {
    && (forall y :: Rec(w', y).status == Rec(w, y).status && Rec(w', y).backed == Rec(w, y).backed)
    && (forall y :: y != x ==> Rec(w', y).haveDiskRefs == Rec(w, y).haveDiskRefs)
    && SameCount(Rec(w, x), Rec(w', x).(haveStorageRefs := Rec(w, x).haveStorageRefs))
    && w'.backend == w.backend
    && w'.names == w.names && w'.backendNames == w.backendNames
    && w'.explicit == w.explicit && w'.held == w.held
    && w.blocks.Keys <= w'.blocks.Keys && Known(w') == Known(w)
  }

  lemma DiskDepsActive(g: Graph, rank: Id -> nat, w: World, x: Id, add: bool, xs: set<Id>)
    requires Acyclic(g, rank) && Core(w, xs) && x in xs && x in w.blocks && Closed(g, w)
    requires Rec(w, x).haveDiskRefs != add && HasDeps(Rec(w, x).status)
    ensures var w' := SetDiskDeps(g, w, x, add);
            && Core(w', xs) && SameLeads(g, w, w') && HoldSame(w, w', x)
            && Rec(w', x).haveDiskRefs == add && Rec(w', x).haveStorageRefs == Rec(w, x).haveStorageRefs
            && w.dirtyBlocks <= w'.dirtyBlocks <= w.dirtyBlocks + IdSet(Refs(g, x))
  {
    var w1 := SetDiskFlag(w, x, add);
    var w' := SetDiskDeps(g, w, x, add);
    var v := if add then 1 else -1;
    assert w' == AddRefs(g, w1, Refs(g, x), v);
    hide Core, DiskSum, StorageSum, AddRefs, SetDiskFlag, SetDiskDeps, Known, Rec, Present, StorageLead, DiskLead,
      HoldSame;
    SetDiskFlagStep(w, x, add, xs);
    NotOwnRef(g, rank, x);
    RefsPresent(g, w, w1, x);
    AddRefsStep(g, rank, w1, Refs(g, x), v, xs);
    DiskDepsLeads(g, w, w1, w', x, add);
    HoldFromRef(w, w1, w', x, add, IdSet(Refs(g, x)));
  }

  lemma DiskDepsQuiet(g: Graph, w: World, x: Id, add: bool, xs: set<Id>)
    requires Core(w, xs) && x in xs && x in w.blocks
    requires Rec(w, x).haveDiskRefs == add || !HasDeps(Rec(w, x).status)
    ensures var w' := SetDiskDeps(g, w, x, add);
            && Core(w', xs) && SameLeads(g, w, w') && HoldSame(w, w', x)
            && Rec(w', x).haveDiskRefs == add && Rec(w', x).haveStorageRefs == Rec(w, x).haveStorageRefs
            && w.dirtyBlocks <= w'.dirtyBlocks <= w.dirtyBlocks + IdSet(Refs(g, x))
  {
    hide Core, DiskSum, StorageSum, Known, HoldSame, Rec, SetDiskFlag, RefSame, IdSet;
    var w1 := SetDiskFlag(w, x, add);
    SetDiskFlagStep(w, x, add, xs);
    HoldSameRefl(w, x);
    RefSameRefl(w1);
    HoldFromRef(w, w1, w1, x, add, {});
    forall y ensures StorageLead(g, w1, y) == StorageLead(g, w, y) && DiskLead(g, w1, y) == DiskLead(g, w, y) {
      SumsMove(g, w, w1, x, y);
    }
  }

  /** Taking or dropping disk references keeps all counts in step. */
  lemma SetDiskDepsStep(g: Graph, rank: Id -> nat, w: World, x: Id, add: bool, xs: set<Id>)
    requires Acyclic(g, rank) && Core(w, xs) && x in xs && x in w.blocks && Closed(g, w)
    ensures var w' := SetDiskDeps(g, w, x, add);
            && Core(w', xs) && SameLeads(g, w, w') && HoldSame(w, w', x)
            && Rec(w', x).haveDiskRefs == add && Rec(w', x).haveStorageRefs == Rec(w, x).haveStorageRefs
            && w.dirtyBlocks <= w'.dirtyBlocks <= w.dirtyBlocks + IdSet(Refs(g, x))
  {
    hide Core, SetDiskDeps, Known, HoldSame, Rec, SameLeads, Closed;
    if Rec(w, x).haveDiskRefs == add || !HasDeps(Rec(w, x).status) {
      DiskDepsQuiet(g, w, x, add, xs);
    } else {
      DiskDepsActive(g, rank, w, x, add, xs);
    }
  }

  lemma RefSameRefl(w: World)
    ensures RefSame(w, w, {})
  {
  }

  lemma HoldSameRefl(w: World, x: Id)
    ensures HoldSame(w, w, x)
  {
  }

  lemma HoldFromRef(w: World, w1: World, w': World, x: Id, add: bool, bs: set<Id>)
    requires SameElsewhere(w, w1, x) && Rec(w1, x) == Rec(w, x).(haveDiskRefs := add)
    requires Known(w1) == Known(w) && w1.backend == w.backend && w1.blocks.Keys == w.blocks.Keys
    requires RefSame(w1, w', bs) && x !in bs
    ensures HoldSame(w, w', x) && Rec(w', x).haveDiskRefs == add
    ensures Rec(w', x).haveStorageRefs == Rec(w, x).haveStorageRefs
  {
    hide Rec, Known;
    assert forall y :: SameHolding(Rec(w1, y), Rec(w', y));
  }

  lemma RefsPresent(g: Graph, w: World, w1: World, x: Id)
    requires Closed(g, w) && x in w.blocks && HasDeps(Rec(w, x).status)
    requires Known(w1) == Known(w) && forall y :: Rec(w1, y).status == Rec(w, y).status
    ensures forall b :: b in Refs(g, x) ==> b in Known(w1) && (HasDeps(Rec(w1, b).status) ==> Present(g, w1, b))
  {
    assert Present(g, w, x);
    forall b | b in Refs(g, x) ensures b in Known(w1) && (HasDeps(Rec(w1, b).status) ==> Present(g, w1, b)) {
      assert b in Known(w);
      if HasDeps(Rec(w1, b).status) {
        assert Present(g, w, b);
      }
    }
  }

  lemma DiskDepsLeads(g: Graph, w: World, w1: World, w': World, x: Id, add: bool)
    requires SameElsewhere(w, w1, x) && Rec(w, x).haveDiskRefs != add && HasDeps(Rec(w, x).status)
    requires Rec(w1, x) == Rec(w, x).(haveDiskRefs := add)
    requires forall y :: StorageLead(g, w', y) == StorageLead(g, w1, y)
                         && DiskLead(g, w', y) == DiskLead(g, w1, y) + Signed(add, multiset(Refs(g, x))[y])
    ensures SameLeads(g, w, w')
  {
    hide Rec, Known, DiskSum, StorageSum;
    forall y ensures StorageLead(g, w', y) == StorageLead(g, w, y) && DiskLead(g, w', y) == DiskLead(g, w, y) {
      SumsMove(g, w, w1, x, y);
    }
  }

  // ----- writing out a dirty block

  lemma WriteBlockShape(w: World, b: Id)
    requires b in w.blocks && BlockOk(w, b)
    ensures var w' := WriteBlock(w, b);
            && SameElsewhere(w, w', b) && Known(w') == Known(w)
            && w'.blocks.Keys == w.blocks.Keys && w'.dirtyBlocks == w.dirtyBlocks
            && w'.dirtyStorageRefBlocks == w.dirtyStorageRefBlocks
            && Rec(w', b) == Rec(w, b).(backed := Rec(w, b).refCount != 0)
            && (forall y :: y != b ==> (y in w'.backend <==> y in w.backend)
                                       && (y in w.backend ==> w'.backend[y] == w.backend[y]))
            && (b in w'.backend <==> Rec(w, b).refCount != 0)
            && (b in w'.backend ==> w'.backend[b] == Meta(Rec(w, b).refCount, Rec(w, b).status))
  {
    var w' := WriteBlock(w, b);
    assert w'.blocks.Keys == w.blocks.Keys;
    assert Known(w') == Known(w);
    assert forall y :: y != b ==> (y in w'.backend <==> y in w.backend);
  }

  lemma WriteBlockCore(w: World, b: Id)
    requires Core(w, {}) && b in w.blocks
    ensures Core(WriteBlock(w, b), {b})
  {
    var w' := WriteBlock(w, b);
    CoreAt(w, {}, b);
    WriteBlockShape(w, b);
    hide WriteBlock;
    forall y | y !in {b} ensures BlockOk(w', y) && Flagged(w', y) {
      CoreAt(w, {}, y);
    }
    assert w'.dirtyBlocks == set y | y in w'.blocks && w'.blocks[y].stored.Some? by {
      forall y ensures y in w'.blocks && w'.blocks[y].stored.Some? <==> y in w.blocks && w.blocks[y].stored.Some? {
        assert y in w.blocks ==> Rec(w, y) == w.blocks[y] && Rec(w', y) == w'.blocks[y];
      }
    }
  }

  lemma WriteBlockLeads(g: Graph, w: World, b: Id)
    requires b in w.blocks && BlockOk(w, b)
    ensures SameLeads(g, w, WriteBlock(w, b))
  {
    var w' := WriteBlock(w, b);
    WriteBlockShape(w, b);
    hide Known, WriteBlock, BlockOk, DiskLead, StorageLead;
    forall y ensures StorageLead(g, w', y) == StorageLead(g, w, y) && DiskLead(g, w', y) == DiskLead(g, w, y) {
      OneBlockLeads(g, w, w', b, y);
    }
  }

  lemma ClosedKept(g: Graph, w: World, w': World)
    requires Closed(g, w) && Known(w') == Known(w) && forall y :: Rec(w', y).status == Rec(w, y).status
    ensures Closed(g, w')
  {
    hide Rec, Known;
    forall b | b in Known(w') && HasDeps(Rec(w', b).status) ensures Present(g, w', b) {
      assert Present(g, w, b);
    }
  }

  lemma SameLeadsTrans(g: Graph, w: World, w1: World, w2: World)
    requires SameLeads(g, w, w1) && SameLeads(g, w1, w2)
    ensures SameLeads(g, w, w2)
  {
    hide DiskLead, StorageLead;
  }

  /** What settling the references of a block on its way to disk leaves alone. */
  ghost predicate Settled(w: World, w': World, x: Id) {
    && (forall y :: Rec(w', y).status == Rec(w, y).status)
    && Rec(w', x).refCount == Rec(w, x).refCount && Rec(w', x).stored == Rec(w, x).stored
    && Rec(w', x).backed == Rec(w, x).backed
    && w'.backend == w.backend
    && w'.names == w.names && w'.backendNames == w.backendNames
    && w'.explicit == w.explicit && w'.held == w.held
    && w.blocks.Keys <= w'.blocks.Keys && Known(w') == Known(w)
  }

  lemma SettledByHold(w: World, w1: World, w2: World, x: Id)
    requires HoldSame(w, w1, x) && DiskSame(w1, w2)
    ensures Settled(w, w2, x) && Rec(w2, x).haveDiskRefs == Rec(w1, x).haveDiskRefs
  {
    hide Rec, Known;
    assert forall y :: SameOnDisk(Rec(w1, y), Rec(w2, y));
  }

  lemma SettleDepsStep(g: Graph, rank: Id -> nat, w: World, b: Id, hadRefs: bool, haveRefs: bool)
    requires Acyclic(g, rank) && Core(w, {b}) && b in w.blocks && Closed(g, w)
    requires Rec(w, b).haveDiskRefs == hadRefs
    ensures var w' := SettleDeps(g, w, b, hadRefs, haveRefs);
            && Core(w', {b}) && SameLeads(g, w, w') && Closed(g, w') && Settled(w, w', b)
            && Rec(w', b).haveDiskRefs == haveRefs && (haveRefs && !hadRefs ==> !Rec(w', b).haveStorageRefs)
            && w.dirtyBlocks <= w'.dirtyBlocks <= w.dirtyBlocks + IdSet(Refs(g, b))
  {
    hide Core, Rec, Known, SetDiskDeps, SetStorageDeps, HoldSame, DiskSame, DiskLead, StorageLead, Closed, Present, IdSet;
    var w1 := if hadRefs == haveRefs then w else SetDiskDeps(g, w, b, haveRefs);
    var w' := SettleDeps(g, w, b, hadRefs, haveRefs);
    HoldSameRefl(w, b);
    DiskSameRefl(w1);
    if hadRefs != haveRefs {
      SetDiskDepsStep(g, rank, w, b, haveRefs, {b});
      HoldClosed(g, w, w1, b);
      if haveRefs {
        ClosedPresent(g, w1, b);
        SetStorageDepsStep(g, rank, w1, b, false, {b});
        SameLeadsTrans(g, w, w1, w');
        DirtySame(w1, w');
      }
    }
    SettledByHold(w, w1, w', b);
    ClosedKept(g, w, w');
  }

  lemma DirtySame(w: World, w': World)
    requires DiskSame(w, w')
    ensures w'.dirtyBlocks == w.dirtyBlocks
  {
  }

  lemma ClosedPresent(g: Graph, w: World, b: Id)
    requires Closed(g, w) && b in w.blocks
    ensures HasDeps(Rec(w, b).status) ==> Present(g, w, b)
  {
  }

  lemma HoldClosed(g: Graph, w: World, w': World, x: Id)
    requires Closed(g, w) && HoldSame(w, w', x) && x in w.blocks
    ensures Closed(g, w') && x in w'.blocks
  {
    hide Rec, Known;
    ClosedKept(g, w, w');
  }

  lemma MarkCleanStep(g: Graph, w: World, b: Id)
    requires Core(w, {b}) && b in w.blocks && Rec(w, b).stored.Some?
    ensures var w' := MarkClean(w, b);
            && Core(w', {b}) && SameElsewhere(w, w', b) && Known(w') == Known(w)
            && Rec(w', b) == Rec(w, b).(stored := None) && w'.backend == w.backend && b in w'.blocks
            && w'.dirtyBlocks == w.dirtyBlocks - {b}
            && (forall y :: DiskLead(g, w', y) == DiskLead(g, w, y)
                            && StorageLead(g, w', y) == StorageLead(g, w, y) + Share(y == b, 1))
  {
    var w' := MarkClean(w, b);
    hide Core, DiskLead, StorageLead, Known;
    ReplaceBlock(w, w', b, Rec(w, b).(stored := None), {b});
    forall y ensures DiskLead(g, w', y) == DiskLead(g, w, y)
                     && StorageLead(g, w', y) == StorageLead(g, w, y) + Share(y == b, 1)
    {
      OneBlockLeads(g, w, w', b, y);
    }
  }

  /** An in-memory count moves, and nothing else. */
  lemma AddStorageRefLeads(g: Graph, w: World, b: Id, v: int, xs: set<Id>)
    requires Core(w, xs) && b in w.blocks
    ensures var w' := AddStorageRef(w, b, v);
            forall y :: DiskLead(g, w', y) == DiskLead(g, w, y)
                        && StorageLead(g, w', y) == StorageLead(g, w, y) + Share(y == b, v)
  {
    var w' := AddStorageRef(w, b, v);
    AddStorageRefStep(w, b, v, xs);
    hide Core, DiskLead, StorageLead, Known, Rec, AddStorageRef;
    forall y ensures DiskLead(g, w', y) == DiskLead(g, w, y)
                     && StorageLead(g, w', y) == StorageLead(g, w, y) + Share(y == b, v)
    {
      OneBlockLeads(g, w, w', b, y);
    }
  }

  lemma BalancedLeads(g: Graph, w: World)
    ensures Balanced(g, w) <==> forall y :: DiskLead(g, w, y) == 0 && StorageLead(g, w, y) == 0
  {
    hide DiskSum, StorageSum, Rec;
    if forall y :: DiskLead(g, w, y) == 0 && StorageLead(g, w, y) == 0 {
      forall y ensures Rec(w, y).refCount == DiskSum(g, w, y) && Rec(w, y).storageRefCount == StorageSum(g, w, y) {
        assert DiskLead(g, w, y) == 0 && StorageLead(g, w, y) == 0;
      }
    }
  }

  lemma CleanBlockOk(w: World, w': World, b: Id)
    requires b in w.blocks && w' == AddStorageRef(w, b, -1) && Rec(w, b).stored.None?
    requires Rec(w, b).haveDiskRefs == Rec(w, b).backed == (Rec(w, b).refCount != 0) && Rec(w, b).refCount >= 0
    requires b in w.backend <==> Rec(w, b).refCount != 0
    requires b in w.backend ==> w.backend[b] == Meta(Rec(w, b).refCount, Rec(w, b).status)
    ensures BlockOk(w', b) && Flagged(w', b)
  {
  }

  lemma SettleWritten(g: Graph, rank: Id -> nat, w: World, b: Id, hadRefs: bool, haveRefs: bool)
    requires Acyclic(g, rank) && Inv(g, w) && b in w.blocks && Rec(w, b).haveDiskRefs == hadRefs
    ensures var w1 := WriteBlock(w, b);
            var w' := SettleDeps(g, w1, b, hadRefs, haveRefs);
            && Core(w', {b}) && SameLeads(g, w, w') && Closed(g, w') && Settled(w1, w', b)
            && Rec(w', b).haveDiskRefs == haveRefs && (haveRefs && !hadRefs ==> !Rec(w', b).haveStorageRefs)
            && w'.dirtyBlocks <= w.dirtyBlocks + IdSet(Refs(g, b))
  {
    hide WriteBlock, BlockOk, Flagged, SettleDeps, Core, Balanced, Known, Rec, Closed, SameLeads, Settled, IdSet, Refs,
      Acyclic;
    var w1 := WriteBlock(w, b);
    CoreAt(w, {}, b);
    WriteBlockShape(w, b);
    WriteBlockCore(w, b);
    WriteBlockLeads(g, w, b);
    ClosedKept(g, w, w1);
    SettleDepsStep(g, rank, w1, b, hadRefs, haveRefs);
    SameLeadsTrans(g, w, w1, SettleDeps(g, w1, b, hadRefs, haveRefs));
  }

  /** The last two steps of writing out a block. */
  lemma CleanStep(g: Graph, w: World, b: Id)
    requires Core(w, {b}) && b in w.blocks && Rec(w, b).stored.Some? && Closed(g, w)
    requires Rec(w, b).haveDiskRefs == Rec(w, b).backed == (Rec(w, b).refCount != 0) && Rec(w, b).refCount >= 0
    requires b in w.backend <==> Rec(w, b).refCount != 0
    requires b in w.backend ==> w.backend[b] == Meta(Rec(w, b).refCount, Rec(w, b).status)
    ensures var w' := AddStorageRef(MarkClean(w, b), b, -1);
            && Core(w', {}) && SameLeads(g, w, w') && Closed(g, w')
            && w'.dirtyBlocks == w.dirtyBlocks - {b} && w'.backend == w.backend
            && Rec(w', b).haveStorageRefs == Rec(w, b).haveStorageRefs
            && w'.names == w.names && w'.backendNames == w.backendNames
            && w'.explicit == w.explicit && w'.held == w.held && Known(w') == Known(w)
  {
    var w1 := MarkClean(w, b);
    var w' := AddStorageRef(w1, b, -1);
    hide MarkClean, AddStorageRef, Core, DiskLead, StorageLead, Closed, Known, Rec, BlockOk, Flagged, SameOnDisk;
    MarkCleanStep(g, w, b);
    AddStorageRefStep(w1, b, -1, {b});
    AddStorageRefLeads(g, w1, b, -1, {b});
    CleanBlockOk(w1, w', b);
    assert {} + {b} == {b};
    CoreNarrow(w', {}, b);
    forall y ensures Rec(w', y).status == Rec(w, y).status {
      assert y == b || Rec(w1, y) == Rec(w, y);
    }
    ClosedKept(g, w, w');
  }

  /** Writing out a dirty block keeps the invariant.  It is clean afterwards, and
      only blocks it refers to may have become dirty. */
  lemma FlushBlockStep(g: Graph, rank: Id -> nat, w: World, b: Id)
    requires Acyclic(g, rank) && Inv(g, w) && b in w.dirtyBlocks
    ensures b in w.blocks && w.blocks[b].stored.Some?
    ensures var w' := FlushBlock(g, w, b);
            && Inv(g, w') && b !in w'.dirtyBlocks && w'.dirtyBlocks <= w.dirtyBlocks - {b} + IdSet(Refs(g, b))
            && w'.names == w.names && w'.backendNames == w.backendNames
            && w'.explicit == w.explicit && w'.held == w.held && Known(w') == Known(w)
            && (w.blocks[b].refCount != 0 && !w.blocks[b].haveDiskRefs ==> !Rec(w', b).haveStorageRefs)
  {
    hide WriteBlock, SettleDeps, AddStorageRef, MarkClean, Inv, IdSet, Refs, Acyclic, Known, Rec;
    DirtyStored(g, w, b);
    HadRefs(g, w, b);
    FlushBlockParts(g, rank, w, b);
  }

  lemma HadRefs(g: Graph, w: World, b: Id)
    requires Inv(g, w) && b in w.blocks && w.blocks[b].stored.Some?
    ensures w.blocks[b].haveDiskRefs == (w.blocks[b].backed && w.blocks[b].stored.value.refCount != 0)
    ensures Rec(w, b) == w.blocks[b] && b in Known(w)
  {
    hide Balanced, Closed, Flagged;
    CoreAt(w, {}, b);
  }

  lemma FlushBlockParts(g: Graph, rank: Id -> nat, w: World, b: Id)
    requires Acyclic(g, rank) && Inv(g, w) && b in w.blocks && Rec(w, b).stored.Some? && Rec(w, b) == w.blocks[b]
    ensures var w2 := SettleDeps(g, WriteBlock(w, b), b, Rec(w, b).haveDiskRefs, Rec(w, b).refCount != 0);
            var w' := AddStorageRef(MarkClean(w2, b), b, -1);
            && Inv(g, w') && b !in w'.dirtyBlocks && w'.dirtyBlocks <= w.dirtyBlocks - {b} + IdSet(Refs(g, b))
            && w'.names == w.names && w'.backendNames == w.backendNames
            && w'.explicit == w.explicit && w'.held == w.held && Known(w') == Known(w)
            && (Rec(w, b).refCount != 0 && !Rec(w, b).haveDiskRefs ==> !Rec(w', b).haveStorageRefs)
  {
    hide WriteBlock, SettleDeps, AddStorageRef, MarkClean, Core, Balanced, Closed, SameLeads, IdSet, Refs,
      Acyclic, BlockOk, Flagged, Rec, Known;
    var w1 := WriteBlock(w, b);
    var w2 := SettleDeps(g, w1, b, Rec(w, b).haveDiskRefs, Rec(w, b).refCount != 0);
    CoreAt(w, {}, b);
    WriteBlockShape(w, b);
    CountsNatural(g, w, b);
    SettleWritten(g, rank, w, b, Rec(w, b).haveDiskRefs, Rec(w, b).refCount != 0);
    CleanStep(g, w2, b);
    SameLeadsTrans(g, w, w2, AddStorageRef(MarkClean(w2, b), b, -1));
    BalancedKept(g, w, AddStorageRef(MarkClean(w2, b), b, -1));
  }

  lemma BalancedKept(g: Graph, w: World, w': World)
    requires Balanced(g, w) && SameLeads(g, w, w')
    ensures Balanced(g, w')
  {
    hide Balanced, DiskLead, StorageLead;
    BalancedLeads(g, w);
    BalancedLeads(g, w');
  }

  lemma CountsNatural(g: Graph, w: World, b: Id)
    requires Inv(g, w)
    ensures Rec(w, b).refCount >= 0 && Rec(w, b).storageRefCount >= 0
  {
    hide Core, Closed, Rec, DiskSum, StorageSum;
  }

  lemma DirtyStored(g: Graph, w: World, b: Id)
    requires Inv(g, w)
    ensures b in w.dirtyBlocks <==> b in w.blocks && w.blocks[b].stored.Some?
  {
    hide Balanced, Closed, BlockOk, Flagged;
  }
}
