/** A backend that runs its calls in parallel and therefore works on copies of
    blocks, and what its counting of the copies does to the storage. */
module StorageCopies {
  import opened Keys
  import opened StorageState
  import opened StorageLemmas
  import opened StorageFlush
  import opened StorageJobs
  import opened StorageStatus

  /** A copy of the block with an id: an object of its own. */
  datatype Copy = Copy(id: Id, block: Block)

  /** The storage, and the copies on its list of blocks to look at. */
  datatype CopyWorld = CopyWorld(w: World, copies: seq<Copy>)

  function Count(r: Block, v: int): Block {
    r.(storageRefCount := r.storageRefCount + v)
  }

  /** Whether counting a block puts it on the list. */
  predicate Lists(r: Block) {
    r.storageRefCount == 0 || (r.refCount == 0) != r.haveStorageRefs
  }

  /** What one backend call leaves on the list: it takes a copy and counts that up
      and down again. */
  function Touch(b: Id, r: Block): seq<Copy> {
    if Lists(Count(r, 1)) || Lists(Count(Count(r, 1), -1)) then [Copy(b, Count(Count(r, 1), -1))] else []
  }

  /** Whether writing out a block calls the backend at all. */
  predicate Calls(r: Block) {
    r.refCount != 0 || r.backed
  }

  function CopyingWrite(c: CopyWorld, b: Id): CopyWorld
    requires b in c.w.blocks
  {
    CopyWorld(WriteBlock(c.w, b), c.copies + if Calls(c.w.blocks[b]) then Touch(b, c.w.blocks[b]) else [])
  }

  /** Writing out what has changed of a block, through such a backend. */
  function CopyingFlush(g: Graph, c: CopyWorld, b: Id): CopyWorld
    requires b in c.w.blocks && c.w.blocks[b].stored.Some?
  {
    var r := c.w.blocks[b];
    var hadRefs := r.backed && r.stored.value.refCount != 0;
    var c1 := CopyingWrite(c, b);
    CopyWorld(AddStorageRef(MarkClean(SettleDeps(g, c1.w, b, hadRefs, r.refCount != 0), b), b, -1), c1.copies)
  }

  /** Makes a copy hold in-memory references, or not: its flag is its own, but the
      references are counted in the storage. */
  function SetCopyDeps(g: Graph, w: World, x: Copy, add: bool): World {
    if x.block.haveStorageRefs == add || !HasDeps(x.block.status) then w
    else AddStorageRefs(w, Refs(g, x.id), if add then 1 else -1)
  }

  /** Looking at a copy on the list, as at any block. */
  function FlushCopy(g: Graph, w: World, x: Copy): World {
    if x.block.storageRefCount == 0 then Forget(SetCopyDeps(g, w, x, false), x.id)
    else SetCopyDeps(g, w, x, x.block.refCount == 0)
  }

  function FlushCopies(g: Graph, w: World, xs: seq<Copy>): World {
    if xs == [] then w else FlushCopy(g, FlushCopies(g, w, xs[..|xs| - 1]), xs[|xs| - 1])
  }

  // ----- what looking at a copy moves

  /** By how much looking at a copy in use moves the in-memory count of `y`. */
  function Off(g: Graph, x: Copy, y: Id): int {
    var add := x.block.refCount == 0;
    if x.block.haveStorageRefs == add || !HasDeps(x.block.status) then 0
    else Signed(add, multiset(Refs(g, x.id))[y])
  }

  function OffAll(g: Graph, xs: seq<Copy>, y: Id): int {
    if xs == [] then 0 else OffAll(g, xs[..|xs| - 1], y) + Off(g, xs[|xs| - 1], y)
  }

  /** What the copies are off cancels out for every block. */
  ghost predicate Cancel(g: Graph, xs: seq<Copy>) {
    forall y :: OffAll(g, xs, y) == 0
  }

  /** The copy is in use, and what it refers to exists. */
  ghost predicate Usable(g: Graph, w: World, x: Copy) {
    x.block.storageRefCount > 0 && (HasDeps(x.block.status) ==> Present(g, w, x.id))
  }

  lemma FlushCopyStep(g: Graph, w: World, x: Copy)
    requires Core(w, {}) && Usable(g, w, x)
    ensures var w' := FlushCopy(g, w, x);
            && Core(w', {}) && Known(w') == Known(w)
            && forall y :: DiskLead(g, w', y) == DiskLead(g, w, y)
                           && StorageLead(g, w', y) == StorageLead(g, w, y) + Off(g, x, y)
  {
    hide Core, Known, DiskLead, StorageLead, AddStorageRefs, HasDeps, Refs, DiskSame, Rec;
    var add := x.block.refCount == 0;
    if x.block.haveStorageRefs != add && HasDeps(x.block.status) {
      var v := if add then 1 else -1;
      AddStorageRefsStep(w, Refs(g, x.id), v, {});
      DiskSameKnown(w, AddStorageRefs(w, Refs(g, x.id), v));
      forall y ensures var w' := AddStorageRefs(w, Refs(g, x.id), v);
                       && DiskLead(g, w', y) == DiskLead(g, w, y)
                       && StorageLead(g, w', y) == StorageLead(g, w, y) + Off(g, x, y) {
        AddStorageRefsLeads(g, w, Refs(g, x.id), v, y, {});
      }
    }
  }

  lemma UsableKept(g: Graph, w: World, w': World, x: Copy)
    requires Usable(g, w, x) && Known(w') == Known(w)
    ensures Usable(g, w', x)
  {
    hide Known;
    PresentKept(g, w, w', x.id);
  }

  /** Every copy moves the counts by what it is off, whatever the others do. */
  lemma {:induction false} FlushCopiesStep(g: Graph, w: World, xs: seq<Copy>)
    requires Core(w, {}) && forall i :: 0 <= i < |xs| ==> Usable(g, w, xs[i])
    ensures var w' := FlushCopies(g, w, xs);
            && Core(w', {}) && Known(w') == Known(w)
            && forall y :: DiskLead(g, w', y) == DiskLead(g, w, y)
                           && StorageLead(g, w', y) == StorageLead(g, w, y) + OffAll(g, xs, y)
    decreases |xs|
  {
    hide Core, Known, DiskLead, StorageLead, FlushCopy, Usable, Off;
    if xs != [] {
      var front, x := xs[..|xs| - 1], xs[|xs| - 1];
      FlushCopiesStep(g, w, front);
      UsableKept(g, w, FlushCopies(g, w, front), x);
      FlushCopyStep(g, FlushCopies(g, w, front), x);
    }
  }

  /** Once all copies have been looked at, in any order, the counts are right if and
      only if what they are off cancels out for every block. */
  lemma CopiesExact(g: Graph, w: World, xs: seq<Copy>)
    requires Inv(g, w) && forall i :: 0 <= i < |xs| ==> Usable(g, w, xs[i])
    ensures Balanced(g, FlushCopies(g, w, xs)) <==> Cancel(g, xs)
  {
    hide Core, Known, DiskLead, StorageLead, Usable, Balanced, Closed, NamesOk;
    FlushCopiesStep(g, w, xs);
    CancelExact(g, w, FlushCopies(g, w, xs), xs);
  }

  lemma CancelExact(g: Graph, w: World, w': World, xs: seq<Copy>)
    requires Inv(g, w)
    requires forall y :: DiskLead(g, w', y) == DiskLead(g, w, y)
                         && StorageLead(g, w', y) == StorageLead(g, w, y) + OffAll(g, xs, y)
    ensures Balanced(g, w') <==> Cancel(g, xs)
  {
    hide Core, Known, DiskLead, StorageLead, Balanced, Closed, NamesOk;
    BalancedLeads(g, w');
    forall y ensures DiskLead(g, w', y) == 0 && StorageLead(g, w', y) == OffAll(g, xs, y) {
      LeadsOfInv(g, w, y);
      assert DiskLead(g, w', y) == DiskLead(g, w, y);
    }
    if Balanced(g, w') {
      forall y ensures OffAll(g, xs, y) == 0 {
        assert DiskLead(g, w', y) == 0 && StorageLead(g, w', y) == 0;
      }
    }
    if Cancel(g, xs) {
      forall y ensures DiskLead(g, w', y) == 0 && StorageLead(g, w', y) == 0 {
        assert OffAll(g, xs, y) == 0;
      }
    }
  }

  // ----- when writing out a block makes counts wrong

  /** The block holds references in its data, and its flag is not what a listed block
      with its disk count comes to have. */
  predicate Harmful(g: Graph, r: Block, b: Id) {
    && HasDeps(r.status) && Refs(g, b) != []
    && if r.refCount != 0 then r.haveStorageRefs else r.backed && !r.haveStorageRefs
  }

  lemma CopyUsable(g: Graph, rank: Id -> nat, w: World, b: Id)
    requires Acyclic(g, rank) && Inv(g, w) && b in w.dirtyBlocks
    ensures b in w.blocks && w.blocks[b].stored.Some? && w.blocks[b].storageRefCount >= 1
    ensures Inv(g, FlushBlock(g, w, b)) && Usable(g, FlushBlock(g, w, b), Copy(b, w.blocks[b]))
  {
    hide FlushBlock, Inv, Acyclic, Present, HasDeps, Known;
    FlushBlockStep(g, rank, w, b);
    CopyInUse(g, w, b);
    InvPresent(g, w, b);
    PresentKept(g, w, FlushBlock(g, w, b), b);
  }

  lemma CopyInUse(g: Graph, w: World, b: Id)
    requires Inv(g, w) && b in w.blocks && w.blocks[b].stored.Some?
    ensures w.blocks[b].storageRefCount >= 1 && b in Known(w) && Rec(w, b) == w.blocks[b]
  {
    hide Core, Closed, NamesOk, Balanced, DiskLead, StorageLead;
    RecOfLoaded(w, b);
    LeadsOfInv(g, w, b);
    DirtyInUse(g, w, b);
  }

  lemma InvPresent(g: Graph, w: World, b: Id)
    requires Inv(g, w) && b in Known(w)
    ensures HasDeps(Rec(w, b).status) ==> Present(g, w, b)
  {
    hide Core, NamesOk, Balanced;
  }

  /** None or one copy: what cancels out. */
  lemma FewCopies(g: Graph, x: Copy)
    ensures Cancel(g, []) && (Cancel(g, [x]) <==> forall y :: Off(g, x, y) == 0)
  {
    assert [x][..0] == [];
    assert forall y :: OffAll(g, [x], y) == OffAll(g, [x][..0], y) + Off(g, x, y);
    if Cancel(g, [x]) {
      forall y ensures Off(g, x, y) == 0 {
        assert OffAll(g, [x], y) == 0;
      }
    }
  }

  /** A copy is on the list exactly if the flag is not as it should be, and it is off
      for some block exactly if it also holds references. */
  lemma TouchedOff(g: Graph, b: Id, r: Block)
    requires r.storageRefCount >= 1
    ensures Touch(b, r) == if (r.refCount == 0) != r.haveStorageRefs then [Copy(b, r)] else []
    ensures Calls(r) ==> (Harmful(g, r, b) <==> Touch(b, r) != [] && exists y :: Off(g, Copy(b, r), y) != 0)
  {
    assert Count(Count(r, 1), -1) == r;
    if Refs(g, b) != [] {
      var y := Refs(g, b)[0];
      assert multiset(Refs(g, b))[y] > 0;
      assert Harmful(g, r, b) && Calls(r) ==> Off(g, Copy(b, r), y) != 0;
    } else {
      assert multiset(Refs(g, b)) == multiset{};
    }
  }

  /** Writing out a dirty block through such a backend, and looking at the copy if it
      is listed, leaves the counts right if and only if the block is not harmful. */
  lemma CopyExact(g: Graph, rank: Id -> nat, w: World, b: Id)
    requires Acyclic(g, rank) && Inv(g, w) && b in w.dirtyBlocks
    ensures b in w.blocks && w.blocks[b].stored.Some?
    ensures var c := CopyingFlush(g, CopyWorld(w, []), b);
            Balanced(g, FlushCopies(g, c.w, c.copies)) <==> !Harmful(g, w.blocks[b], b)
  {
    hide Inv, Acyclic, Balanced, FlushCopies, Usable, Cancel, Off, WriteBlock, SettleDeps, MarkClean, AddStorageRef, Touch,
      Harmful;
    CopyUsable(g, rank, w, b);
    var r, x := w.blocks[b], Copy(b, w.blocks[b]);
    var c := CopyingFlush(g, CopyWorld(w, []), b);
    assert c.w == FlushBlock(g, w, b);
    TouchedOff(g, b, r);
    CopiesExact(g, c.w, c.copies);
    FewCopies(g, x);
    assert c.copies == [] || c.copies == [x];
    if !Calls(r) {
      NotWritten(g, r, b);
    }
  }

  lemma NotWritten(g: Graph, r: Block, b: Id)
    requires !Calls(r)
    ensures !Harmful(g, r, b)
  {
  }

  // ----- a run on which it fails

  const GRAPH: Graph := map["a" := ["c"]]

  function GraphRank(b: Id): nat {
    if b == "a" then 1 else 0
  }

  const EMPTY := World(map[], {}, {}, map[], map[], map[], map[], map[])

  /** A new block in use without a disk reference, and a flush: the block comes to
      hold its references in memory. */
  ghost function StoreAndFlush(w: World, b: Id): World {
    var w1 := StoreJob(GRAPH, w, b, NORMAL, 0);
    if b in w1.blocks then StorageFlush.FlushStorageRef(GRAPH, w1, b) else w1
  }

  function Holding(count: int): Block {
    Block(0, NORMAL, false, None, count, false, true)
  }

  lemma StoredHolding(w: World, b: Id)
    requires Inv(GRAPH, w) && w.dirtyBlocks == {} && w.dirtyStorageRefBlocks == {} && b !in Known(w) && Present(GRAPH, w, b)
    requires At(w.held, b) == 0
    ensures var w1 := StoreJob(GRAPH, w, b, NORMAL, 0);
            && Inv(GRAPH, w1) && w1.dirtyBlocks == {} && w1.dirtyStorageRefBlocks == {b}
            && w1.blocks == w.blocks[b := Holding(1).(haveStorageRefs := false)]
            && StoreAndFlush(w, b) == SetStorageDeps(GRAPH, Unlist(w1, b), b, true)
  {
    hide Inv, Present, Known;
    StoreStep(GRAPH, GraphRank, w, b, NORMAL, 0);
  }

  /** A flush of the one listed block, once it is in use. */
  lemma SweptOne(w: World, b: Id)
    requires Inv(GRAPH, w) && w.dirtyBlocks == {} && w.dirtyStorageRefBlocks == {b} && b in w.blocks
    requires w.blocks[b].storageRefCount > 0 && w.blocks[b].refCount == 0
    requires SetStorageDeps(GRAPH, Unlist(w, b), b, true).dirtyStorageRefBlocks == {}
    ensures Inv(GRAPH, SetStorageDeps(GRAPH, Unlist(w, b), b, true))
  {
    hide Inv, Sweeping, SetStorageDeps, Acyclic;
    SweepStart(GRAPH, w);
    RecOfLoaded(w, b);
    assert Acyclic(GRAPH, GraphRank) by {
      GraphAcyclic();
    }
    FlushUsed(GRAPH, GraphRank, w, b);
    SweepEnd(GRAPH, SetStorageDeps(GRAPH, Unlist(w, b), b, true));
  }

  lemma GraphAcyclic()
    ensures Acyclic(GRAPH, GraphRank)
  {
  }

  lemma EmptyInv()
    ensures Inv(GRAPH, EMPTY)
  {
    forall y ensures Rec(EMPTY, y).refCount == DiskSum(GRAPH, EMPTY, y)
                     && Rec(EMPTY, y).storageRefCount == StorageSum(GRAPH, EMPTY, y) {
      assert DiskHolders(EMPTY) == {} && StorageHolders(EMPTY) == {};
      NotNamed(EMPTY.backendNames, EMPTY.names, y);
    }
  }

  lemma NotNamed(m: map<Name, Id>, names: map<Name, OldNew>, b: Id)
    requires (forall n :: n in m ==> m[n] != b) && forall n :: n in names ==> !names[n].gotStorageRef
    ensures NamesAt(m, b) == 0 && PendingAt(names, b) == 0
  {
    assert (set n | n in m && m[n] == b) == {};
    assert (set n | n in names && names[n].gotStorageRef && names[n].newValue == Some(b)) == {};
  }

  lemma StoredC()
    ensures StoreAndFlush(EMPTY, "c")
            == World(map["c" := Holding(1)], {}, {}, map[], map[], map[], map[], map["c" := 1])
    ensures Inv(GRAPH, StoreAndFlush(EMPTY, "c"))
  {
    hide Inv;
    EmptyInv();
    StoredHolding(EMPTY, "c");
    var w1 := StoreJob(GRAPH, EMPTY, "c", NORMAL, 0);
    assert AddStorageRefs(SetStorageFlag(Unlist(w1, "c"), "c", true), [], 1) == SetStorageFlag(Unlist(w1, "c"), "c", true);
    SweptOne(w1, "c");
  }

  lemma StoredA()
    ensures var w := StoreAndFlush(StoreAndFlush(EMPTY, "c"), "a");
            && w == World(map["c" := Holding(2), "a" := Holding(1)], {}, {}, map[], map[], map[], map[],
                          map["c" := 1, "a" := 1])
            && Inv(GRAPH, w)
  {
    hide Inv;
    StoredC();
    var w0 := StoreAndFlush(EMPTY, "c");
    StoredHolding(w0, "a");
    var w1 := StoreJob(GRAPH, w0, "a", NORMAL, 0);
    var w2 := SetStorageFlag(Unlist(w1, "a"), "a", true);
    assert ["c"][..0] == [];
    assert AddStorageRefs(w2, ["c"][..0], 1) == w2;
    assert AddStorageRefs(w2, ["c"], 1) == AddStorageRef(w2, "c", 1);
    SweptOne(w1, "a");
  }

  /** Block `a` refers to block `c`.  Both are stored and flushed while they are in
      use, and only then `a` gets a disk reference. */
  ghost function FailingRun(): World {
    ReferJob(GRAPH, StoreAndFlush(StoreAndFlush(EMPTY, "c"), "a"), "a", 1)
  }

  lemma RunReached()
    ensures var w := FailingRun();
            && Inv(GRAPH, w) && w.dirtyBlocks == {"a"} && "a" in w.blocks
            && w.blocks["a"] == Block(1, NORMAL, false, Some(Meta(0, NORMAL)), 2, false, true)
  {
    hide Inv;
    StoredA();
    GraphAcyclic();
    ReferStep(GRAPH, GraphRank, StoreAndFlush(StoreAndFlush(EMPTY, "c"), "a"), "a", 1);
  }

  lemma CopyOfA(r: Block)
    requires r == Block(1, NORMAL, false, Some(Meta(0, NORMAL)), 2, false, true)
    ensures Calls(r) && Touch("a", r) == [Copy("a", r)] && Harmful(GRAPH, r, "a")
    ensures OffAll(GRAPH, [Copy("a", r)], "c") == -1
  {
    var x := Copy("a", r);
    assert [x][..0] == [];
    assert OffAll(GRAPH, [x][..0], "c") == 0;
    assert Off(GRAPH, x, "c") == -1;
  }

  /** Writing out `a` lets go of `c`, and so does looking at the copy of `a`: the
      count of `c` is one too low. */
  lemma CopyFails()
    ensures var w := FailingRun();
            && Inv(GRAPH, w) && "a" in w.dirtyBlocks && "a" in w.blocks && w.blocks["a"].stored.Some?
            && var c := CopyingFlush(GRAPH, CopyWorld(w, []), "a");
               && c.copies == [Copy("a", w.blocks["a"])]
               && !Balanced(GRAPH, FlushCopies(GRAPH, c.w, c.copies))
               && StorageLead(GRAPH, FlushCopies(GRAPH, c.w, c.copies), "c") == -1
  {
    hide Inv, Balanced, FlushCopies, StorageLead, DiskLead, FailingRun, Usable, OffAll, Harmful, Touch, Core, Known, WriteBlock,
      SettleDeps, MarkClean, AddStorageRef;
    RunReached();
    GraphAcyclic();
    var w := FailingRun();
    CopyExact(GRAPH, GraphRank, w, "a");
    CopyOfA(w.blocks["a"]);
    var c := CopyingFlush(GRAPH, CopyWorld(w, []), "a");
    CopyUsable(GRAPH, GraphRank, w, "a");
    assert c.w == FlushBlock(GRAPH, w, "a");
    OffBy(GRAPH, c.w, c.copies, "c");
  }

  lemma OffBy(g: Graph, w: World, xs: seq<Copy>, y: Id)
    requires Inv(g, w) && forall i :: 0 <= i < |xs| ==> Usable(g, w, xs[i])
    ensures StorageLead(g, FlushCopies(g, w, xs), y) == OffAll(g, xs, y)
  {
    hide Core, Known, DiskLead, StorageLead, Usable, Balanced, Closed, NamesOk;
    FlushCopiesStep(g, w, xs);
    LeadsOfInv(g, w, y);
  }

  // ----- the other way to fail

  /** A storage opened on `a`, which something outside refers to, and `c`. */
  const SAVED := World(map[], {}, {}, map[], map["a" := Meta(1, NORMAL), "c" := Meta(1, NORMAL)], map[], map["a" := 1], map[])

  lemma SavedSums(y: Id)
    ensures Rec(SAVED, y).refCount == DiskSum(GRAPH, SAVED, y)
    ensures Rec(SAVED, y).storageRefCount == StorageSum(GRAPH, SAVED, y)
  {
    assert DiskHolders(SAVED) == {"a", "c"};
    RefsToSplit(GRAPH, {"a", "c"}, "a", y);
    assert {"a", "c"} - {"a"} == {"c"};
    RefsToSplit(GRAPH, {"c"}, "c", y);
    assert {"c"} - {"c"} == {};
    assert StorageHolders(SAVED) == {};
    NotNamed(SAVED.backendNames, SAVED.names, y);
  }

  lemma SavedInv()
    ensures Inv(GRAPH, SAVED)
  {
    hide DiskSum, StorageSum;
    forall y ensures Rec(SAVED, y).refCount == DiskSum(GRAPH, SAVED, y)
                     && Rec(SAVED, y).storageRefCount == StorageSum(GRAPH, SAVED, y) {
      SavedSums(y);
    }
  }

  /** Block `a` loses its disk reference, and its status is changed and changed back. */
  ghost function Released(): World {
    ReferJob(GRAPH, SAVED, "a", -1)
  }

  ghost function DeletingRun(): World {
    var w := Released();
    var w1 := if "a" in w.blocks then SetStatusJob(GRAPH, w, "a", WEAK) else w;
    if "a" in w1.blocks then SetStatusJob(GRAPH, w1, "a", NORMAL) else w1
  }

  function After(a: Block, c: Block, dirty: set<Id>, listed: set<Id>): World {
    World(map["a" := a, "c" := c], dirty, listed, map[], SAVED.backend, map[], map["a" := 0], map[])
  }

  lemma ReleasedIs()
    ensures Released() == After(Block(0, NORMAL, true, Some(Meta(1, NORMAL)), 1, true, true),
                                Block(1, NORMAL, true, None, 1, true, false), {"a"}, {})
    ensures Inv(GRAPH, Released())
  {
    hide Inv;
    var w := Load(Owe(SAVED, "a", -1, 0), "a");
    assert ["c"][..0] == [];
    var w1 := MarkDirty(w, "a");
    var w2 := SetStorageFlag(w1.(blocks := w1.blocks["a" := w1.blocks["a"].(refCount := 0)]), "a", true);
    assert AddStorageRefs(w2, ["c"][..0], 1) == w2;
    assert AddStorageRefs(w2, ["c"], 1) == AddStorageRef(Load(w2, "c"), "c", 1);
    SavedInv();
    GraphAcyclic();
    ReferStep(GRAPH, GraphRank, SAVED, "a", -1);
  }

  lemma WeakIs()
    ensures var w := After(Block(0, NORMAL, true, Some(Meta(1, NORMAL)), 1, true, true),
                           Block(1, NORMAL, true, None, 1, true, false), {"a"}, {});
            SetStatusJob(GRAPH, w, "a", WEAK)
            == After(Block(0, WEAK, true, Some(Meta(1, NORMAL)), 1, true, false),
                     Block(0, NORMAL, true, Some(Meta(1, NORMAL)), 1, true, true), {"a", "c"}, {"c"})
  {
    var w := After(Block(0, NORMAL, true, Some(Meta(1, NORMAL)), 1, true, true),
                   Block(1, NORMAL, true, None, 1, true, false), {"a"}, {});
    assert ["c"][..0] == [];
    var w1 := SetStorageFlag(w, "a", false);
    assert AddStorageRefs(w1, ["c"][..0], -1) == w1;
    var w2 := AddStorageRefs(w1, ["c"], -1);
    assert w2 == AddStorageRef(w1, "c", -1);
    var w3 := SetDiskFlag(w2, "a", false);
    assert AddRefs(GRAPH, w3, ["c"][..0], -1) == w3;
    assert AddRefs(GRAPH, w3, ["c"], -1) == AddRef(GRAPH, w3, "c", -1);
  }

  lemma NormalIs()
    ensures var w := After(Block(0, WEAK, true, Some(Meta(1, NORMAL)), 1, true, false),
                           Block(0, NORMAL, true, Some(Meta(1, NORMAL)), 1, true, true), {"a", "c"}, {"c"});
            SetStatusJob(GRAPH, w, "a", NORMAL)
            == After(Block(0, NORMAL, true, Some(Meta(1, NORMAL)), 1, true, false),
                     Block(1, NORMAL, true, Some(Meta(1, NORMAL)), 1, true, true), {"a", "c"}, {"c"})
  {
    var w := After(Block(0, WEAK, true, Some(Meta(1, NORMAL)), 1, true, false),
                   Block(0, NORMAL, true, Some(Meta(1, NORMAL)), 1, true, true), {"a", "c"}, {"c"});
    assert ["c"][..0] == [] && ["c"][1..] == [];
    assert LoadRefs(w, ["c"]) == LoadRefs(w, ["c"][1..]) == w;
    assert AddRefs(GRAPH, w, ["c"][..0], 1) == w;
    assert AddRefs(GRAPH, w, ["c"], 1) == AddRef(GRAPH, w, "c", 1);
    var w1 := ChangeStatus(GRAPH, w, "a", NORMAL);
    assert TouchRefs(w1, ["c"]) == TouchRefs(AddStorageRef(w1, "c", 0), ["c"][1..]);
  }

  /** Deleting `a` then fails in the other direction: the copy takes references that
      nobody gives back. */
  lemma DeletedCopyFails()
    ensures var w := DeletingRun();
            && Inv(GRAPH, w) && "a" in w.dirtyBlocks && "a" in w.blocks && w.blocks["a"].stored.Some?
            && var c := CopyingFlush(GRAPH, CopyWorld(w, []), "a");
               !Balanced(GRAPH, FlushCopies(GRAPH, c.w, c.copies))
  {
    hide Inv, Balanced, CopyingFlush, FlushCopies, SetStatusJob, Released, Acyclic, StatusMoved;
    ReleasedIs();
    WeakIs();
    NormalIs();
    GraphAcyclic();
    SetStatusStep(GRAPH, GraphRank, Released(), "a", WEAK);
    SetStatusStep(GRAPH, GraphRank, SetStatusJob(GRAPH, Released(), "a", WEAK), "a", NORMAL);
    CopyExact(GRAPH, GraphRank, DeletingRun(), "a");
  }
}
