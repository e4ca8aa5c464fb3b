/** The state of the block storage, its steps as functions of that state, and
    what its counts have to add up to. */
module StorageState {
  import opened Keys

  type Id = string

  type Name = string

  datatype BlockStatus = UNSET | NORMAL | MISSING | WANT_NORMAL | WEAK | WANT_WEAK

  /** Whether a block with this status holds references to what its data names. */
  predicate HasDeps(st: BlockStatus) {
    st.UNSET? || st.NORMAL? || st.MISSING?
  }

  datatype Meta = Meta(refCount: int, status: BlockStatus)

  datatype Block = Block(
    refCount: int,
    status: BlockStatus,
    backed: bool,            // it has a backend
    stored: Option<Meta>,    // what is stored, if that has changed since
    storageRefCount: int,
    haveDiskRefs: bool,
    haveStorageRefs: bool)

  datatype OldNew = OldNew(oldValue: Option<Id>, newValue: Option<Id>, gotStorageRef: bool)

  /** The references in the data of each block.  Ids are made from data, so they
      never change. */
  type Graph = map<Id, seq<Id>>

  function Refs(g: Graph, b: Id): seq<Id> {
    if b in g then g[b] else []
  }

  ghost predicate Acyclic(g: Graph, rank: Id -> nat) {
    forall b, i :: b in g && 0 <= i < |g[b]| ==> rank(g[b][i]) < rank(b)
  }

  /** All that the storage knows, and what its users are owed. */
  datatype World = World(
    blocks: map<Id, Block>,
    dirtyBlocks: set<Id>,
    dirtyStorageRefBlocks: set<Id>,
    names: map<Name, OldNew>,
    backend: map<Id, Meta>,
    backendNames: map<Name, Id>,
    explicit: map<Id, nat>,   // references taken and not given back
    held: map<Id, nat>)       // in-memory references handed out and not released

  function Loaded(m: Meta): Block {
    Block(m.refCount, m.status, true, None, 0, true, false)
  }

  const ABSENT := Block(0, UNSET, false, None, 0, false, false)

  /** The block with an id, whether it is in memory, only stored, or nowhere. */
  function Rec(w: World, b: Id): Block {
    if b in w.blocks then w.blocks[b] else if b in w.backend then Loaded(w.backend[b]) else ABSENT
  }

  ghost function Known(w: World): set<Id> {
    w.blocks.Keys + w.backend.Keys
  }

  // ----- the steps

  /** Brings a stored block into memory. */
  function Load(w: World, id: Id): World {
    if id in w.blocks || id !in w.backend then w
    else w.(blocks := w.blocks[id := Loaded(w.backend[id])])
  }

  function AddStorageRef(w: World, b: Id, v: int): World {
    if b !in w.blocks then w else
    var r := w.blocks[b].(storageRefCount := w.blocks[b].storageRefCount + v);
    w.(blocks := w.blocks[b := r],
       dirtyStorageRefBlocks := w.dirtyStorageRefBlocks +
         if r.storageRefCount == 0 || (r.refCount == 0) != r.haveStorageRefs then {b} else {})
  }

  /** One in-memory reference more or less for each of `rs`. */
  function AddStorageRefs(w: World, rs: seq<Id>, v: int): World {
    if rs == [] then w else
    var b := rs[|rs| - 1];
    AddStorageRef(Load(AddStorageRefs(w, rs[..|rs| - 1], v), b), b, v)
  }

  function SetStorageFlag(w: World, x: Id, add: bool): World {
    if x !in w.blocks then w
    else w.(blocks := w.blocks[x := w.blocks[x].(haveStorageRefs := add)])
  }

  /** Makes block `x` hold in-memory references, or not. */
  function SetStorageDeps(g: Graph, w: World, x: Id, add: bool): World {
    if Rec(w, x).haveStorageRefs == add then w else
    var w1 := SetStorageFlag(w, x, add);
    if HasDeps(Rec(w, x).status) then AddStorageRefs(w1, Refs(g, x), if add then 1 else -1) else w1
  }

  function MarkDirty(w: World, b: Id): World {
    if b !in w.blocks || w.blocks[b].stored.Some? then w else
    var w1 := AddStorageRef(w, b, 1);
    var r := w1.blocks[b];
    w1.(blocks := w1.blocks[b := r.(stored := Some(Meta(r.refCount, r.status)))], dirtyBlocks := w1.dirtyBlocks + {b})
  }

  function AddRef(g: Graph, w: World, b: Id, count: int): World {
    if count == 0 || b !in w.blocks then w else
    var w1 := MarkDirty(w, b);
    var r := w1.blocks[b].(refCount := w1.blocks[b].refCount + count);
    var w2 := w1.(blocks := w1.blocks[b := r]);
    if r.refCount == 0 then SetStorageDeps(g, w2, b, true) else w2
  }

  /** One disk reference more or less for each of `rs`. */
  function AddRefs(g: Graph, w: World, rs: seq<Id>, v: int): World {
    if rs == [] then w else
    var b := rs[|rs| - 1];
    AddRef(g, Load(AddRefs(g, w, rs[..|rs| - 1], v), b), b, v)
  }

  function SetDiskFlag(w: World, x: Id, add: bool): World {
    if x !in w.blocks then w
    else w.(blocks := w.blocks[x := w.blocks[x].(haveDiskRefs := add)])
  }

  /** Makes block `x` hold disk references, or not. */
  function SetDiskDeps(g: Graph, w: World, x: Id, add: bool): World {
    if Rec(w, x).haveDiskRefs == add then w else
    var w1 := SetDiskFlag(w, x, add);
    if HasDeps(Rec(w, x).status) then AddRefs(g, w1, Refs(g, x), if add then 1 else -1) else w1
  }

  /** Brings what is stored of block `b` up to date. */
  function WriteBlock(w: World, b: Id): World
    requires b in w.blocks
  {
    var r := w.blocks[b];
    if r.refCount == 0 then
      if r.backed then w.(backend := w.backend - {b}, blocks := w.blocks[b := r.(backed := false)]) else w
    else
      w.(backend := w.backend[b := Meta(r.refCount, r.status)], blocks := w.blocks[b := r.(backed := true)])
  }

  /** The references that go with the new state of what is stored. */
  function SettleDeps(g: Graph, w: World, b: Id, hadRefs: bool, haveRefs: bool): World {
    if hadRefs == haveRefs then w else
    var w1 := SetDiskDeps(g, w, b, haveRefs);
    if haveRefs then SetStorageDeps(g, w1, b, false) else w1
  }

  function MarkClean(w: World, b: Id): World {
    if b !in w.blocks then w else
    w.(blocks := w.blocks[b := w.blocks[b].(stored := None)], dirtyBlocks := w.dirtyBlocks - {b})
  }

  function FlushBlock(g: Graph, w: World, b: Id): World
    requires b in w.blocks && w.blocks[b].stored.Some?
  {
    var r := w.blocks[b];
    var hadRefs := r.backed && r.stored.value.refCount != 0;
    AddStorageRef(MarkClean(SettleDeps(g, WriteBlock(w, b), b, hadRefs, r.refCount != 0), b), b, -1)
  }

  // ----- sums of references

  ghost function RefsTo(g: Graph, hs: set<Id>, b: Id): nat {
    if hs == {} then 0 else
    var x :| x in hs;
    multiset(Refs(g, x))[b] + RefsTo(g, hs - {x}, b)
  }

  lemma {:induction false} RefsToSplit(g: Graph, hs: set<Id>, x: Id, b: Id)
    requires x in hs
    ensures RefsTo(g, hs, b) == multiset(Refs(g, x))[b] + RefsTo(g, hs - {x}, b)
    decreases hs
  {
    var y :| y in hs && RefsTo(g, hs, b) == multiset(Refs(g, y))[b] + RefsTo(g, hs - {y}, b);
    if y != x {
      RefsToSplit(g, hs - {y}, x, b);
      RefsToSplit(g, hs - {x}, y, b);
      assert hs - {y} - {x} == hs - {x} - {y};
    }
  }

  ghost predicate DiskActive(r: Block) {
    r.haveDiskRefs && HasDeps(r.status)
  }

  ghost predicate StorageActive(r: Block) {
    r.haveStorageRefs && HasDeps(r.status)
  }

  ghost function DiskHolders(w: World): set<Id> {
    set b | b in Known(w) && DiskActive(Rec(w, b))
  }

  ghost function StorageHolders(w: World): set<Id> {
    set b | b in Known(w) && StorageActive(Rec(w, b))
  }

  function At(m: map<Id, nat>, b: Id): nat {
    if b in m then m[b] else 0
  }

  ghost function NamesAt(m: map<Name, Id>, b: Id): nat {
    |set n | n in m && m[n] == b|
  }

  ghost function PendingAt(m: map<Name, OldNew>, b: Id): nat {
    |set n | n in m && m[n].gotStorageRef && m[n].newValue == Some(b)|
  }

  /** What the disk count of a block should be. */
  ghost function DiskSum(g: Graph, w: World, b: Id): nat {
    At(w.explicit, b) + NamesAt(w.backendNames, b) + RefsTo(g, DiskHolders(w), b)
  }

  /** What the in-memory count of a block should be. */
  ghost function StorageSum(g: Graph, w: World, b: Id): nat {
    At(w.held, b) + (if Rec(w, b).stored.Some? then 1 else 0) + PendingAt(w.names, b)
    + RefsTo(g, StorageHolders(w), b)
  }

  ghost predicate Balanced(g: Graph, w: World) {
    forall b :: Rec(w, b).refCount == DiskSum(g, w, b) && Rec(w, b).storageRefCount == StorageSum(g, w, b)
  }

  /** How much the disk count of `b` is ahead of its sum. */
  ghost function DiskLead(g: Graph, w: World, b: Id): int {
    Rec(w, b).refCount - DiskSum(g, w, b)
  }

  ghost function StorageLead(g: Graph, w: World, b: Id): int {
    Rec(w, b).storageRefCount - StorageSum(g, w, b)
  }

  /** `n`, if it is to be counted. */
  function Share(p: bool, n: int): int {
    if p then n else 0
  }

  function Signed(add: bool, n: int): int {
    if add then n else -n
  }

  ghost predicate SameElsewhere(w: World, w': World, x: Id) {
    && Known(w') - {x} == Known(w) - {x}
    && (forall b :: b != x ==> Rec(w', b) == Rec(w, b))
    && w'.names == w.names && w'.backendNames == w.backendNames
    && w'.explicit == w.explicit && w'.held == w.held
  }

  lemma {:induction false} RefsToToggle(g: Graph, hs: set<Id>, hs': set<Id>, x: Id, b: Id)
    requires hs' - {x} == hs - {x}
    ensures RefsTo(g, hs', b) == RefsTo(g, hs, b)
            + Share(x in hs', multiset(Refs(g, x))[b]) - Share(x in hs, multiset(Refs(g, x))[b])
  {
    if x in hs {
      RefsToSplit(g, hs, x, b);
    } else {
      assert hs - {x} == hs;
    }
    if x in hs' {
      RefsToSplit(g, hs', x, b);
    } else {
      assert hs' - {x} == hs';
    }
  }

  lemma HoldersMove(w: World, w': World, x: Id)
    requires SameElsewhere(w, w', x)
    ensures DiskHolders(w') - {x} == DiskHolders(w) - {x}
    ensures StorageHolders(w') - {x} == StorageHolders(w) - {x}
  {
  }

  lemma HolderIsActive(w: World, x: Id)
    ensures x in DiskHolders(w) <==> DiskActive(Rec(w, x))
    ensures x in StorageHolders(w) <==> StorageActive(Rec(w, x))
  {
    assert x !in Known(w) ==> Rec(w, x) == ABSENT;
  }

  /** How the sums move when one block changes. */
  lemma SumsMove(g: Graph, w: World, w': World, x: Id, b: Id)
    requires SameElsewhere(w, w', x)
    ensures DiskSum(g, w', b) == DiskSum(g, w, b)
            + Share(DiskActive(Rec(w', x)), multiset(Refs(g, x))[b]) - Share(DiskActive(Rec(w, x)), multiset(Refs(g, x))[b])
    ensures StorageSum(g, w', b) == StorageSum(g, w, b)
            + Share(StorageActive(Rec(w', x)), multiset(Refs(g, x))[b])
            - Share(StorageActive(Rec(w, x)), multiset(Refs(g, x))[b])
            + Share(b == x, Share(Rec(w', x).stored.Some?, 1) - Share(Rec(w, x).stored.Some?, 1))
  {
    hide Rec, Known, DiskHolders, StorageHolders, RefsTo, DiskActive, StorageActive, At, NamesAt, PendingAt;
    HoldersMove(w, w', x);
    HolderIsActive(w, x);
    HolderIsActive(w', x);
    RefsToToggle(g, DiskHolders(w), DiskHolders(w'), x, b);
    RefsToToggle(g, StorageHolders(w), StorageHolders(w'), x, b);
  }

  // ----- the other invariants

  /** The block and what is stored of it agree. */
  ghost predicate BlockOk(w: World, b: Id) {
    var r := Rec(w, b);
    && (r.backed <==> b in w.backend)
    && (r.haveDiskRefs <==> b in w.backend)
    && var m := if r.stored.Some? then r.stored.value else Meta(r.refCount, r.status);
       if b in w.backend then w.backend[b] == m && m.refCount > 0 else m.refCount == 0
  }

  /** A clean block in use that should hold references in memory and does not, or holds
      them and should not, is on the list to be looked at, and so is a block that nothing
      uses, unless it is as it was loaded. */
  ghost predicate Flagged(w: World, b: Id) {
    var r := Rec(w, b);
    && (r.stored.None? && r.storageRefCount > 0 && (r.refCount == 0) != r.haveStorageRefs ==>
          b in w.dirtyStorageRefBlocks)
    && (b in w.blocks && r.storageRefCount == 0 ==> b in w.dirtyStorageRefBlocks || b in w.backend)
    && (r.stored.None? && r.storageRefCount == 0 && r.haveStorageRefs ==> b in w.dirtyStorageRefBlocks)
  }

  ghost predicate Present(g: Graph, w: World, b: Id) {
    forall i :: 0 <= i < |Refs(g, b)| ==> Refs(g, b)[i] in Known(w)
  }

  /** Blocks that hold references refer to blocks that exist. */
  ghost predicate Closed(g: Graph, w: World) {
    forall b :: b in Known(w) && HasDeps(Rec(w, b).status) ==> Present(g, w, b)
  }

  ghost predicate NamesOk(w: World) {
    forall n :: n in w.names ==>
      && w.names[n].oldValue == (if n in w.backendNames then Some(w.backendNames[n]) else None)
      && (w.names[n].newValue != w.names[n].oldValue ==> w.names[n].gotStorageRef)
  }

  /** The invariant, with the blocks of `xs` in the middle of a change. */
  ghost predicate Core(w: World, xs: set<Id>) {
    && w.dirtyBlocks == (set b | b in w.blocks && w.blocks[b].stored.Some?)
    && w.dirtyStorageRefBlocks <= w.blocks.Keys
    && forall b :: b !in xs ==> BlockOk(w, b) && Flagged(w, b)
  }

  ghost predicate Inv(g: Graph, w: World) {
    Core(w, {}) && Balanced(g, w) && Closed(g, w) && NamesOk(w)
  }
}
