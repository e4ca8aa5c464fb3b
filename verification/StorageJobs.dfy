/** What each job of the storage does to its state, and that it keeps the
    invariant. */
module StorageJobs {
  import opened Keys
  import opened StorageState
  import opened StorageLemmas
  import opened StorageFlush

  ghost predicate Leads(g: Graph, w: World, y: Id, d: int, s: int) {
    DiskLead(g, w, y) == d && StorageLead(g, w, y) == s
  }

  lemma InvByLeads(g: Graph, w: World)
    requires Core(w, {}) && Closed(g, w) && NamesOk(w) && forall y :: Leads(g, w, y, 0, 0)
    ensures Inv(g, w)
  {
    hide Core, Closed, NamesOk, Balanced, DiskLead, StorageLead;
    forall y ensures DiskLead(g, w, y) == 0 && StorageLead(g, w, y) == 0 {
      assert Leads(g, w, y, 0, 0);
    }
    BalancedLeads(g, w);
  }

  lemma LeadsOfInv(g: Graph, w: World, y: Id)
    requires Inv(g, w)
    ensures Leads(g, w, y, 0, 0)
  {
    hide Core, Closed, NamesOk, Balanced, DiskLead, StorageLead;
    BalancedLeads(g, w);
  }

  // ----- what is owed

  /** Only what is owed, and to whom, may differ. */
  ghost predicate SameBlocks(w: World, w': World) {
    && w'.blocks == w.blocks && w'.backend == w.backend
    && w'.dirtyBlocks == w.dirtyBlocks && w'.dirtyStorageRefBlocks == w.dirtyStorageRefBlocks
  }

  lemma LedgerLeads(g: Graph, w: World, w': World, y: Id)
    requires SameBlocks(w, w')
    ensures DiskLead(g, w', y) == DiskLead(g, w, y) + At(w.explicit, y) - At(w'.explicit, y)
                                  + NamesAt(w.backendNames, y) - NamesAt(w'.backendNames, y)
    ensures StorageLead(g, w', y) == StorageLead(g, w, y) + At(w.held, y) - At(w'.held, y)
                                     + PendingAt(w.names, y) - PendingAt(w'.names, y)
  {
    hide At, NamesAt, PendingAt, RefsTo, DiskActive, StorageActive;
    assert forall b :: Rec(w', b) == Rec(w, b);
    assert DiskHolders(w') == DiskHolders(w) && StorageHolders(w') == StorageHolders(w);
  }

  lemma LedgerCore(g: Graph, w: World, w': World, xs: set<Id>)
    requires SameBlocks(w, w') && Core(w, xs)
    ensures Core(w', xs) && Known(w') == Known(w) && forall y :: Rec(w', y) == Rec(w, y)
    ensures Closed(g, w) ==> Closed(g, w')
  {
    assert forall y :: Rec(w', y) == Rec(w, y);
    forall y | y !in xs ensures BlockOk(w', y) && Flagged(w', y) {
      CoreAt(w, xs, y);
    }
    if Closed(g, w) {
      hide Core, Rec;
      ClosedKept(g, w, w');
    }
  }

  function Adjust(m: map<Id, nat>, b: Id, v: int): map<Id, nat>
    requires At(m, b) + v >= 0
  {
    if v == 0 then m else m[b := At(m, b) + v]
  }

  /** The user's side of taking or giving back references. */
  ghost function Owe(w: World, b: Id, e: int, h: int): World
    requires At(w.explicit, b) + e >= 0 && At(w.held, b) + h >= 0
  {
    w.(explicit := Adjust(w.explicit, b, e), held := Adjust(w.held, b, h))
  }

  lemma OweLeads(g: Graph, w: World, b: Id, e: int, h: int, y: Id)
    requires Inv(g, w) && At(w.explicit, b) + e >= 0 && At(w.held, b) + h >= 0
    ensures Leads(g, Owe(w, b, e, h), y, Share(y == b, -e), Share(y == b, -h))
  {
    hide Inv, NamesAt, PendingAt, DiskLead, StorageLead;
    LeadsOfInv(g, w, y);
    LedgerLeads(g, w, Owe(w, b, e, h), y);
  }

  // ----- references from outside

  /** One disk reference more or less, from outside. */
  ghost function ReferJob(g: Graph, w: World, b: Id, v: int): World
    requires At(w.explicit, b) + v >= 0
  {
    AddRef(g, Load(Owe(w, b, v, 0), b), b, v)
  }

  /** One in-memory reference more or less, from outside. */
  ghost function HoldJob(w: World, b: Id, v: int): World
    requires At(w.held, b) + v >= 0
  {
    AddStorageRef(Load(Owe(w, b, 0, v), b), b, v)
  }

  lemma LoadAndAddLeads(g: Graph, w: World, b: Id, v: int, y: Id, xs: set<Id>)
    requires Core(w, xs) && b in Known(w)
    ensures DiskLead(g, AddStorageRef(Load(w, b), b, v), y) == DiskLead(g, w, y)
    ensures StorageLead(g, AddStorageRef(Load(w, b), b, v), y) == StorageLead(g, w, y) + Share(y == b, v)
  {
    hide Core, Known, Rec, Load, AddStorageRef, DiskLead, StorageLead;
    LoadSame(w, b, xs);
    LoadLeads(g, w, b, y);
    AddStorageRefLeads(g, Load(w, b), b, v, xs);
  }

  lemma RefSameFields(g: Graph, w: World, w': World, bs: set<Id>)
    requires RefSame(w, w', bs)
    ensures w'.backend == w.backend && w'.names == w.names && w'.backendNames == w.backendNames
    ensures w'.explicit == w.explicit && w'.held == w.held && Known(w') == Known(w)
    ensures Closed(g, w) ==> Closed(g, w')
    ensures NamesOk(w) ==> NamesOk(w')
  {
    hide Rec, Known, Closed;
    forall y ensures Rec(w', y).status == Rec(w, y).status {
      assert SameHolding(Rec(w, y), Rec(w', y));
    }
    if Closed(g, w) {
      ClosedKept(g, w, w');
    }
  }

  lemma DiskSameClosed(g: Graph, w: World, w': World)
    requires DiskSame(w, w')
    ensures Closed(g, w) ==> Closed(g, w')
    ensures NamesOk(w) ==> NamesOk(w')
  {
    hide Rec, Known, Closed;
    forall y ensures Rec(w', y).status == Rec(w, y).status {
      assert SameOnDisk(Rec(w, y), Rec(w', y));
    }
    if Closed(g, w) {
      ClosedKept(g, w, w');
    }
  }

  lemma ReferStep(g: Graph, rank: Id -> nat, w: World, b: Id, v: int)
    requires Acyclic(g, rank) && Inv(g, w) && b in Known(w) && v != 0 && At(w.explicit, b) + v >= 0
    ensures Inv(g, ReferJob(g, w, b, v))
  {
    hide Core, Closed, NamesOk, Balanced, DiskLead, StorageLead, Rec, Known, Load, AddRef, RefSame, Acyclic, At;
    var w1 := Owe(w, b, v, 0);
    var w' := AddRef(g, Load(w1, b), b, v);
    LedgerCore(g, w, w1, {});
    NamesKept(w, w1);
    KnownPresent(g, w1, b);
    LoadAndAddRef(g, rank, w1, b, v, {});
    RefSameFields(g, w1, w', {b});
    forall y ensures Leads(g, w', y, 0, 0) {
      OweLeads(g, w, b, v, 0, y);
    }
    InvByLeads(g, w');
  }

  lemma KnownPresent(g: Graph, w: World, b: Id)
    requires Closed(g, w) && b in Known(w)
    ensures HasDeps(Rec(w, b).status) ==> Present(g, w, b)
  {
  }

  lemma HoldStep(g: Graph, w: World, b: Id, v: int)
    requires Inv(g, w) && b in Known(w) && At(w.held, b) + v >= 0
    ensures Inv(g, HoldJob(w, b, v))
  {
    hide Core, Closed, NamesOk, Balanced, DiskLead, StorageLead, Rec, Known, Load, AddStorageRef, DiskSame, At;
    var w1 := Owe(w, b, 0, v);
    var w' := AddStorageRef(Load(w1, b), b, v);
    LedgerCore(g, w, w1, {});
    NamesKept(w, w1);
    LoadAndAdd(w1, b, v, {});
    DiskSameClosed(g, w1, w');
    forall y ensures Leads(g, w', y, 0, 0) {
      OweLeads(g, w, b, 0, v, y);
      LoadAndAddLeads(g, w1, b, v, y, {});
    }
    InvByLeads(g, w');
  }

  // ----- a new block

  function Fresh(st: BlockStatus): Block {
    Block(0, st, false, None, 0, false, false)
  }

  function Place(w: World, b: Id, st: BlockStatus): World {
    w.(blocks := w.blocks[b := Fresh(st)])
  }

  /** A new block, with a disk reference or without, and in use by its maker. */
  ghost function StoreJob(g: Graph, w: World, b: Id, st: BlockStatus, count: int): World
    requires count >= 0
  {
    AddStorageRef(Owe(AddRef(g, Place(Owe(w, b, count, 0), b, st), b, count), b, 0, 1), b, 1)
  }

  lemma PlaceShape(w: World, b: Id, st: BlockStatus)
    requires b !in Known(w)
    ensures var w' := Place(w, b, st);
            && SameElsewhere(w, w', b) && Known(w') == Known(w) + {b}
            && Rec(w, b) == Fresh(UNSET) && Rec(w', b) == Fresh(st) && b in w'.blocks && b !in w'.backend
  {
  }

  lemma PlaceCore(w: World, b: Id, st: BlockStatus)
    requires Core(w, {}) && b !in Known(w)
    ensures Core(Place(w, b, st), {b})
  {
    var w' := Place(w, b, st);
    PlaceShape(w, b, st);
    forall y | y !in {b} ensures BlockOk(w', y) && Flagged(w', y) {
      CoreAt(w, {}, y);
    }
    assert w'.dirtyBlocks == set y | y in w'.blocks && w'.blocks[y].stored.Some?;
  }

  lemma PlaceClosed(g: Graph, w: World, b: Id, st: BlockStatus)
    requires Closed(g, w) && b !in Known(w) && (HasDeps(st) ==> Present(g, w, b))
    ensures Closed(g, Place(w, b, st))
  {
    var w' := Place(w, b, st);
    PlaceShape(w, b, st);
    hide Place, Rec, Known;
    forall y | y in Known(w') && HasDeps(Rec(w', y).status) ensures Present(g, w', y) {
      assert Present(g, w, y);
    }
  }

  lemma PlaceLeads(g: Graph, w: World, b: Id, st: BlockStatus, y: Id)
    requires b !in Known(w)
    ensures DiskLead(g, Place(w, b, st), y) == DiskLead(g, w, y)
    ensures StorageLead(g, Place(w, b, st), y) == StorageLead(g, w, y)
  {
    PlaceShape(w, b, st);
    hide Place, Rec, Known, DiskLead, StorageLead;
    OneBlockLeads(g, w, Place(w, b, st), b, y);
  }

  /** Counting a new block's first disk reference, if it gets one. */
  lemma FirstRef(g: Graph, rank: Id -> nat, w: World, b: Id, count: int)
    requires count >= 0
    requires Acyclic(g, rank) && Core(w, {b}) && b in w.blocks && Closed(g, w) && NamesOk(w)
    requires b !in w.backend && Rec(w, b).Block? && Rec(w, b) == Fresh(Rec(w, b).status)
    ensures var w' := AddRef(g, w, b, count);
            && Core(w', {b}) && Closed(g, w') && NamesOk(w') && b in w'.blocks && b !in w'.backend
            && Rec(w', b).status == Rec(w, b).status && !Rec(w', b).backed && !Rec(w', b).haveDiskRefs
            && Rec(w', b).refCount == count
            && Rec(w', b).stored == (if count == 0 then None else Some(Meta(0, Rec(w, b).status)))
            && (forall y :: DiskLead(g, w', y) == DiskLead(g, w, y) + Share(y == b, count)
                            && StorageLead(g, w', y) == StorageLead(g, w, y))
  {
    hide Core, Closed, NamesOk, DiskLead, StorageLead, Known, MarkDirty, SetStorageDeps, Rec;
    if count != 0 {
      KnownLoaded(w, b);
      KnownPresent(g, w, b);
      AddRefStep(g, rank, w, b, count, {b});
      RefSameFields(g, w, AddRef(g, w, b, count), {b});
    }
  }

  lemma KnownLoaded(w: World, b: Id)
    requires b in w.blocks
    ensures b in Known(w)
  {
  }

  lemma StoredOk(w: World, b: Id)
    requires b in w.blocks && b !in w.backend && !Rec(w, b).backed && !Rec(w, b).haveDiskRefs
    requires Rec(w, b).refCount >= 0 && Rec(w, b).storageRefCount >= -1
    requires if Rec(w, b).refCount == 0 then Rec(w, b).stored == None else Rec(w, b).stored == Some(Meta(0, Rec(w, b).status))
    ensures BlockOk(AddStorageRef(w, b, 1), b) && Flagged(AddStorageRef(w, b, 1), b)
  {
  }

  lemma StorePlaced(g: Graph, rank: Id -> nat, w: World, b: Id, st: BlockStatus, count: int)
    requires count >= 0
    requires Acyclic(g, rank) && Inv(g, w) && b !in Known(w) && (HasDeps(st) ==> Present(g, w, b))
    ensures var w2 := Place(Owe(w, b, count, 0), b, st);
            && Core(w2, {b}) && Closed(g, w2) && NamesOk(w2) && b in w2.blocks && b !in w2.backend
            && Rec(w2, b) == Fresh(st) && forall y :: DiskLead(g, w2, y) == Share(y == b, -count) && StorageLead(g, w2, y) == 0
  {
    hide Core, Closed, NamesOk, DiskLead, StorageLead, Known, Rec, Balanced, At, Place, Present;
    var w1 := Owe(w, b, count, 0);
    var w2 := Place(w1, b, st);
    LedgerCore(g, w, w1, {});
    PresentKept(g, w, w1, b);
    PlaceShape(w1, b, st);
    PlaceCore(w1, b, st);
    PlaceClosed(g, w1, b, st);
    NamesKept(w, w2);
    forall y ensures DiskLead(g, w2, y) == Share(y == b, -count) && StorageLead(g, w2, y) == 0 {
      OweLeads(g, w, b, count, 0, y);
      PlaceLeads(g, w1, b, st, y);
    }
  }

  lemma PresentKept(g: Graph, w: World, w': World, b: Id)
    requires Known(w') == Known(w)
    ensures Present(g, w, b) ==> Present(g, w', b)
  {
    hide Known;
  }

  /** A new block whose references exist fits in. */
  lemma StoreStep(g: Graph, rank: Id -> nat, w: World, b: Id, st: BlockStatus, count: int)
    requires count >= 0
    requires Acyclic(g, rank) && Inv(g, w) && b !in Known(w) && (HasDeps(st) ==> Present(g, w, b))
    ensures Inv(g, StoreJob(g, w, b, st, count))
  {
    hide Core, Closed, NamesOk, DiskLead, StorageLead, Known, Rec, Balanced, At, Place, AddRef, AddStorageRef, DiskSame,
      BlockOk, Flagged, Inv, Owe, Present;
    var w2 := Place(Owe(w, b, count, 0), b, st);
    var w3 := AddRef(g, w2, b, count);
    var w4 := Owe(w3, b, 0, 1);
    var w' := AddStorageRef(w4, b, 1);
    StorePlaced(g, rank, w, b, st, count);
    FirstRef(g, rank, w2, b, count);
    HeldOnce(g, w3, b);
    AddStorageRefStep(w4, b, 1, {b});
    AddStorageRefLeads(g, w4, b, 1, {b});
    DiskSameClosed(g, w4, w');
    forall y ensures Leads(g, w', y, 0, 0) {
      assert DiskLead(g, w2, y) == Share(y == b, -count);
    }
    LeadAtLeast(g, w4, b, -1);
    StoredOk(w4, b);
    assert {} + {b} == {b};
    CoreNarrow(w', {}, b);
    InvByLeads(g, w');
  }

  lemma HeldOnce(g: Graph, w: World, b: Id)
    requires Core(w, {b}) && Closed(g, w) && NamesOk(w)
    ensures var w' := Owe(w, b, 0, 1);
            && Core(w', {b}) && Closed(g, w') && NamesOk(w') && Known(w') == Known(w)
            && (forall y :: Rec(w', y) == Rec(w, y)) && SameBlocks(w, w')
            && (forall y :: DiskLead(g, w', y) == DiskLead(g, w, y)
                            && StorageLead(g, w', y) == StorageLead(g, w, y) - Share(y == b, 1))
  {
    hide Core, Closed, NamesOk, Known, Rec, DiskLead, StorageLead, NamesAt, PendingAt;
    var w' := Owe(w, b, 0, 1);
    LedgerCore(g, w, w', {b});
    NamesKept(w, w');
    forall y ensures DiskLead(g, w', y) == DiskLead(g, w, y)
                     && StorageLead(g, w', y) == StorageLead(g, w, y) - Share(y == b, 1)
    {
      LedgerLeads(g, w, w', y);
    }
  }

  lemma LeadAtLeast(g: Graph, w: World, b: Id, s: int)
    requires StorageLead(g, w, b) == s
    ensures Rec(w, b).storageRefCount >= s
  {
    hide Rec, StorageSum;
  }

  // ----- names

  function LookUp(m: map<Name, Id>, n: Name): Option<Id> {
    if n in m then Some(m[n]) else None
  }

  function Naming(m: map<Name, Id>, n: Name, v: Option<Id>): map<Name, Id> {
    if v.Some? then m[n := v.value] else m - {n}
  }

  lemma SizeMove(s: set<Name>, s': set<Name>, n: Name)
    requires s' - {n} == s - {n}
    ensures |s'| == |s| + Share(n in s', 1) - Share(n in s, 1)
  {
    assert s == s - {n} + if n in s then {n} else {};
    assert s' == s - {n} + if n in s' then {n} else {};
  }

  lemma NamesAtMove(m: map<Name, Id>, n: Name, v: Option<Id>, b: Id)
    ensures NamesAt(Naming(m, n, v), b)
            == NamesAt(m, b) + Share(v == Some(b), 1) - Share(LookUp(m, n) == Some(b), 1)
  {
    var m' := Naming(m, n, v);
    var s := set k | k in m && m[k] == b;
    var s' := set k | k in m' && m'[k] == b;
    assert s - {n} == s' - {n};
    SizeMove(s, s', n);
  }

  ghost predicate Pending(v: OldNew, b: Id) {
    v.gotStorageRef && v.newValue == Some(b)
  }

  lemma PendingAtMove(m: map<Name, OldNew>, n: Name, v: OldNew, b: Id)
    ensures PendingAt(m[n := v], b)
            == PendingAt(m, b) + Share(Pending(v, b), 1) - Share(n in m && Pending(m[n], b), 1)
  {
    var m' := m[n := v];
    var s := set k | k in m && m[k].gotStorageRef && m[k].newValue == Some(b);
    var s' := set k | k in m' && m'[k].gotStorageRef && m'[k].newValue == Some(b);
    assert s - {n} == s' - {n};
    SizeMove(s, s', n);
  }

  /** What is known of a name, asking the backend once. */
  function NameEntry(w: World, n: Name): OldNew {
    if n in w.names then w.names[n]
    else OldNew(LookUp(w.backendNames, n), LookUp(w.backendNames, n), false)
  }

  function GetNameJob(w: World, n: Name): World {
    w.(names := w.names[n := NameEntry(w, n)])
  }

  lemma GetNameStep(g: Graph, w: World, n: Name)
    requires Inv(g, w)
    ensures Inv(g, GetNameJob(w, n))
  {
    hide Core, Closed, Balanced, DiskLead, StorageLead, At, NamesAt, PendingAt;
    var w' := GetNameJob(w, n);
    LedgerCore(g, w, w', {});
    forall y ensures Leads(g, w', y, 0, 0) {
      LeadsOfInv(g, w, y);
      LedgerLeads(g, w, w', y);
      PendingAtMove(w.names, n, NameEntry(w, n), y);
    }
    InvByLeads(g, w');
  }

  function MoveStorageRef(w: World, b: Option<Id>, v: int): World {
    if b.Some? then AddStorageRef(Load(w, b.value), b.value, v) else w
  }

  /** A name is given a new block, which is kept in memory until that is flushed;
      the block it was given before, if that was not flushed, is let go. */
  function SetNameJob(w: World, n: Name, v: Option<Id>): World {
    var e := NameEntry(w, n);
    var w1 := MoveStorageRef(GetNameJob(w, n), v, 1);
    var w2 := if e.gotStorageRef then MoveStorageRef(w1, e.newValue, -1) else w1;
    w2.(names := w2.names[n := OldNew(e.oldValue, v, true)])
  }

  lemma MoveStorageRefStep(g: Graph, w: World, b: Option<Id>, v: int)
    requires Core(w, {}) && Closed(g, w) && (b.Some? ==> b.value in Known(w))
    ensures var w' := MoveStorageRef(w, b, v);
            && Core(w', {}) && Closed(g, w') && Known(w') == Known(w) && w'.names == w.names
            && w'.backendNames == w.backendNames && w'.explicit == w.explicit && w'.held == w.held
            && (forall y :: DiskLead(g, w', y) == DiskLead(g, w, y)
                            && StorageLead(g, w', y) == StorageLead(g, w, y) + Share(b == Some(y), v))
  {
    hide Core, Closed, Known, DiskLead, StorageLead, Load, AddStorageRef, Rec, DiskSame;
    var w' := MoveStorageRef(w, b, v);
    if b.Some? {
      LoadAndAdd(w, b.value, v, {});
      DiskSameClosed(g, w, w');
      DiskSameFields(w, w');
      forall y ensures DiskLead(g, w', y) == DiskLead(g, w, y)
                       && StorageLead(g, w', y) == StorageLead(g, w, y) + Share(b == Some(y), v)
      {
        LoadAndAddLeads(g, w, b.value, v, y, {});
      }
    }
  }

  lemma PendingKnown(g: Graph, w: World, n: Name, b: Id)
    requires Balanced(g, w) && n in w.names && Pending(w.names[n], b)
    ensures b in Known(w) && b in w.blocks && w.blocks[b].storageRefCount >= 1
  {
    var s := set k | k in w.names && w.names[k].gotStorageRef && w.names[k].newValue == Some(b);
    assert n in s;
    assert PendingAt(w.names, b) == |s|;
    assert Rec(w, b).storageRefCount == StorageSum(g, w, b);
  }

  lemma SetNameParts(g: Graph, w: World, n: Name, v: Option<Id>)
    requires Inv(g, w) && n in w.names && (v.Some? ==> v.value in Known(w))
    requires w.names[n].gotStorageRef ==> w.names[n].newValue.Some?
    ensures var e := w.names[n];
            var w1 := MoveStorageRef(w, v, 1);
            var w2 := if e.gotStorageRef then MoveStorageRef(w1, e.newValue, -1) else w1;
            && Core(w2, {}) && Closed(g, w2) && w2.names == w.names && w2.backendNames == w.backendNames
            && (forall y :: Leads(g, w2, y, 0, Share(v == Some(y), 1) - Share(Pending(e, y), 1)))
  {
    hide Core, Closed, Balanced, NamesOk, Known, DiskLead, StorageLead, MoveStorageRef;
    var e := w.names[n];
    var w1 := MoveStorageRef(w, v, 1);
    var w2 := if e.gotStorageRef then MoveStorageRef(w1, e.newValue, -1) else w1;
    MoveStorageRefStep(g, w, v, 1);
    if e.gotStorageRef {
      PendingKnown(g, w, n, e.newValue.value);
      MoveStorageRefStep(g, w1, e.newValue, -1);
    }
    forall y ensures Leads(g, w2, y, 0, Share(v == Some(y), 1) - Share(Pending(e, y), 1)) {
      LeadsOfInv(g, w, y);
    }
  }

  lemma SetNameStep(g: Graph, w: World, n: Name, v: Option<Id>)
    requires Inv(g, w) && (v.Some? ==> v.value in Known(w))
    requires NameEntry(w, n).gotStorageRef ==> NameEntry(w, n).newValue.Some?
    ensures Inv(g, SetNameJob(w, n, v))
  {
    hide Core, Closed, Balanced, Known, DiskLead, StorageLead, MoveStorageRef, PendingAt, NamesAt, At;
    var w0 := GetNameJob(w, n);
    var e := NameEntry(w, n);
    var w1 := MoveStorageRef(w0, v, 1);
    var w2 := if e.gotStorageRef then MoveStorageRef(w1, e.newValue, -1) else w1;
    var w' := SetNameJob(w, n, v);
    GetNameStep(g, w, n);
    KnownSame(w, w0);
    SetNameParts(g, w0, n, v);
    LedgerCore(g, w2, w', {});
    forall y ensures Leads(g, w', y, 0, 0) {
      assert Leads(g, w2, y, 0, Share(v == Some(y), 1) - Share(Pending(e, y), 1));
      LedgerLeads(g, w2, w', y);
      PendingAtMove(w2.names, n, OldNew(e.oldValue, v, true), y);
    }
    InvByLeads(g, w');
  }

  lemma KnownSame(w: World, w': World)
    requires w'.blocks == w.blocks && w'.backend == w.backend
    ensures Known(w') == Known(w)
  {
  }

  function MoveRef(g: Graph, w: World, b: Option<Id>, v: int): World {
    if b.Some? then AddRef(g, Load(w, b.value), b.value, v) else w
  }

  function PutBackendName(w: World, n: Name, v: Option<Id>): World {
    w.(backendNames := Naming(w.backendNames, n, v))
  }

  /** The new value of a name trades its in-memory reference for one on disk. */
  function TradeRef(g: Graph, w: World, n: Name, v: Option<Id>): World {
    if v.None? || n !in w.names then w else
    var w1 := MoveStorageRef(MoveRef(g, w, v, 1), v, -1);
    w1.(names := w1.names[n := w.names[n].(gotStorageRef := false)])
  }

  function PutName(w: World, n: Name, e: OldNew): World {
    w.(names := w.names[n := e])
  }

  /** The new value of a name goes to the backend, and the old one loses its
      reference. */
  function FlushName(g: Graph, w: World, n: Name): World
    requires n in w.names
  {
    var e := w.names[n];
    var w2 := TradeRef(g, PutBackendName(w, n, e.newValue), n, e.newValue);
    var e' := if e.newValue.Some? then e.(gotStorageRef := false) else e;
    PutName(MoveRef(g, w2, e.oldValue, -1), n, e'.(oldValue := e.newValue))
  }

  lemma MoveRefStep(g: Graph, rank: Id -> nat, w: World, b: Option<Id>, v: int)
    requires Acyclic(g, rank) && Core(w, {}) && Closed(g, w) && (b.Some? ==> b.value in Known(w)) && v != 0
    ensures var w' := MoveRef(g, w, b, v);
            && Core(w', {}) && Closed(g, w') && Known(w') == Known(w) && w'.names == w.names
            && w'.backendNames == w.backendNames && w'.explicit == w.explicit && w'.held == w.held
            && (forall y :: StorageLead(g, w', y) == StorageLead(g, w, y)
                            && DiskLead(g, w', y) == DiskLead(g, w, y) + Share(b == Some(y), v))
  {
    hide Core, Closed, Known, DiskLead, StorageLead, Load, AddRef, Rec, RefSame, Acyclic, Present;
    if b.Some? {
      KnownPresent(g, w, b.value);
      LoadAndAddRef(g, rank, w, b.value, v, {});
      RefSameFields(g, w, MoveRef(g, w, b, v), {b.value});
    }
  }

  lemma NameEntryKnown(g: Graph, w: World, n: Name)
    requires Inv(g, w) && n in w.names && w.names[n].oldValue != w.names[n].newValue
    ensures w.names[n].gotStorageRef && w.names[n].oldValue == LookUp(w.backendNames, n)
    ensures w.names[n].newValue.Some? ==> w.names[n].newValue.value in Known(w)
    ensures w.names[n].oldValue.Some? ==> w.names[n].oldValue.value in Known(w)
  {
    hide Core, Closed, Balanced;
    var e := w.names[n];
    if e.newValue.Some? {
      PendingKnown(g, w, n, e.newValue.value);
    }
    if e.oldValue.Some? {
      NamedIsCounted(g, w, n);
    }
  }

  lemma PutBackendNameStep(g: Graph, w: World, n: Name)
    requires Inv(g, w) && n in w.names && w.names[n].oldValue != w.names[n].newValue
    ensures var e := w.names[n];
            var w1 := PutBackendName(w, n, e.newValue);
            && Core(w1, {}) && Closed(g, w1) && Known(w1) == Known(w)
            && forall y :: Leads(g, w1, y, Share(e.oldValue == Some(y), 1) - Share(e.newValue == Some(y), 1), 0)
  {
    hide Core, Closed, Balanced, Known, DiskLead, StorageLead, NamesOk, Naming, NamesAt, At, PendingAt;
    var e := w.names[n];
    NameEntryKnown(g, w, n);
    var w1 := PutBackendName(w, n, e.newValue);
    LedgerCore(g, w, w1, {});
    forall y ensures Leads(g, w1, y, Share(e.oldValue == Some(y), 1) - Share(e.newValue == Some(y), 1), 0) {
      LeadsOfInv(g, w, y);
      LedgerLeads(g, w, w1, y);
      NamesAtMove(w.backendNames, n, e.newValue, y);
    }
  }

  lemma TradeRefStep(g: Graph, rank: Id -> nat, w: World, n: Name, v: Option<Id>)
    requires Acyclic(g, rank) && Core(w, {}) && Closed(g, w) && (v.Some? ==> v.value in Known(w))
    requires n in w.names && w.names[n].newValue == v && w.names[n].gotStorageRef
    ensures var w' := TradeRef(g, w, n, v);
            && Core(w', {}) && Closed(g, w') && Known(w') == Known(w) && w'.backendNames == w.backendNames
            && w'.names == w.names[n := if v.Some? then w.names[n].(gotStorageRef := false) else w.names[n]]
            && (forall y :: DiskLead(g, w', y) == DiskLead(g, w, y) + Share(v == Some(y), 1)
                            && StorageLead(g, w', y) == StorageLead(g, w, y))
  {
    hide Core, Closed, Known, DiskLead, StorageLead, NamesAt, At, PendingAt, MoveStorageRef, MoveRef, Acyclic;
    var w' := TradeRef(g, w, n, v);
    if v.Some? {
      var w1 := MoveRef(g, w, v, 1);
      var w2 := MoveStorageRef(w1, v, -1);
      MoveRefStep(g, rank, w, v, 1);
      MoveStorageRefStep(g, w1, v, -1);
      LedgerCore(g, w2, w', {});
      forall y ensures DiskLead(g, w', y) == DiskLead(g, w, y) + Share(v == Some(y), 1)
                       && StorageLead(g, w', y) == StorageLead(g, w, y)
      {
        LedgerLeads(g, w2, w', y);
        PendingAtMove(w2.names, n, w.names[n].(gotStorageRef := false), y);
      }
    }
  }

  lemma FlushNameMoves(g: Graph, rank: Id -> nat, w: World, n: Name)
    requires Acyclic(g, rank) && Inv(g, w) && n in w.names && w.names[n].oldValue != w.names[n].newValue
    ensures var e := w.names[n];
            var w1 := PutBackendName(w, n, e.newValue);
            var w2 := TradeRef(g, w1, n, e.newValue);
            var w3 := MoveRef(g, w2, e.oldValue, -1);
            && Core(w2, {}) && Closed(g, w2) && Known(w2) == Known(w)
            && (forall y :: Leads(g, w2, y, Share(e.oldValue == Some(y), 1), 0))
            && Core(w3, {}) && Closed(g, w3) && w3.backendNames == w1.backendNames
            && w3.names == w.names[n := if e.newValue.Some? then e.(gotStorageRef := false) else e]
            && forall y :: Leads(g, w3, y, 0, 0)
  {
    hide Core, Closed, Balanced, Known, DiskLead, StorageLead, TradeRef, MoveRef, NamesOk, Naming, NamesAt, At,
      PendingAt, Acyclic;
    var e := w.names[n];
    NameEntryKnown(g, w, n);
    var w1 := PutBackendName(w, n, e.newValue);
    var w2 := TradeRef(g, w1, n, e.newValue);
    var w3 := MoveRef(g, w2, e.oldValue, -1);
    PutBackendNameStep(g, w, n);
    TradeRefStep(g, rank, w1, n, e.newValue);
    MoveRefStep(g, rank, w2, e.oldValue, -1);
    forall y ensures Leads(g, w2, y, Share(e.oldValue == Some(y), 1), 0) && Leads(g, w3, y, 0, 0) {
      assert Leads(g, w1, y, Share(e.oldValue == Some(y), 1) - Share(e.newValue == Some(y), 1), 0);
    }
  }

  lemma FlushNameNames(w: World, w': World, n: Name, e: OldNew)
    requires NamesOk(w) && n in w.names && e.newValue == e.oldValue
    requires w'.names == w.names[n := e] && w'.backendNames == Naming(w.backendNames, n, e.newValue)
    ensures NamesOk(w')
  {
  }

  /** Flushing one name keeps the invariant. */
  lemma FlushNameStep(g: Graph, rank: Id -> nat, w: World, n: Name)
    requires Acyclic(g, rank) && Inv(g, w) && n in w.names && w.names[n].oldValue != w.names[n].newValue
    ensures var w' := FlushName(g, w, n);
            && Inv(g, w') && w'.names.Keys == w.names.Keys && w'.names[n].oldValue == w'.names[n].newValue
            && w'.names[n].newValue == w.names[n].newValue
            && (forall k :: k in w.names && k != n ==> w'.names[k] == w.names[k])
  {
    hide Core, Closed, Balanced, Known, DiskLead, StorageLead, TradeRef, MoveRef, NamesOk, Naming, NamesAt, At,
      PendingAt, Acyclic;
    var e := w.names[n];
    var w3 := MoveRef(g, TradeRef(g, PutBackendName(w, n, e.newValue), n, e.newValue), e.oldValue, -1);
    var w' := FlushName(g, w, n);
    FlushNameMoves(g, rank, w, n);
    LedgerCore(g, w3, w', {});
    FlushNameNames(w, w', n, w'.names[n]);
    forall y ensures Leads(g, w', y, 0, 0) {
      assert Leads(g, w3, y, 0, 0);
      LedgerLeads(g, w3, w', y);
      PendingAtMove(w3.names, n, w'.names[n], y);
    }
    InvByLeads(g, w');
  }
}
