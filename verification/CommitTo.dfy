/** Writing the nodes of a tree that are only in memory to the block store. */
module CommitTo {
  import opened Keys
  import opened BTree

  /** `u` is `t` with more nodes stored. */
  ghost predicate Grown(t: Tree, u: Tree) {
    && u.nodeMaximumSize == t.nodeMaximumSize
    && forall id :: id in t.backend ==> id in u.backend && u.backend[id] == t.backend[id]
  }

  /** Storing more nodes changes nothing about the ones that were there. */
  lemma {:induction false} GrownChild(t: Tree, u: Tree, c: NodeDataChild, h: nat)
    requires Grown(t, u) && WfChild(t, c, h)
    ensures WfChild(u, c, h) && FlatChild(u, c, h) == FlatChild(t, c, h)
    decreases h, 0
  {
    if h > 0 {
      GrownChildren(t, u, ChildNode(t, c).children, h - 1);
    }
  }

  lemma {:induction false} GrownChildren(t: Tree, u: Tree, cs: seq<NodeDataChild>, h: nat)
    requires Grown(t, u) && WfChildren(t, cs, h)
    ensures WfChildren(u, cs, h) && Flat(u, cs, h) == Flat(t, cs, h)
    decreases h, 1, |cs|
  {
    if cs != [] {
      GrownChild(t, u, cs[0], h);
      GrownChildren(t, u, cs[1..], h);
      assert forall i :: 0 < i < |cs| ==> cs[i] == cs[1..][i - 1];
    }
  }

  /** Lists of slots that stand for the same entries, slot by slot. */
  ghost predicate SameSlots(t: Tree, u: Tree, a: seq<NodeDataChild>, b: seq<NodeDataChild>, h: nat) {
    && |a| == |b|
    && forall i {:trigger a[i]} {:trigger b[i]} :: 0 <= i < |a| ==>
         a[i].key == b[i].key && FlatChild(t, a[i], h) == FlatChild(u, b[i], h)
  }

  lemma {:induction false} SameSlotsFlat(t: Tree, u: Tree, a: seq<NodeDataChild>, b: seq<NodeDataChild>, h: nat)
    requires SameSlots(t, u, a, b, h)
    ensures Flat(t, a, h) == Flat(u, b, h)
    decreases |a|
  {
    if a != [] {
      assert forall i :: 0 <= i < |a[1..]| ==> a[1..][i] == a[i + 1] && b[1..][i] == b[i + 1];
      SameSlotsFlat(t, u, a[1..], b[1..], h);
    }
  }

  // ----- nodes that are only in memory

  ghost function Dirty(n: Node, h: nat): nat
    decreases h, 1, 0
  {
    if n.blockId.Some? then 0 else 1 + DirtyBelow(n.children, h)
  }

  ghost function DirtyBelow(cs: seq<NodeDataChild>, h: nat): nat
    decreases h, 0, |cs|
  {
    if cs == [] || h == 0 then 0 else
    (if cs[0].childNode.Some? then Dirty(cs[0].childNode.value, h - 1) else 0) + DirtyBelow(cs[1..], h)
  }

  lemma DirtySplit(cs: seq<NodeDataChild>, i: nat, h: nat)
    requires i < |cs| && h > 0
    ensures DirtyBelow(cs[i..], h)
         == (if cs[i].childNode.Some? then Dirty(cs[i].childNode.value, h - 1) else 0) + DirtyBelow(cs[i + 1..], h)
  {
    assert cs[i..][1..] == cs[i + 1..];
  }

  predicate AllStored(cs: seq<NodeDataChild>) {
    forall i :: 0 <= i < |cs| ==> cs[i].childNode.None?
  }

  function ToData(leafy: bool, cs: seq<NodeDataChild>): NodeData {
    NodeData(leafy, seq(|cs|, i requires 0 <= i < |cs| => Entry(cs[i].key, cs[i].value)))
  }

  lemma DataRoundTrip(leafy: bool, cs: seq<NodeDataChild>, id: BlockId)
    requires AllStored(cs)
    ensures FromData(ToData(leafy, cs), id) == Node(leafy, cs, Some(id))
  {
    assert FromData(ToData(leafy, cs), id).children == cs;
  }

  // ----- what is reached from a stored node

  type NodeStore = map<BlockId, NodeData>

  /** The ids of a stored node and of all nodes below it. */
  ghost function Reach(b: NodeStore, id: BlockId, h: nat): set<BlockId>
    decreases h, 1, 0
  {
    {id} + if h > 0 && id in b then ReachAll(b, b[id].children, h) else {}
  }

  ghost function ReachAll(b: NodeStore, es: seq<Entry>, h: nat): set<BlockId>
    requires h > 0
    decreases h, 0, |es|
  {
    if es == [] then {} else ReachAll(b, es[..|es| - 1], h) + Reach(b, es[|es| - 1].value, h - 1)
  }

  ghost predicate Extends(b: NodeStore, b': NodeStore) {
    forall id :: id in b ==> id in b' && b'[id] == b[id]
  }

  lemma {:induction false} ReachMono(b: NodeStore, b': NodeStore, id: BlockId, h: nat)
    requires Extends(b, b')
    ensures Reach(b, id, h) <= Reach(b', id, h)
    decreases h, 1, 0
  {
    if h > 0 && id in b {
      ReachAllMono(b, b', b[id].children, h);
    }
  }

  lemma {:induction false} ReachAllMono(b: NodeStore, b': NodeStore, es: seq<Entry>, h: nat)
    requires Extends(b, b') && h > 0
    ensures ReachAll(b, es, h) <= ReachAll(b', es, h)
    decreases h, 0, |es|
  {
    if es != [] {
      ReachAllMono(b, b', es[..|es| - 1], h);
      ReachMono(b, b', es[|es| - 1].value, h - 1);
    }
  }

  lemma {:induction false} ReachAllHas(b: NodeStore, es: seq<Entry>, h: nat, i: nat)
    requires h > 0 && i < |es|
    ensures Reach(b, es[i].value, h - 1) <= ReachAll(b, es, h)
    decreases |es|
  {
    if i < |es| - 1 {
      ReachAllHas(b, es[..|es| - 1], h, i);
    }
  }

  /** What a save has done: every new node is below `reach`, and with its children
      on the list of nodes that are current. */
  ghost predicate Tracked(b: NodeStore, b': NodeStore, c: set<BlockId>, c': set<BlockId>, reach: set<BlockId>) {
    && Extends(b, b') && c <= c' <= c + reach
    && forall x :: x in b' && x !in b ==>
         x in reach && x in c'
         && (!b'[x].leafy ==> forall i :: 0 <= i < |b'[x].children| ==> b'[x].children[i].value in c')
  }

  lemma TrackedTrans(b: NodeStore, b1: NodeStore, b2: NodeStore, c: set<BlockId>, c1: set<BlockId>, c2: set<BlockId>,
                     r1: set<BlockId>, r2: set<BlockId>, r: set<BlockId>)
    requires Tracked(b, b1, c, c1, r1) && Tracked(b1, b2, c1, c2, r2) && r1 <= r && r2 <= r
    ensures Tracked(b, b2, c, c2, r)
  {
    forall x | x in b2 && x !in b
      ensures x in r && x in c2
              && (!b2[x].leafy ==> forall i :: 0 <= i < |b2[x].children| ==> b2[x].children[i].value in c2)
    {
      assert x in b1 ==> b2[x] == b1[x];
    }
  }

  function Values(es: seq<Entry>): set<BlockId> {
    set i | 0 <= i < |es| :: es[i].value
  }

  /** A block store, and the list of nodes that are current: those saved and what
      they refer to.  The id of a node it does not hold yet is the next one of
      the supply; if the store addresses nodes by their contents, a node it holds
      may also be given its id again. */
  class TreeSaver {
    const addressed: bool
    var stored: NodeStore
    var supply: seq<BlockId>
    var currentMap: set<BlockId>

    ghost predicate Valid()
      reads this
    {
      && (forall i :: 0 <= i < |supply| ==> supply[i] !in stored && |supply[i]| <= HASH_SIZE)
      && forall i, j :: 0 <= i < j < |supply| ==> supply[i] != supply[j]
    }

    constructor (addressed: bool, stored: NodeStore, supply: seq<BlockId>)
      requires forall i :: 0 <= i < |supply| ==> supply[i] !in stored && |supply[i]| <= HASH_SIZE
      requires forall i, j :: 0 <= i < j < |supply| ==> supply[i] != supply[j]
      ensures Valid() && this.addressed == addressed && this.stored == stored && this.supply == supply && currentMap == {}
    {
      this.addressed, this.stored, this.supply, currentMap := addressed, stored, supply, {};
    }

    method SaveNode(nd: NodeData) returns (bid: BlockId)
      requires Valid() && |supply| > 0
      modifies this
      ensures Valid() && |supply| >= old(|supply|) - 1
      ensures |bid| <= HASH_SIZE
      ensures bid in old(stored) ==> addressed && old(stored)[bid] == nd
      ensures stored == old(stored)[bid := nd]
      ensures !addressed ==> bid == old(supply)[0] && supply == old(supply)[1..]
      ensures currentMap == old(currentMap) + {bid} + if nd.leafy then {} else Values(nd.children)
    {
      if !nd.leafy {
        currentMap := currentMap + Values(nd.children);
      }
      var again := *;
      if addressed && again && exists id :: id in stored && |id| <= HASH_SIZE && stored[id] == nd {
        bid :| bid in stored && |bid| <= HASH_SIZE && stored[bid] == nd;
        assert stored == stored[bid := nd];
      } else {
        bid := supply[0];
        supply := supply[1..];
        stored := stored[bid := nd];
      }
      currentMap := currentMap + {bid};
    }
  }

  /** The next `n` ids of the supply are the ones now stored. */
  ghost predicate Took(b: NodeStore, b': NodeStore, supply: seq<BlockId>, supply': seq<BlockId>, n: nat) {
    && n <= |supply| && supply' == supply[n..]
    && b'.Keys == b.Keys + set i | 0 <= i < n :: supply[i]
  }

  lemma TookTrans(b: NodeStore, b1: NodeStore, b2: NodeStore, s: seq<BlockId>, s1: seq<BlockId>, s2: seq<BlockId>,
                  m: nat, n: nat)
    requires Took(b, b1, s, s1, m) && Took(b1, b2, s1, s2, n)
    ensures Took(b, b2, s, s2, m + n)
  {
    var x := set i | 0 <= i < m :: s[i];
    var y := set i | 0 <= i < n :: s1[i];
    var z := set i | 0 <= i < m + n :: s[i];
    assert forall i :: 0 <= i < n ==> s1[i] == s[m + i];
    forall id | id in z ensures id in x + y {
      var i :| 0 <= i < m + n && s[i] == id;
      assert i < m || s1[i - m] == id;
    }
    assert z == x + y;
  }

  ghost function TreeOf(size: nat, sv: TreeSaver): Tree
    reads sv
  {
    Tree(size, sv.stored)
  }

  /** The slot for a node that has been stored. */
  lemma StoredSlot(t: Tree, u: Tree, c: NodeDataChild, r: Node, bid: BlockId, h: nat)
    requires t.Valid() && Grown(t, u) && WfChild(t, c, h) && h > 0 && c.childNode.Some?
    requires bid in u.backend && r == FromData(u.backend[bid], bid) && WfNode(u, r, h - 1)
    requires SameSlots(t, u, c.childNode.value.children, r.children, h - 1)
    ensures WfChild(u, NodeDataChild(c.key, bid, None), h)
    ensures FlatChild(u, NodeDataChild(c.key, bid, None), h) == FlatChild(t, c, h)
  {
    SameSlotsFlat(t, u, c.childNode.value.children, r.children, h - 1);
  }

  /** Stores every node below and including `n` that is only in memory.  What
      comes back is what a load by the returned id gives, and means the same. */
  method CommitTo(n: Node, size: nat, sv: TreeSaver, ghost h: nat) returns (r: Node, bid: BlockId)
    requires sv.Valid() && size >= MINIMUM_NODE_MAXIMUM_SIZE
    requires WfNode(TreeOf(size, sv), n, h)
    requires |sv.supply| >= Dirty(n, h)
    modifies sv
    ensures sv.Valid() && Grown(old(TreeOf(size, sv)), TreeOf(size, sv))
    ensures |sv.supply| >= old(|sv.supply|) - Dirty(n, h)
    ensures bid in sv.stored && r == FromData(sv.stored[bid], bid)
    ensures n.blockId.Some? ==> r == n && unchanged(sv)
    ensures WfNode(TreeOf(size, sv), r, h)
    ensures SameSlots(old(TreeOf(size, sv)), TreeOf(size, sv), n.children, r.children, h)
    ensures Tracked(old(sv.stored), sv.stored, old(sv.currentMap), sv.currentMap, Reach(sv.stored, bid, h))
    ensures !sv.addressed ==> Took(old(sv.stored), sv.stored, old(sv.supply), sv.supply, Dirty(n, h))
    ensures !sv.addressed && n.blockId.None? ==> bid !in old(sv.stored)
    decreases h, 2
  {
    hide WfChild, WfChildren, FlatChild, Flat, Reach, ReachAll, Tracked, Took;
    if n.blockId.Some? {
      NothingSaved(sv.stored, sv.currentMap, sv.supply, Reach(sv.stored, n.blockId.value, h));
      return n, n.blockId.value;
    }
    ghost var t, b, c, s := TreeOf(size, sv), sv.stored, sv.currentMap, sv.supply;
    var cl := n.children;
    if n.leafy {
      LeafSlotsStored(t, cl);
      NothingSaved(b, c, s, {});
    } else {
      cl := CommitChildren(cl, size, sv, h);
    }
    ghost var u, b1, c1, s1 := TreeOf(size, sv), sv.stored, sv.currentMap, sv.supply;
    bid := sv.SaveNode(ToData(n.leafy, cl));
    r := Node(n.leafy, cl, Some(bid));
    DataRoundTrip(n.leafy, cl, bid);
    GrownSlots(t, u, TreeOf(size, sv), n.children, cl, h);
    SavedNode(b, b1, sv.stored, c, c1, sv.currentMap, bid, ToData(n.leafy, cl), h);
    if !sv.addressed {
      TookOne(b1, sv.stored, s1, sv.supply, bid);
      TookTrans(b, b1, sv.stored, s, s1, sv.supply, if n.leafy then 0 else DirtyBelow(n.children, h), 1);
      TookKeys(b, b1, s, s1, if n.leafy then 0 else DirtyBelow(n.children, h));
    }
  }

  lemma NothingSaved(b: NodeStore, c: set<BlockId>, s: seq<BlockId>, r: set<BlockId>)
    ensures Tracked(b, b, c, c, r) && Took(b, b, s, s, 0)
  {
  }

  lemma TookOne(b: NodeStore, b': NodeStore, s: seq<BlockId>, s': seq<BlockId>, bid: BlockId)
    requires |s| > 0 && s' == s[1..] && bid == s[0] && b'.Keys == b.Keys + {bid}
    ensures Took(b, b', s, s', 1)
  {
  }

  lemma TookKeys(b: NodeStore, b': NodeStore, s: seq<BlockId>, s': seq<BlockId>, n: nat)
    requires Took(b, b', s, s', n)
    ensures b.Keys <= b'.Keys
  {
  }

  lemma {:induction false} ReachAllValues(b: NodeStore, es: seq<Entry>, h: nat)
    requires h > 0
    ensures Values(es) <= ReachAll(b, es, h)
  {
    forall i | 0 <= i < |es| ensures es[i].value in ReachAll(b, es, h) {
      ReachAllHas(b, es, h, i);
    }
  }

  /** Saving a node whose children have been saved. */
  lemma SavedNode(b: NodeStore, b1: NodeStore, b2: NodeStore, c: set<BlockId>, c1: set<BlockId>, c2: set<BlockId>,
                  bid: BlockId, nd: NodeData, h: nat)
    requires nd.leafy == (h == 0)
    requires Tracked(b, b1, c, c1, if h == 0 then {} else ReachAll(b1, nd.children, h))
    requires b2 == b1[bid := nd] && (bid in b1 ==> b1[bid] == nd)
    requires c2 == c1 + {bid} + if nd.leafy then {} else Values(nd.children)
    ensures Tracked(b, b2, c, c2, Reach(b2, bid, h))
  {
    hide Tracked, ReachAll, Values;
    var r1 := if h == 0 then {} else ReachAll(b1, nd.children, h);
    assert Extends(b1, b2);
    if h > 0 {
      ReachAllMono(b1, b2, nd.children, h);
      ReachAllValues(b2, nd.children, h);
    }
    SavedOne(b1, b2, c1, c2, bid, nd, Reach(b2, bid, h));
    TrackedTrans(b, b1, b2, c, c1, c2, r1, Reach(b2, bid, h), Reach(b2, bid, h));
  }

  lemma SavedOne(b: NodeStore, b': NodeStore, c: set<BlockId>, c': set<BlockId>, bid: BlockId, nd: NodeData,
                 r: set<BlockId>)
    requires b' == b[bid := nd] && (bid in b ==> b[bid] == nd)
    requires c' == c + {bid} + if nd.leafy then {} else Values(nd.children)
    requires bid in r && (nd.leafy || Values(nd.children) <= r)
    ensures Tracked(b, b', c, c', r)
  {
    forall x | x in b' && x !in b
      ensures x in r && x in c'
              && (!b'[x].leafy ==> forall i :: 0 <= i < |b'[x].children| ==> b'[x].children[i].value in c')
    {
      assert x == bid && b'[x] == nd;
      if !nd.leafy {
        forall i | 0 <= i < |nd.children| ensures nd.children[i].value in c' {
          assert nd.children[i].value in Values(nd.children);
        }
      }
    }
  }

  /** Stores the nodes in the given slots and makes them refer to the store. */
  method CommitChildren(cs: seq<NodeDataChild>, size: nat, sv: TreeSaver, ghost h: nat) returns (cl: seq<NodeDataChild>)
    requires sv.Valid() && size >= MINIMUM_NODE_MAXIMUM_SIZE && h > 0
    requires WfChildren(TreeOf(size, sv), cs, h)
    requires |sv.supply| >= DirtyBelow(cs, h)
    modifies sv
    ensures sv.Valid() && Grown(old(TreeOf(size, sv)), TreeOf(size, sv))
    ensures |sv.supply| >= old(|sv.supply|) - DirtyBelow(cs, h)
    ensures AllStored(cl) && WfChildren(TreeOf(size, sv), cl, h)
    ensures SameSlots(old(TreeOf(size, sv)), TreeOf(size, sv), cs, cl, h)
    ensures Tracked(old(sv.stored), sv.stored, old(sv.currentMap), sv.currentMap,
                    ReachAll(sv.stored, ToData(false, cl).children, h))
    ensures !sv.addressed ==> Took(old(sv.stored), sv.stored, old(sv.supply), sv.supply, DirtyBelow(cs, h))
    decreases h, 1
  {
    hide WfChild, FlatChild, Flat, Reach, ReachAll, Tracked, Took, DirtyBelow;
    ghost var t, b, c0, s := TreeOf(size, sv), sv.stored, sv.currentMap, sv.supply;
    cl := [];
    NothingSaved(b, c0, s, ReachAll(b, ToData(false, cl).children, h));
    assert cs[0..] == cs;
    for i := 0 to |cs|
      invariant sv.Valid() && Grown(t, TreeOf(size, sv))
      invariant DirtyBelow(cs[i..], h) <= DirtyBelow(cs, h)
      invariant |sv.supply| >= |s| - DirtyBelow(cs, h) + DirtyBelow(cs[i..], h)
      invariant |cl| == i && AllStored(cl)
      invariant WfChildren(TreeOf(size, sv), cl, h)
      invariant SameSlots(t, TreeOf(size, sv), cs[..i], cl, h)
      invariant Tracked(b, sv.stored, c0, sv.currentMap, ReachAll(sv.stored, ToData(false, cl).children, h))
      invariant !sv.addressed ==> Took(b, sv.stored, s, sv.supply, DirtyBelow(cs, h) - DirtyBelow(cs[i..], h))
    {
      ghost var u, b1, c1, s1 := TreeOf(size, sv), sv.stored, sv.currentMap, sv.supply;
      DirtySplit(cs, i, h);
      GrownChild(t, u, cs[i], h);
      var c := CommitChild(cs[i], size, sv, h);
      GrownSlots(t, u, TreeOf(size, sv), cs[..i], cl, h);
      SavedSlot(b, b1, sv.stored, c0, c1, sv.currentMap, cl, c, h);
      if !sv.addressed {
        TookTrans(b, b1, sv.stored, s, s1, sv.supply, DirtyBelow(cs, h) - DirtyBelow(cs[i..], h),
                  DirtyBelow(cs[i..], h) - DirtyBelow(cs[i + 1..], h));
      }
      cl := cl + [c];
    }
    assert cs[..|cs|] == cs;
    DirtyNone(cs[|cs|..], h);
  }

  lemma DirtyNone(cs: seq<NodeDataChild>, h: nat)
    requires cs == []
    ensures DirtyBelow(cs, h) == 0
  {
  }

  ghost function DirtySlot(c: NodeDataChild, h: nat): nat
    requires h > 0
  {
    if c.childNode.Some? then Dirty(c.childNode.value, h - 1) else 0
  }

  method CommitChild(c: NodeDataChild, size: nat, sv: TreeSaver, ghost h: nat) returns (d: NodeDataChild)
    requires sv.Valid() && size >= MINIMUM_NODE_MAXIMUM_SIZE && h > 0
    requires WfChild(TreeOf(size, sv), c, h)
    requires |sv.supply| >= DirtySlot(c, h)
    modifies sv
    ensures sv.Valid() && Grown(old(TreeOf(size, sv)), TreeOf(size, sv))
    ensures |sv.supply| >= old(|sv.supply|) - DirtySlot(c, h)
    ensures d.key == c.key && d.childNode.None? && WfChild(TreeOf(size, sv), d, h)
    ensures FlatChild(TreeOf(size, sv), d, h) == FlatChild(old(TreeOf(size, sv)), c, h)
    ensures Tracked(old(sv.stored), sv.stored, old(sv.currentMap), sv.currentMap, Reach(sv.stored, d.value, h - 1))
    ensures !sv.addressed ==> Took(old(sv.stored), sv.stored, old(sv.supply), sv.supply, DirtySlot(c, h))
    decreases h, 0
  {
    hide WfChild, FlatChild, Flat, Reach, ReachAll, Tracked, Took;
    d := c;
    if c.childNode.Some? {
      ghost var u := TreeOf(size, sv);
      InMemoryChild(u, c, h);
      var r, bid := CommitTo(c.childNode.value, size, sv, h - 1);
      StoredSlot(u, TreeOf(size, sv), c, r, bid, h);
      d := NodeDataChild(c.key, bid, None);
    } else {
      NothingSaved(sv.stored, sv.currentMap, sv.supply, Reach(sv.stored, c.value, h - 1));
    }
  }

  /** One more slot of a list that is being saved. */
  lemma SavedSlot(b: NodeStore, b1: NodeStore, b2: NodeStore, c: set<BlockId>, c1: set<BlockId>, c2: set<BlockId>,
                  cl: seq<NodeDataChild>, s: NodeDataChild, h: nat)
    requires h > 0 && Tracked(b, b1, c, c1, ReachAll(b1, ToData(false, cl).children, h))
    requires Tracked(b1, b2, c1, c2, Reach(b2, s.value, h - 1)) && Extends(b1, b2)
    ensures Tracked(b, b2, c, c2, ReachAll(b2, ToData(false, cl + [s]).children, h))
  {
    hide Tracked;
    var es, es' := ToData(false, cl).children, ToData(false, cl + [s]).children;
    assert es'[..|es'| - 1] == es;
    ReachAllMono(b1, b2, es, h);
    TrackedTrans(b, b1, b2, c, c1, c2, ReachAll(b1, es, h), Reach(b2, s.value, h - 1), ReachAll(b2, es', h));
  }

  lemma InMemoryChild(t: Tree, c: NodeDataChild, h: nat)
    requires WfChild(t, c, h) && h > 0 && c.childNode.Some?
    ensures WfNode(t, c.childNode.value, h - 1)
  {
  }

  lemma LeafSlotsStored(t: Tree, cs: seq<NodeDataChild>)
    requires WfChildren(t, cs, 0)
    ensures AllStored(cs) && SameSlots(t, t, cs, cs, 0)
  {
    assert forall i :: 0 <= i < |cs| ==> WfChild(t, cs[i], 0);
  }

  /** Slots that meant the same still do after more has been stored. */
  lemma GrownSlots(t: Tree, u: Tree, v: Tree, a: seq<NodeDataChild>, b: seq<NodeDataChild>, h: nat)
    requires Grown(u, v) && WfChildren(u, b, h) && SameSlots(t, u, a, b, h)
    ensures WfChildren(v, b, h) && SameSlots(t, v, a, b, h)
  {
    hide WfChild, FlatChild;
    forall i | 0 <= i < |b| ensures WfChild(v, b[i], h) && FlatChild(v, b[i], h) == FlatChild(u, b[i], h) {
      GrownChild(u, v, b[i], h);
    }
  }

  /** A committed tree loads by its id as the same map, and commits to itself. */
  lemma CommittedTree(t: Tree, u: Tree, n: Node, r: Node, h: nat)
    requires WfRoot(t, n, h) && WfNode(u, r, h) && SameSlots(t, u, n.children, r.children, h)
    ensures WfRoot(u, r, h) && TreeMap(u, r, h) == TreeMap(t, n, h)
  {
    SameSlotsFlat(t, u, n.children, r.children, h);
  }
}
