/** The mutable path cursor that drives every operation on the immutable nodes. */
module IbStack {
  import opened Keys
  import opened BTree
  import opened Path
  import opened Edits

  // ----- the cursor's arrays as values

  ghost predicate LinkAt(t: Tree, ns: seq<Option<Node>>, idx: seq<int>, i: nat) {
    && i + 1 < |ns| == |idx|
    && ns[i].Some? && ns[i + 1].Some?
    && 0 <= idx[i] < |ns[i].value.children|
    && Loadable(t, ns[i].value.children[idx[i]])
    && ns[i + 1].value == ChildNode(t, ns[i].value.children[idx[i]])
  }

  ghost predicate LinkedFrom(t: Tree, ns: seq<Option<Node>>, idx: seq<int>, base: nat, limit: nat) {
    forall i :: base <= i < limit ==> LinkAt(t, ns, idx, i)
  }

  ghost function PathOf(ns: seq<Option<Node>>, idx: seq<int>, k: nat): seq<Frame>
    requires k <= |ns| == |idx|
    requires forall i :: 0 <= i < k ==> ns[i].Some?
  {
    seq(k, i requires 0 <= i < k => Frame(ns[i].value, idx[i]))
  }

  /** What clearing the cached nodes below level `k` leaves. */
  ghost function Cut(ns: seq<Option<Node>>, k: nat): seq<Option<Node>> {
    seq(|ns|, i requires 0 <= i < |ns| => if i <= k then ns[i] else None)
  }

  /** Linked levels make a well-formed path with the root's contents. */
  lemma {:induction false} Along(t: Tree, ns: seq<Option<Node>>, idx: seq<int>, root: Node, h: nat, k: nat)
    requires k < |ns| == |idx| && k <= h
    requires ns[0] == Some(root) && WfNode(t, root, h)
    requires forall i :: 0 <= i <= k ==> ns[i].Some?
    requires LinkedFrom(t, ns, idx, 0, k)
    ensures WfPath(t, PathOf(ns, idx, k), h) && WfNode(t, ns[k].value, h - k)
    ensures Contents(t, PathOf(ns, idx, k), ns[k].value.children, h) == Flat(t, root.children, h)
  {
    if k == 0 {
      assert PathOf(ns, idx, 0) == [];
    } else {
      Along(t, ns, idx, root, h, k - 1);
      var p, f := PathOf(ns, idx, k - 1), Frame(ns[k - 1].value, idx[k - 1]);
      assert LinkAt(t, ns, idx, k - 1);
      assert PathOf(ns, idx, k) == p + [f];
      PathSnoc(t, p, f, h);
      Descend(t, p, f, h);
    }
  }

  /** Re-pointing the cursor at level `k` keeps the links that lead there. */
  lemma RepointLinks(t: Tree, ns: seq<Option<Node>>, idx: seq<int>, base: nat, k: nat, limit: nat, x: int)
    requires LinkedFrom(t, ns, idx, base, limit) && k <= limit < |ns| == |idx|
    ensures x == idx[k] ==> LinkedFrom(t, ns, idx[k := x], base, limit)
    ensures LinkedFrom(t, Cut(ns, k), idx[k := x], base, k)
  {
    assert x == idx[k] ==> idx[k := x] == idx;
    var ns', idx' := Cut(ns, k), idx[k := x];
    forall i | base <= i < k ensures LinkAt(t, ns', idx', i) {
      assert LinkAt(t, ns, idx, i);
    }
  }

  /** So does caching the node in the slot the cursor points at. */
  lemma CacheLinks(t: Tree, ns: seq<Option<Node>>, idx: seq<int>, base: nat, k: nat, limit: nat, n: Node)
    requires LinkedFrom(t, ns, idx, base, limit) && base <= k <= limit < |ns| == |idx| && k + 1 < |ns|
    requires ns[k].Some? && 0 <= idx[k] < |ns[k].value.children|
    requires Loadable(t, ns[k].value.children[idx[k]]) && n == ChildNode(t, ns[k].value.children[idx[k]])
    ensures LinkedFrom(t, ns[k + 1 := Some(n)], idx, base, if limit == k then k + 1 else limit)
  {
    var ns' := ns[k + 1 := Some(n)];
    forall i | base <= i < (if limit == k then k + 1 else limit) ensures LinkAt(t, ns', idx, i) {
      if i < limit {
        assert LinkAt(t, ns, idx, i);
      }
      if k < limit {
        assert LinkAt(t, ns, idx, k);
        assert ns' == ns;
      }
    }
  }

  // ----- which nodes are large enough

  /** The slot's node, if it is in memory, is not small. */
  ghost predicate Fine(t: Tree, c: NodeDataChild) {
    c.childNode.Some? ==> Msgsize(c.childNode.value) >= t.SmallSize()
  }

  ghost predicate FineUpTo(t: Tree, cs: seq<NodeDataChild>, n: int) {
    forall j :: 0 <= j < n && j < |cs| ==> Fine(t, cs[j])
  }

  /** No node in memory among these is small, unless it has no sibling. */
  ghost predicate Tidy(t: Tree, cs: seq<NodeDataChild>) {
    |cs| == 1 || FineUpTo(t, cs, |cs|)
  }

  /** All the way down, no node in memory is small beside a sibling: the slots are
      those of a node `k` levels above the leaves. */
  ghost predicate DeepTidy(t: Tree, cs: seq<NodeDataChild>, k: nat)
    decreases k, 1
  {
    k > 0 ==> Tidy(t, cs) && forall j :: 0 <= j < |cs| ==> Settled(t, cs[j], k)
  }

  /** So it is below a slot of such a node. */
  ghost predicate Settled(t: Tree, c: NodeDataChild, k: nat)
    requires k > 0
    decreases k, 0
  {
    c.childNode.Some? ==> DeepTidy(t, c.childNode.value.children, k - 1)
  }

  ghost predicate SettledUpTo(t: Tree, cs: seq<NodeDataChild>, n: int, k: nat)
    requires k > 0
  {
    FineUpTo(t, cs, n) && forall j :: 0 <= j < n && j < |cs| ==> Settled(t, cs[j], k)
  }

  /** So it is left of a path. */
  ghost predicate WalkedPath(t: Tree, p: seq<Frame>, h: nat)
    requires |p| <= h
  {
    forall i :: 0 <= i < |p| ==> SettledUpTo(t, p[i].node.children, p[i].index, h - i)
  }

  // ----- which entries are small enough

  /** Taking this entry out of a node of at least `HalfSize` does not make that node
      small, be it a slot of a leaf or one that leads to it. */
  ghost predicate Light(t: Tree, e: Entry) {
    && CHILD_OVERHEAD + |e.key| + |e.value| <= t.HalfSize() - t.SmallSize()
    && CHILD_OVERHEAD + |e.key| + HASH_SIZE <= t.HalfSize() - t.SmallSize()
  }

  /** All entries are light, and slots that lead to them take at least `m` bytes. */
  ghost predicate Even(t: Tree, s: seq<Entry>, m: nat) {
    forall i :: 0 <= i < |s| ==> Light(t, s[i]) && CHILD_OVERHEAD + |s[i].key| + HASH_SIZE >= m
  }

  ghost predicate Wide(cs: seq<NodeDataChild>, m: nat) {
    forall i :: 0 <= i < |cs| ==> ChildSize(cs[i]) >= m
  }

  // ----- which nodes will stay large enough

  ghost predicate IsSmall(t: Tree, c: NodeDataChild) {
    Loadable(t, c) && Msgsize(ChildNode(t, c)) < t.SmallSize()
  }

  ghost function Smalls(t: Tree, cs: seq<NodeDataChild>): nat {
    if cs == [] then 0 else Smalls(t, cs[..|cs| - 1]) + if IsSmall(t, cs[|cs| - 1]) then 1 else 0
  }

  /** Slots take at least `m` bytes, so that even if each small node is merged into
      another one, those left make up a node that is not small. */
  ghost predicate Roomy(t: Tree, cs: seq<NodeDataChild>, m: nat) {
    Wide(cs, m) && NODE_HEADER + Room(|cs| - Smalls(t, cs), m) >= t.SmallSize()
  }

  ghost function Room(slots: int, m: nat): int {
    slots * m
  }

  /** So it is with every interior node in memory below a node `k` levels above the
      leaves. */
  ghost predicate DeepRoomy(t: Tree, cs: seq<NodeDataChild>, k: nat, m: nat)
    decreases k, 1
  {
    forall j :: 0 <= j < |cs| ==> RoomyBelow(t, cs[j], k, m)
  }

  ghost predicate RoomyBelow(t: Tree, c: NodeDataChild, k: nat, m: nat)
    decreases k, 0
  {
    k > 1 && c.childNode.Some? ==>
      Roomy(t, c.childNode.value.children, m) && DeepRoomy(t, c.childNode.value.children, k - 1, m)
  }

  ghost predicate RoomyFrom(t: Tree, cs: seq<NodeDataChild>, n: int, k: nat, m: nat) {
    forall j :: n <= j < |cs| && 0 <= j ==> RoomyBelow(t, cs[j], k, m)
  }

  /** So it is along a path, but for the root, and right of it. */
  ghost predicate RoomyPath(t: Tree, p: seq<Frame>, h: nat, m: nat)
    requires |p| <= h
  {
    forall i :: 0 <= i < |p| ==> RoomyFrame(t, p[i], i, h, m)
  }

  ghost predicate RoomyFrame(t: Tree, f: Frame, i: nat, h: nat, m: nat)
    requires i <= h
  {
    (i > 0 ==> Roomy(t, f.node.children, m)) && RoomyFrom(t, f.node.children, f.index + 1, h - i, m)
  }

  // ----- binary search in one node

  /** The first slot of a leaf whose key is not below `key`. */
  method SearchLeaf(cs: seq<NodeDataChild>, key: Key) returns (idx: nat)
    requires StructureOk(cs)
    ensures idx <= |cs|
    ensures forall i :: 0 <= i < idx ==> Less(cs[i].key, key)
    ensures forall i :: idx <= i < |cs| ==> !Less(cs[i].key, key)
  {
    var lo, hi := 0, |cs|;
    while lo < hi
      invariant 0 <= lo <= hi <= |cs|
      invariant forall i :: 0 <= i < lo ==> Less(cs[i].key, key)
      invariant forall i :: hi <= i < |cs| ==> !Less(cs[i].key, key)
    {
      var mid := (lo + hi) / 2;
      if !Less(cs[mid].key, key) {
        forall i | mid < i < |cs| ensures !Less(cs[i].key, key) {
          SlotsIncrease(cs, mid, i);
          if Less(cs[i].key, key) {
            LessTransitive(cs[mid].key, cs[i].key, key);
          }
        }
        hi := mid;
      } else {
        forall i | 0 <= i < mid ensures Less(cs[i].key, key) {
          SlotsIncrease(cs, i, mid);
          LessTransitive(cs[i].key, cs[mid].key, key);
        }
        lo := mid + 1;
      }
    }
    idx := lo;
  }

  /** The last slot of an interior node whose key is not above `key`, or slot 0. */
  method SearchInner(cs: seq<NodeDataChild>, key: Key) returns (idx: nat)
    requires StructureOk(cs) && cs != []
    ensures idx < |cs|
    ensures idx > 0 ==> !Less(key, cs[idx].key)
    ensures forall i :: idx < i < |cs| ==> Less(key, cs[i].key)
  {
    var lo, hi := 0, |cs|;
    while lo < hi
      invariant 0 <= lo <= hi <= |cs|
      invariant forall i :: 0 <= i < lo ==> !Less(key, cs[i].key)
      invariant forall i :: hi <= i < |cs| ==> Less(key, cs[i].key)
    {
      var mid := (lo + hi) / 2;
      if Less(key, cs[mid].key) {
        forall i | mid < i < |cs| ensures Less(key, cs[i].key) {
          SlotsIncrease(cs, mid, i);
          LessTransitive(key, cs[mid].key, cs[i].key);
        }
        hi := mid;
      } else {
        forall i | 0 <= i < mid ensures !Less(key, cs[i].key) {
          SlotsIncrease(cs, i, mid);
          if Less(key, cs[i].key) {
            LessTransitive(key, cs[i].key, cs[mid].key);
          }
        }
        lo := mid + 1;
      }
    }
    idx := if lo == 0 then 0 else lo - 1;
  }

  lemma {:induction false} SlotsIncrease(cs: seq<NodeDataChild>, i: nat, j: nat)
    requires StructureOk(cs) && i < j < |cs|
    ensures Less(cs[i].key, cs[j].key)
    decreases j - i
  {
    assert Less(cs[j - 1].key, cs[j].key);
    if i < j - 1 {
      SlotsIncrease(cs, i, j - 1);
      LessTransitive(cs[i].key, cs[j - 1].key, cs[j].key);
    }
  }

  ghost predicate AllBelow(s: seq<Entry>, key: Key) {
    forall i :: 0 <= i < |s| ==> Less(s[i].key, key)
  }

  ghost predicate AllAbove(s: seq<Entry>, key: Key) {
    forall i :: 0 <= i < |s| ==> Less(key, s[i].key)
  }

  ghost predicate NoneBelow(s: seq<Entry>, key: Key) {
    forall i :: 0 <= i < |s| ==> !Less(s[i].key, key)
  }

  /** Which side of `key` the slots beside the chosen one are on. */
  lemma SidesOf(t: Tree, cs: seq<NodeDataChild>, idx: nat, key: Key, h: nat)
    requires WfChildren(t, cs, h) && Sorted(Flat(t, cs, h)) && idx < |cs|
    requires idx > 0 ==> !Less(key, cs[idx].key)
    requires forall i :: idx < i < |cs| ==> Less(key, cs[i].key)
    ensures AllBelow(Flat(t, cs[..idx], h), key)
    ensures AllAbove(Flat(t, cs[idx + 1..], h), key)
  {
    var a, b := Flat(t, cs[..idx], h), Flat(t, cs[idx..], h);
    FlatCut(t, cs, idx, h);
    SortedParts(a, b);
    FlatFirst(t, cs[idx..], h);
    forall i | 0 <= i < |a| ensures Less(a[i].key, key) {
      assert idx > 0;
      assert Less(a[i].key, b[0].key);
      LessLeqTransitive(a[i].key, cs[idx].key, key);
    }
    if idx + 1 < |cs| {
      var c := Flat(t, cs[idx + 1..], h);
      FlatCut(t, cs, idx + 1, h);
      SortedParts(Flat(t, cs[..idx + 1], h), c);
      FlatFirst(t, cs[idx + 1..], h);
      assert Less(key, cs[idx + 1].key);
      forall i | 0 <= i < |c| ensures Less(key, c[i].key) {
        if i > 0 {
          assert Less(c[0].key, c[i].key);
          LessTransitive(key, c[0].key, c[i].key);
        }
      }
    }
  }

  /** One step of a search: the sides stay right as the path gets longer. */
  lemma SidesGrow(t: Tree, p: seq<Frame>, n: Node, idx: nat, key: Key, h: nat)
    requires WfPath(t, p, h) && |p| < h && WfNode(t, n, h - |p|)
    requires Sorted(Flat(t, n.children, h - |p|)) && idx < |n.children|
    requires AllBelow(Left(t, p, h), key) && AllAbove(Right(t, p, h), key)
    requires idx > 0 ==> !Less(key, n.children[idx].key)
    requires forall i :: idx < i < |n.children| ==> Less(key, n.children[i].key)
    ensures WfPath(t, p + [Frame(n, idx)], h)
    ensures AllBelow(Left(t, p + [Frame(n, idx)], h), key)
    ensures AllAbove(Right(t, p + [Frame(n, idx)], h), key)
  {
    SidesOf(t, n.children, idx, key, h - |p|);
    PathSnoc(t, p, Frame(n, idx), h);
    PathPrefix(t, p, Frame(n, idx), h);
  }

  class Stack {
    const tree: Tree

    // A Go array field is part of the struct and is copied with it.
    var nodes: seq<Option<Node>>
    var indexes: seq<int>
    var top: nat
    var maxtop: nat
    var smallCount: nat

    ghost predicate Shape()
      reads this
    {
      && tree.Valid()
      && |nodes| == |indexes| == MAXIMUM_TREE_DEPTH
      && top <= maxtop < MAXIMUM_TREE_DEPTH
      && forall i {:trigger nodes[i]} :: 0 <= i < MAXIMUM_TREE_DEPTH ==> (nodes[i].Some? <==> i <= maxtop)
    }

    function CurrentNode(): Node
      requires Shape()
      reads this
    {
      nodes[top].value
    }

    function Index(): int
      requires Shape()
      reads this
    {
      indexes[top]
    }

    ghost function PathHere(): seq<Frame>
      requires Shape()
      reads this
    {
      PathOf(nodes, indexes, top)
    }

    ghost function All(h: nat): seq<Entry>
      requires Shape() && WfPath(tree, PathHere(), h)
      reads this
    {
      Contents(tree, PathHere(), CurrentNode().children, h)
    }

    ghost predicate Linked(base: nat)
      requires Shape()
      reads this
    {
      LinkedFrom(tree, nodes, indexes, base, maxtop)
    }

    ghost predicate Editable(h: nat)
      reads this
    {
      && Shape()
      && maxtop <= h < MAXIMUM_TREE_DEPTH
      && WfPath(tree, PathHere(), h)
      && WfNode(tree, CurrentNode(), h - top)
    }

    /** The invariant while an edit is under way in a tree of height `h`. */
    ghost predicate Valid(h: nat)
      reads this
    {
      Editable(h) && Linked(top) && Sorted(All(h))
    }

    /** The invariant while no node differs from the tree rooted at `root`: every
        cached node is the child its parent's index says. */
    ghost predicate Browsing(root: Node, h: nat)
      reads this
    {
      && Shape()
      && maxtop <= h < MAXIMUM_TREE_DEPTH
      && nodes[0] == Some(root)
      && WfRoot(tree, root, h)
      && Linked(0)
    }

    /** The invariant between operations. */
    ghost predicate Ready(root: Node, h: nat)
      reads this
    {
      Browsing(root, h) && top == 0 && smallCount == 0
    }

    lemma BrowsingIsValid(root: Node, h: nat)
      requires Browsing(root, h)
      ensures Valid(h) && All(h) == Flat(tree, root.children, h)
    {
      Along(tree, nodes, indexes, root, h, top);
    }

    constructor (tree: Tree, root: Node, ghost h: nat)
      requires tree.Valid() && WfRoot(tree, root, h) && h < MAXIMUM_TREE_DEPTH
      ensures this.tree == tree && Ready(root, h) && Index() == 0
    {
      this.tree := tree;
      nodes := [Some(root)] + seq(MAXIMUM_TREE_DEPTH - 1, i => None);
      indexes := seq(MAXIMUM_TREE_DEPTH, i => 0);
      top, maxtop, smallCount := 0, 0, 0;
    }

    /** A cursor of its own in the same place: assignment copies the struct. */
    constructor Copy(st: Stack)
      ensures tree == st.tree && nodes == st.nodes && indexes == st.indexes
      ensures top == st.top && maxtop == st.maxtop && smallCount == st.smallCount
    {
      tree, nodes, indexes := st.tree, st.nodes, st.indexes;
      top, maxtop, smallCount := st.top, st.maxtop, st.smallCount;
    }

    // ----- moving about

    method InvalidateSubNodes()
      requires Shape()
      modifies this`nodes, this`maxtop
      ensures Shape() && maxtop == top
      ensures nodes == Cut(old(nodes), top)
    {
      var i := top + 1;
      while i <= maxtop
        invariant maxtop == old(maxtop) && top + 1 <= i <= maxtop + 1
        invariant |nodes| == MAXIMUM_TREE_DEPTH
        invariant forall j :: 0 <= j < MAXIMUM_TREE_DEPTH ==>
                    nodes[j] == if top < j < i then None else old(nodes)[j]
      {
        nodes := nodes[i := None];
        i := i + 1;
      }
      maxtop := top;
    }

    method SetIndex(idx: int)
      requires Shape()
      modifies this`nodes, this`indexes, this`maxtop
      ensures Shape()
      ensures indexes == old(indexes)[top := idx]
      ensures if idx == old(indexes)[top] then nodes == old(nodes) && maxtop == old(maxtop)
              else nodes == Cut(old(nodes), top) && maxtop == top
    {
      if idx == indexes[top] {
        return;
      }
      indexes := indexes[top := idx];
      InvalidateSubNodes();
    }

    /** The slot the cursor is at, if it is at one. */
    function Child(): (c: Option<NodeDataChild>)
      requires Shape()
      reads this
    {
      if 0 <= Index() < |CurrentNode().children| then Some(CurrentNode().children[Index()]) else None
    }

    /** The node in slot `idx`, from the cache when the cursor points there. */
    method ChildNodeAt(idx: int) returns (n: Option<Node>)
      requires Shape() && Linked(top)
      requires forall i {:trigger CurrentNode().children[i]} :: 0 <= i < |CurrentNode().children| ==>
                 Loadable(tree, CurrentNode().children[i])
      ensures n == if 0 <= idx < |CurrentNode().children|
                   then Some(ChildNode(tree, CurrentNode().children[idx])) else None
    {
      if idx < 0 || idx >= |CurrentNode().children| {
        return None;
      }
      if indexes[top] == idx && top + 1 < |nodes| && nodes[top + 1].Some? {
        assert LinkAt(tree, nodes, indexes, top);
        return nodes[top + 1];
      }
      n := Some(ChildNode(tree, CurrentNode().children[idx]));
    }

    method PopNode() returns (n: Node)
      requires Shape() && top > 0
      modifies this`top
      ensures Shape() && top == old(top) - 1
      ensures n == old(CurrentNode())
    {
      n := CurrentNode();
      top := top - 1;
    }

    method Push(index: nat, n: Node, ghost base: nat)
      requires Shape() && top + 1 < MAXIMUM_TREE_DEPTH
      requires base <= top && Linked(base)
      requires index < |CurrentNode().children| && Loadable(tree, CurrentNode().children[index])
      requires n == ChildNode(tree, CurrentNode().children[index])
      modifies this`nodes, this`indexes, this`top, this`maxtop
      ensures Shape() && top == old(top) + 1
      ensures maxtop == top || maxtop == old(maxtop)
      ensures CurrentNode() == n && Index() == 0
      ensures nodes[..top] == old(nodes)[..top]
      ensures indexes[..top] == old(indexes)[..top][old(top) := index]
      ensures PathHere() == old(PathHere()) + [Frame(old(CurrentNode()), index)]
      ensures Linked(base)
    {
      hide LinkAt, ChildNode, Loadable;
      RepointLinks(tree, nodes, indexes, base, top, maxtop, index);
      SetIndex(index);
      CacheLinks(tree, nodes, indexes, base, top, maxtop, n);
      top := top + 1;
      if maxtop < top {
        maxtop := top;
      }
      nodes := nodes[top := Some(n)];
      RepointLinks(tree, nodes, indexes, base, top, maxtop, 0);
      SetIndex(0);
    }

    /** Moves within the node at the cursor, leaving the tree as it is. */
    method GoTo(idx: int, ghost root: Node, ghost h: nat)
      requires Browsing(root, h)
      modifies this`nodes, this`indexes, this`maxtop
      ensures Browsing(root, h) && Index() == idx
      ensures CurrentNode() == old(CurrentNode()) && PathHere() == old(PathHere())
    {
      RepointLinks(tree, nodes, indexes, 0, top, maxtop, idx);
      SetIndex(idx);
    }

    /** Goes down into slot `idx`, leaving the tree as it is. */
    method PushIndex(idx: nat, ghost root: Node, ghost h: nat)
      requires Browsing(root, h) && idx < |CurrentNode().children| && top < h
      modifies this`nodes, this`indexes, this`top, this`maxtop
      ensures Browsing(root, h) && top == old(top) + 1 && Index() == 0
      ensures PathHere() == old(PathHere()) + [Frame(old(CurrentNode()), idx)]
      ensures CurrentNode().children != []
      ensures Loadable(tree, old(CurrentNode()).children[idx]) && CurrentNode() == ChildNode(tree, old(CurrentNode()).children[idx])
    {
      BrowsingIsValid(root, h);
      SlotsAtCursor(h);
      var n := ChildNodeAt(idx);
      assert WfChild(tree, CurrentNode().children[idx], h - top);
      Push(idx, n.value, 0);
    }

    /** Goes to where `key` is or belongs: everything left of the cursor is below
        `key`, and nothing from the cursor on is.  At every level the way is the one
        that an edit of `key` takes. */
    method Search(key: Key, ghost root: Node, ghost h: nat)
      requires Browsing(root, h)
      modifies this`nodes, this`indexes, this`top, this`maxtop
      ensures Browsing(root, h) && Valid(h) && top == h
      ensures 0 <= Index() <= |CurrentNode().children|
      ensures AllBelow(Left(tree, PathHere(), h), key) && AllAbove(Right(tree, PathHere(), h), key)
      ensures forall i :: 0 <= i < Index() ==> Less(CurrentNode().children[i].key, key)
      ensures forall i :: Index() <= i < |CurrentNode().children| ==> !Less(CurrentNode().children[i].key, key)
      ensures Aimed(tree, PathHere(), CurrentNode(), key) && NodeAt(PathHere(), CurrentNode(), 0) == root
      ensures Index() == Below(CurrentNode().children, key)
    {
      hide WfChild, WfChildren, Flat, Left, Right, Less, Aimed, Toward, Below, NodeAt;
      top := 0;
      BrowsingIsValid(root, h);
      AimedStart(tree, root, key);
      assert PathHere() == [];
      while !CurrentNode().leafy
        invariant Browsing(root, h) && Valid(h)
        invariant Aimed(tree, PathHere(), CurrentNode(), key) && NodeAt(PathHere(), CurrentNode(), 0) == root
        invariant top < h ==> CurrentNode().children != []
        invariant AllBelow(Left(tree, PathHere(), h), key) && AllAbove(Right(tree, PathHere(), h), key)
        decreases h - top
      {
        SlotsAtCursor(h);
        var idx := SearchInner(CurrentNode().children, key);
        SidesGrow(tree, PathHere(), CurrentNode(), idx, key, h);
        TowardIs(CurrentNode().children, key, idx);
        AimedSnoc(tree, PathHere(), CurrentNode(), key, idx);
        PushIndex(idx, root, h);
        BrowsingIsValid(root, h);
      }
      SlotsAtCursor(h);
      var idx := SearchLeaf(CurrentNode().children, key);
      BelowIs(CurrentNode().children, key, idx);
      GoTo(idx, root, h);
      BrowsingIsValid(root, h);
    }

    /** The slots of the node at the cursor pass the structure check and, above
        the leaves, all lead to nodes. */
    lemma SlotsAtCursor(h: nat)
      requires Valid(h)
      ensures WfChildren(tree, CurrentNode().children, h - top)
      ensures Sorted(Flat(tree, CurrentNode().children, h - top))
      ensures StructureOk(CurrentNode().children)
      ensures top < h ==> forall i {:trigger CurrentNode().children[i]} :: 0 <= i < |CurrentNode().children| ==>
                 Loadable(tree, CurrentNode().children[i])
    {
      var cs, k := CurrentNode().children, h - top;
      SortedParts(Left(tree, PathHere(), h) + Flat(tree, cs, k), Right(tree, PathHere(), h));
      SortedParts(Left(tree, PathHere(), h), Flat(tree, cs, k));
      SortedSlots(tree, cs, k);
      if top < h {
        forall i | 0 <= i < |cs| ensures Loadable(tree, cs[i]) {
          assert WfChild(tree, cs[i], k);
        }
      }
    }

    /** What holds for all entries holds for those below the node at the cursor. */
    lemma EvenHere(h: nat, m: nat)
      requires Valid(h)
      ensures Even(tree, All(h), m) ==> Even(tree, Flat(tree, CurrentNode().children, h - top), m)
    {
      hide Flat, Left, Right, Light, Sorted;
      EvenPart(tree, Left(tree, PathHere(), h), Flat(tree, CurrentNode().children, h - top), Right(tree, PathHere(), h), m);
    }

    /** The entries left of the cursor. */
    ghost function Before(h: nat): seq<Entry>
      requires Valid(h) && 0 <= Index() <= |CurrentNode().children|
      reads this
    {
      BeforeAt(tree, PathHere(), CurrentNode().children, Index(), h)
    }

    /** The entries from the cursor on. */
    ghost function From(h: nat): seq<Entry>
      requires Valid(h) && 0 <= Index() <= |CurrentNode().children|
      reads this
    {
      FromAt(tree, PathHere(), CurrentNode().children, Index(), h)
    }

    /** The entries up to the cursor and at it. */
    ghost function UpTo(h: nat): seq<Entry>
      requires Valid(h) && -1 <= Index() <= |CurrentNode().children|
      reads this
    {
      BeforeAt(tree, PathHere(), CurrentNode().children,
               if Index() < |CurrentNode().children| then Index() + 1 else Index(), h)
    }

    /** Leaves the node at the cursor, on either side of it. */
    method LeaveNode(ghost root: Node, ghost h: nat)
      requires Browsing(root, h) && top > 0 && Valid(h)
      modifies this`top
      ensures Browsing(root, h) && Valid(h) && top == old(top) - 1
      ensures 0 <= Index() < |CurrentNode().children|
      ensures Before(h) == old(BeforeAt(tree, PathHere(), CurrentNode().children, 0, h))
      ensures UpTo(h) == old(BeforeAt(tree, PathHere(), CurrentNode().children, |CurrentNode().children|, h))
    {
      ghost var p, f := PathHere()[..top - 1], PathHere()[top - 1];
      assert PathHere() == p + [f];
      EndsInParent(tree, p, f, h);
      assert LinkAt(tree, nodes, indexes, top - 1);
      var _ := PopNode();
      assert PathHere() == p;
      BrowsingIsValid(root, h);
    }

    /** Goes down into slot `idx`, keeping what is on either side in view. */
    method EnterNode(idx: nat, ghost root: Node, ghost h: nat)
      requires Browsing(root, h) && Valid(h) && idx < |CurrentNode().children| && top < h
      modifies this`nodes, this`indexes, this`top, this`maxtop
      ensures Browsing(root, h) && Valid(h) && top == old(top) + 1 && Index() == 0
      ensures CurrentNode().children != []
      ensures Before(h) == old(BeforeAt(tree, PathHere(), CurrentNode().children, idx, h))
      ensures BeforeAt(tree, PathHere(), CurrentNode().children, |CurrentNode().children|, h)
           == old(BeforeAt(tree, PathHere(), CurrentNode().children, idx + 1, h))
    {
      ghost var p, f := PathHere(), Frame(CurrentNode(), idx);
      PathSnoc(tree, p, f, h);
      EndsInParent(tree, p, f, h);
      PushIndex(idx, root, h);
      assert LinkAt(tree, nodes, indexes, top - 1);
      BrowsingIsValid(root, h);
    }

    /** Drops the cached nodes below the cursor. */
    method Forget(ghost root: Node, ghost h: nat)
      requires Browsing(root, h) && Valid(h)
      modifies this`nodes, this`maxtop
      ensures Browsing(root, h) && Valid(h)
      ensures CurrentNode() == old(CurrentNode()) && PathHere() == old(PathHere())
    {
      RepointLinks(tree, nodes, indexes, 0, top, maxtop, Index());
      assert indexes[top := Index()] == indexes;
      InvalidateSubNodes();
      BrowsingIsValid(root, h);
    }

    /** Goes to the entry after the cursor, or beyond the last one. */
    method GoNextLeaf(ghost root: Node, ghost h: nat) returns (moved: bool)
      requires Browsing(root, h) && Valid(h) && top == h && 0 <= Index() <= |CurrentNode().children|
      modifies this`nodes, this`indexes, this`top, this`maxtop
      ensures Browsing(root, h) && Valid(h) && 0 <= Index() <= |CurrentNode().children|
      ensures Before(h) == old(UpTo(h))
      ensures (top == h && Child().Some?) || (top == 0 && Index() == |CurrentNode().children|)
      ensures moved <==> h > 0 || old(Index() < |CurrentNode().children|)
    {
      hide WfChild, Flat, Left, Right;
      while true
        invariant Browsing(root, h) && Valid(h) && 0 <= Index() <= |CurrentNode().children|
        invariant UpTo(h) == old(UpTo(h))
        invariant if top < h then Index() < |CurrentNode().children|
                  else Index() == old(Index()) && CurrentNode() == old(CurrentNode())
        decreases top
      {
        var idx := Index() + 1;
        if idx < |CurrentNode().children| {
          if !CurrentNode().leafy {
            EnterNode(idx, root, h);
            while !CurrentNode().leafy
              invariant Browsing(root, h) && Valid(h) && Index() == 0 && CurrentNode().children != []
              invariant Before(h) == old(UpTo(h))
              decreases h - top
            {
              EnterNode(0, root, h);
            }
          } else {
            GoTo(idx, root, h);
            BrowsingIsValid(root, h);
          }
          Forget(root, h);
          return true;
        }
        if top == 0 {
          var lidx := |CurrentNode().children|;
          moved := indexes[top] != lidx;
          GoTo(lidx, root, h);
          BrowsingIsValid(root, h);
          return;
        }
        LeaveNode(root, h);
      }
    }

    /** Goes to the entry before the cursor, or before the first one. */
    method GoPreviousLeaf(ghost root: Node, ghost h: nat) returns (moved: bool)
      requires Browsing(root, h) && Valid(h) && top == h && 0 <= Index() <= |CurrentNode().children|
      modifies this`nodes, this`indexes, this`top, this`maxtop
      ensures Browsing(root, h) && Valid(h) && -1 <= Index() < |CurrentNode().children|
      ensures UpTo(h) == old(Before(h))
      ensures (top == h && Child().Some?) || (top == 0 && Index() == -1)
      ensures moved
    {
      hide WfChild, Flat, Left, Right;
      while true
        invariant Browsing(root, h) && Valid(h) && 0 <= Index() <= |CurrentNode().children|
        invariant Before(h) == old(Before(h))
        decreases top
      {
        var idx := Index() - 1;
        if idx >= 0 {
          while !CurrentNode().leafy
            invariant Browsing(root, h) && Valid(h) && 0 <= idx < |CurrentNode().children|
            invariant BeforeAt(tree, PathHere(), CurrentNode().children, idx + 1, h) == old(Before(h))
            decreases h - top
          {
            EnterNode(idx, root, h);
            idx := |CurrentNode().children| - 1;
          }
          GoTo(idx, root, h);
          BrowsingIsValid(root, h);
          return true;
        }
        if top == 0 {
          GoTo(-1, root, h);
          BrowsingIsValid(root, h);
          return true;
        }
        LeaveNode(root, h);
      }
    }

    // ----- editing the node at the cursor

    /** Whether `cs` may become the slots of the node at the cursor. */
    ghost predicate Acceptable(cs: seq<NodeDataChild>, h: nat)
      requires Editable(h)
      reads this
    {
      WfChildren(tree, cs, h - top) && Sorted(Contents(tree, PathHere(), cs, h))
    }

    method RewriteNodeChildren(cs: seq<NodeDataChild>, ghost h: nat)
      requires Editable(h) && Acceptable(cs, h)
      modifies this`nodes, this`maxtop, this`smallCount
      ensures Valid(h) && maxtop == top
      ensures nodes == Cut(old(nodes)[top := Some(Node(old(CurrentNode()).leafy, cs, None))], top)
      ensures PathHere() == old(PathHere())
      ensures smallCount == old(smallCount) +
                (if CurrentNode().leafy && Msgsize(CurrentNode()) <= tree.SmallSize() then 1 else 0)
    {
      var n := CurrentNode().(blockId := None, children := cs);
      nodes := nodes[top := Some(n)];
      InvalidateSubNodes();
      assert PathHere() == old(PathHere());
      if n.leafy && Msgsize(n) <= tree.SmallSize() {
        smallCount := smallCount + 1;
      }
      SlotsAtCursor(h);
      assert StructureOk(n.children);
    }

    /** Inserts, replaces or removes the slot at the cursor. */
    method RewriteAtIndex(replace: bool, child: Option<NodeDataChild>, ghost h: nat)
      requires Editable(h) && (replace || child.Some?)
      requires 0 <= Index() <= |CurrentNode().children| - (if replace then 1 else 0)
      requires Acceptable(Spliced(CurrentNode().children, Index(), replace, child), h)
      modifies this`nodes, this`maxtop, this`smallCount
      ensures Valid(h) && maxtop == top
      ensures CurrentNode() == Node(old(CurrentNode()).leafy,
                                    Spliced(old(CurrentNode()).children, Index(), replace, child), None)
      ensures PathHere() == old(PathHere())
      ensures smallCount == old(smallCount) +
                (if CurrentNode().leafy && Msgsize(CurrentNode()) <= tree.SmallSize() then 1 else 0)
    {
      var cs, idx := CurrentNode().children, Index();
      var oidx := if replace then idx + 1 else idx;
      var c := cs[..idx];
      if child.Some? {
        c := c + [child.value];
      }
      c := c + cs[oidx..];
      assert c == Spliced(cs, idx, replace, child);
      RewriteNodeChildren(c, h);
    }

    /** Puts the node at the cursor back into its parent; a node that has become
        empty loses its slot. */
    method Pop(ghost h: nat)
      requires Editable(h) && Sorted(All(h)) && top > 0
      modifies this`nodes, this`top, this`maxtop, this`smallCount
      ensures Valid(h) && maxtop == top == old(top) - 1
      ensures PathHere() == old(PathHere())[..top]
      ensures CurrentNode() == Node(false, Plugged(old(PathHere())[top], old(CurrentNode())), None)
      ensures All(h) == old(All(h))
      ensures smallCount == old(smallCount)
    {
      hide WfChild, WfChildren, Flat, Left, Right, ChildrenSize, Sorted;
      ghost var p, f := PathHere()[..top - 1], PathHere()[top - 1];
      assert PathHere() == p + [f];
      Ascend(tree, p, f, CurrentNode(), h);
      var n := PopNode();
      assert PathHere() == p;
      assert WfNode(tree, f.node, h - top);
      if |n.children| > 0 {
        var c := NodeDataChild(n.children[0].key, Placeholder(), Some(n));
        assert Spliced(f.node.children, f.index, true, Some(c)) == Plugged(f, n);
        RewriteAtIndex(true, Some(c), h);
      } else {
        assert Spliced(f.node.children, f.index, true, None) == Plugged(f, n);
        RewriteAtIndex(true, None, h);
      }
    }

    /** Leaves the first half of the slots in a node that is too big, and gives
        the slot for a new node with the second half. */
    method SplitNode(ghost h: nat) returns (nextchild: NodeDataChild, ghost a: seq<NodeDataChild>, ghost b: seq<NodeDataChild>)
      requires Valid(h) && Msgsize(CurrentNode()) > tree.nodeMaximumSize
      modifies this`nodes, this`maxtop, this`smallCount
      ensures a != [] && b != [] && a + b == old(CurrentNode()).children && |a| == |a + b| / 2
      ensures nextchild == Slot(b, Node(old(CurrentNode()).leafy, b, None))
      ensures Valid(h) && maxtop == top && PathHere() == old(PathHere())
      ensures CurrentNode() == Node(old(CurrentNode()).leafy, a, None)
      ensures WfChildren(tree, a, h - top) && WfChildren(tree, b, h - top)
      ensures smallCount == old(smallCount) +
                (if CurrentNode().leafy && Msgsize(CurrentNode()) <= tree.SmallSize() then 1 else 0)
    {
      hide WfChild, Flat, Left, Right, ChildrenSize;
      var node := CurrentNode();
      SlotsAtCursor(h);
      TooBigHasTwo(tree, node.children, h - top);
      var i := |node.children| / 2;
      var nodec, nextc := node.children[..i], node.children[i..];
      assert node.children == nodec + nextc;
      WfPieces(tree, nodec, nextc, h - top);
      KeepSlots(tree, PathHere(), node.children, 0, i, h);
      RewriteNodeChildren(nodec, h);
      nextchild := NodeDataChild(nextc[0].key, Placeholder(), Some(Node(node.leafy, nextc, None)));
      a, b := nodec, nextc;
    }

    /** Makes a new root over the two halves of the old one. */
    method GrowRoot(nextchild: NodeDataChild, ghost b: seq<NodeDataChild>, ghost h: nat)
      requires Valid(h) && top == 0 && h + 1 < MAXIMUM_TREE_DEPTH
      requires CurrentNode().children != [] && b != [] && WfChildren(tree, b, h)
      requires nextchild == Slot(b, Node(CurrentNode().leafy, b, None))
      requires Sorted(Flat(tree, CurrentNode().children + b, h))
      modifies this`nodes, this`maxtop
      ensures Valid(h + 1) && top == 0
      ensures All(h + 1) == Flat(tree, old(CurrentNode()).children + b, h)
      ensures Msgsize(CurrentNode()) <= tree.nodeMaximumSize && PathHere() == []
      ensures CurrentNode() == Whole(Two(old(CurrentNode()), Node(old(CurrentNode()).leafy, b, None)))
    {
      hide WfChild, WfChildren, Flat, Left, Right, Less, Sorted, CountNodes;
      var node := CurrentNode();
      var mechild := NodeDataChild(node.children[0].key, Placeholder(), Some(node));
      PairSlots(tree, node, nextchild.childNode.value, h);
      AtRoot(tree, [mechild, nextchild], h + 1);
      TwoFit(tree, [mechild, nextchild], h + 1);
      nodes := nodes[0 := Some(Node(false, [mechild, nextchild], None))];
      InvalidateSubNodes();
      assert PathHere() == [];
    }

    /** Puts the first half `a` of a split node back and goes to the place next to
        it, where the second half `b` belongs. */
    method GoBeside(ghost a: seq<NodeDataChild>, ghost b: seq<NodeDataChild>, ghost h: nat)
      requires Valid(h) && top > 0 && a != [] && b != []
      requires CurrentNode() == Node(CurrentNode().leafy, a, None)
      requires WfChildren(tree, a, h - top) && WfChildren(tree, b, h - top)
      requires Sorted(Contents(tree, PathHere(), a + b, h))
      modifies this
      ensures Editable(h) && top == old(top) - 1
      ensures 0 <= Index() <= |CurrentNode().children|
      ensures var next := Some(Slot(b, Node(old(CurrentNode()).leafy, b, None)));
              && Acceptable(Spliced(CurrentNode().children, Index(), false, next), h)
              && Contents(tree, PathHere(), Spliced(CurrentNode().children, Index(), false, next), h)
                 == old(Contents(tree, PathHere(), a + b, h))
              && Up(tree, PathHere(), Halved(tree, Node(CurrentNode().leafy,
                                                        Spliced(CurrentNode().children, Index(), false, next), None)))
                 == old(Up(tree, PathHere(), Two(CurrentNode(), Node(CurrentNode().leafy, b, None))))
      ensures smallCount == old(smallCount) && !CurrentNode().leafy
    {
      hide WfChild, WfChildren, Flat, Left, Right, ChildrenSize, Less, Sorted, Spliced, Halved, Up;
      ghost var p := PathHere();
      ghost var q, f := p[..top - 1], p[top - 1];
      assert p == q + [f];
      WfJoined(tree, a, b, h - top);
      AfterSplit(tree, q, f, CurrentNode().leafy, a, b, h);
      UpBeside(tree, q, f, CurrentNode(), Node(CurrentNode().leafy, b, None));
      Pop(h);
      SetIndex(indexes[top] + 1);
      assert PathHere() == q;
    }

    /** Inserts a slot at the cursor, splitting nodes that get too big all the
        way up, and growing a new root when the old one splits. */
    method AddChildAt(child: NodeDataChild, ghost h: nat) returns (ghost h': nat)
      requires Editable(h) && h + 1 < MAXIMUM_TREE_DEPTH
      requires 0 <= Index() <= |CurrentNode().children|
      requires Acceptable(Spliced(CurrentNode().children, Index(), false, Some(child)), h)
      modifies this
      ensures Valid(h') && (h' == h || h' == h + 1)
      ensures All(h') == old(Contents(tree, PathHere(), Spliced(CurrentNode().children, Index(), false, Some(child)), h))
      ensures Msgsize(CurrentNode()) <= tree.nodeMaximumSize && (h' > h ==> top == 0)
      ensures var n := Node(old(CurrentNode()).leafy, Spliced(old(CurrentNode()).children, old(Index()), false, Some(child)), None);
              var x := Up(tree, old(PathHere()), Halved(tree, n));
              && Whole(Up(tree, PathHere(), One(CurrentNode()))) == Whole(x) && h' == (if x.Two? then h + 1 else h)
              && smallCount == old(smallCount) +
                   (if n.leafy && Msgsize(First(Halved(tree, n))) <= tree.SmallSize() then 1 else 0)
      decreases top
    {
      hide WfChild, WfChildren, Flat, Left, Right, ChildrenSize, Less, Up, Spliced;
      RewriteAtIndex(false, Some(child), h);
      h' := h;
      if Msgsize(CurrentNode()) <= tree.nodeMaximumSize {
        UpOne(tree, PathHere(), CurrentNode());
        return;
      }
      ghost var p, n := PathHere(), CurrentNode();
      var nextchild, a, b := SplitNode(h);
      HalvedIs(tree, n, a, b);
      if top > 0 {
        GoBeside(a, b, h);
        h' := AddChildAt(nextchild, h);
        return;
      }
      assert p == [];
      AtRoot(tree, a + b, h);
      GrowRoot(nextchild, b, h);
      UpNone(tree, One(CurrentNode()));
      UpNone(tree, Halved(tree, n));
      h' := h + 1;
    }

    // ----- keeping nodes from staying small

    /** Gives the node in slot `idx` the slots `cs`. */
    method EditChild(idx: nat, n: Node, cs: seq<NodeDataChild>, ghost h: nat)
      requires Valid(h) && top < h && idx < |CurrentNode().children|
      requires Loadable(tree, CurrentNode().children[idx]) && n == ChildNode(tree, CurrentNode().children[idx])
      requires cs != [] && WfChildren(tree, cs, h - top - 1)
      requires Acceptable(CurrentNode().children[idx := Slot(cs, Node(n.leafy, cs, None))], h)
      modifies this
      ensures Valid(h) && maxtop == top == old(top) && PathHere() == old(PathHere()) && Index() == idx
      ensures CurrentNode() == Node(false, old(CurrentNode()).children[idx := Slot(cs, Node(n.leafy, cs, None))], None)
    {
      hide WfChild, Flat, Left, Right;
      ghost var p := PathHere();
      SlotChange(tree, p, CurrentNode(), idx, cs, h);
      Descend(tree, p, Frame(CurrentNode(), idx), h);
      Push(idx, n, top);
      RewriteNodeChildren(cs, h);
      Pop(h);
      assert PathHere() == p;
    }

    /** The node at the cursor has its child in memory, with `sib` next to it. */
    ghost predicate BesideChild(ofs: int, sib: Node)
      requires Shape()
      reads this
    {
      && (ofs == -1 || ofs == 1)
      && Child().Some? && Child().value.childNode.Some?
      && 0 <= Index() + ofs < |CurrentNode().children|
      && Loadable(tree, CurrentNode().children[Index() + ofs])
      && sib == ChildNode(tree, CurrentNode().children[Index() + ofs])
    }

    /** Takes the slot nearest to the child out of the sibling. */
    method Lend(ofs: int, sib: Node, ghost h: nat)
      requires Valid(h) && top < h && BesideChild(ofs, sib) && |sib.children| >= 2
      modifies this
      ensures Valid(h) && maxtop == top == old(top) && PathHere() == old(PathHere())
      ensures CurrentNode() == Node(false,
                old(CurrentNode()).children[old(Index()) + ofs := NewSlot(sib.leafy, Lent(ofs, sib))], None)
    {
      hide WfChild, WfChildren, Flat, Left, Right, CountNodes, Less;
      ghost var i := if ofs == -1 then Index() - 1 else Index();
      PairFlat(tree, CurrentNode().children, i, h - top);
      LendOne(tree, PathHere(), CurrentNode(), i, ofs, h);
      EditChild(Index() + ofs, sib, Lent(ofs, sib), h);
    }

    /** Moves one slot from the sibling into the child at the cursor. */
    method MoveFrom(ofs: int, sib: Node, ghost h: nat)
      requires Valid(h) && top < h && BesideChild(ofs, sib) && |sib.children| >= 2
      modifies this
      ensures Valid(h) && PathHere() == old(PathHere()) && Index() == old(Index())
      ensures CurrentNode() == Node(false,
                PairPut(old(CurrentNode()).children, if ofs == -1 then Index() - 1 else Index(),
                        Borrowed(ofs, old(Child()).value.childNode.value, sib)), None)
      ensures All(h) == old(All(h))
    {
      hide WfChild, WfChildren, Flat, Left, Right, CountNodes, Less, PairPut, Borrowed, Lent, ChildrenSize, Sorted, WfPath,
        Contents, LinkedFrom;
      var node := Child().value.childNode.value;
      var oi := Index();
      ghost var p, n0 := PathHere(), CurrentNode();
      ghost var i := if ofs == -1 then oi - 1 else oi;
      PairFlat(tree, n0.children, i, h - top);
      BorrowOne(tree, p, n0, i, ofs, h);
      TwoUpdates(n0.children, i, ofs, node, sib);
      Lend(ofs, sib, h);
      EditChild(oi, node, Taken(ofs, node, sib), h);
    }

    /** Drops the slot of the child at the cursor, whose slots the sibling, now in slot
        `si`, can be given. */
    method DropChild(ofs: int, sib: Node, ghost h: nat) returns (si: nat, ncl: seq<NodeDataChild>)
      requires Valid(h) && top < h && BesideChild(ofs, sib) && sib.children != []
      modifies this
      ensures Valid(h) && PathHere() == old(PathHere()) && top == old(top)
      ensures si == (if ofs == -1 then old(Index()) - 1 else old(Index())) && si < |CurrentNode().children|
      ensures Loadable(tree, CurrentNode().children[si]) && sib == ChildNode(tree, CurrentNode().children[si])
      ensures ncl == Merged(ofs, old(Child()).value.childNode.value, sib) && WfChildren(tree, ncl, h - top - 1)
      ensures CurrentNode().children[si := NewSlot(sib.leafy, ncl)]
              == PairPut(old(CurrentNode()).children, si, [NewSlot(sib.leafy, ncl)])
      ensures Acceptable(CurrentNode().children[si := NewSlot(sib.leafy, ncl)], h)
      ensures Contents(tree, PathHere(), CurrentNode().children[si := NewSlot(sib.leafy, ncl)], h) == old(All(h))
    {
      hide WfChild, WfChildren, Flat, Left, Right, CountNodes, Less, Sorted, WfPath, Contents, LinkedFrom, ChildrenSize,
        Spliced, PairPut, NewSlot, Merged;
      var oi := Index();
      var mycl := Child().value.childNode.value.children;
      MergeReady(tree, PathHere(), CurrentNode(), oi, ofs, sib, h);
      si := if ofs > 0 then ofs + oi - 1 else ofs + oi;
      ncl := if ofs == -1 then sib.children + mycl else mycl + sib.children;
      RewriteAtIndex(true, None, h);
    }

    /** Moves all slots of the child at the cursor into the sibling. */
    method MergeTo(ofs: int, sib: Node, ghost h: nat)
      requires Valid(h) && top < h && BesideChild(ofs, sib) && sib.children != []
      modifies this
      ensures Valid(h) && PathHere() == old(PathHere())
      ensures Index() == if ofs == -1 then old(Index()) - 1 else old(Index())
      ensures CurrentNode() == Node(false,
                PairPut(old(CurrentNode()).children, Index(),
                        [NewSlot(sib.leafy, Merged(ofs, old(Child()).value.childNode.value, sib))]), None)
      ensures All(h) == old(All(h))
    {
      hide WfChild, WfChildren, Flat, Left, Right, CountNodes, Less, Sorted, WfPath, Contents, LinkedFrom, ChildrenSize,
        PairPut, Merged;
      var si, ncl := DropChild(ofs, sib, h);
      EditChild(si, sib, ncl, h);
    }

    // ----- the leaf-first walk over the nodes in memory

    /** The cursor is at a slot of an interior node. */
    ghost predicate AtChild(h: nat)
      reads this
    {
      Valid(h) && top < h && 0 <= Index() < |CurrentNode().children|
    }

    /** The nodes of the whole tree. */
    ghost function Total(h: nat): nat
      requires Valid(h)
      reads this
    {
      PathNodes(tree, PathHere(), h) + CountNodes(tree, CurrentNode().children, h - top)
    }

    /** The nodes the walk has yet to come to. */
    ghost function Ahead(h: nat): nat
      requires AtChild(h)
      reads this
    {
      PathAhead(tree, PathHere(), h) + CountNodes(tree, CurrentNode().children[Index() + 1..], h - top)
    }

    /** The bytes the child at the cursor is short of `SmallSize`. */
    ghost function Missing(): nat
      requires Shape()
      reads this
    {
      if Child().Some? && Child().value.childNode.Some?
         && Msgsize(Child().value.childNode.value) < tree.SmallSize()
      then tree.SmallSize() - Msgsize(Child().value.childNode.value) else 0
    }

    /** What the walk has left behind right below the root is large enough. */
    ghost predicate FineBefore()
      requires Shape()
      reads this
    {
      FineUpTo(tree, nodes[0].value.children, indexes[0])
    }

    /** So it is everywhere the walk has been. */
    ghost predicate Walked(h: nat)
      requires AtChild(h)
      reads this
    {
      && WalkedPath(tree, PathHere(), h)
      && SettledUpTo(tree, CurrentNode().children, Index(), h - top)
      && Settled(tree, Child().value, h - top)
    }

    /** So it is on the way to the cursor, and right of it. */
    ghost predicate Spacious(h: nat, m: nat)
      requires AtChild(h)
      reads this
    {
      && Even(tree, All(h), m) && RoomyPath(tree, PathHere(), h, m)
      && RoomyFrame(tree, Frame(CurrentNode(), Index()), top, h, m)
      && (h - top > 1 && Child().value.childNode.Some? ==> Roomy(tree, Child().value.childNode.value.children, m))
    }

    /** Goes into the child in slot `i` during the walk. */
    method WalkInto(i: nat, ghost h: nat)
      requires AtChild(h) && h - top > 1 && i < |CurrentNode().children|
      modifies this`nodes, this`indexes, this`top, this`maxtop
      ensures AtChild(h) && Index() == 0 && top == old(top) + 1
      ensures All(h) == old(All(h)) && Total(h) == old(Total(h))
      ensures PathAhead(tree, PathHere(), h) + CountNodes(tree, CurrentNode().children, h - top)
           == old(PathAhead(tree, PathHere(), h) + CountNodes(tree, CurrentNode().children[i..], h - top))
      ensures nodes[0] == old(nodes)[0] && indexes[0] == if old(top) == 0 then i else old(indexes)[0]
      ensures PathHere() == old(PathHere()) + [Frame(old(CurrentNode()), i)]
      ensures Loadable(tree, old(CurrentNode()).children[i]) && CurrentNode() == ChildNode(tree, old(CurrentNode()).children[i])
    {
      hide WfChild, Flat, Left, Right, PathNodes, PathAhead, CountNodes;
      ghost var p, f := PathHere(), Frame(CurrentNode(), i);
      PathSnoc(tree, p, f, h);
      Descend(tree, p, f, h);
      DescendCount(tree, p, f, h);
      SlotsAtCursor(h);
      var n := ChildNodeAt(i);
      ChildHasSlots(tree, CurrentNode().children, i, h - top);
      Push(i, n.value, top);
    }

    /** Goes down along the leftmost interior nodes that are in memory. */
    method GoDownLeft(ghost h: nat, ghost m: nat)
      requires AtChild(h) && Index() == 0
      modifies this`nodes, this`indexes, this`top, this`maxtop
      ensures AtChild(h)
      ensures All(h) == old(All(h)) && Total(h) == old(Total(h))
      ensures Ahead(h) < old(PathAhead(tree, PathHere(), h) + CountNodes(tree, CurrentNode().children, h - top))
      ensures nodes[0] == old(nodes)[0] && (old(top) > 0 ==> indexes[0] == old(indexes)[0])
      ensures old(FineBefore()) ==> FineBefore()
      ensures old(WalkedPath(tree, PathHere(), h)) ==> Walked(h)
      ensures old(Even(tree, All(h), m)) ==>
                old(RoomyPath(tree, PathHere(), h, m) && RoomyFrame(tree, Frame(CurrentNode(), -1), top, h, m)) ==> Spacious(h, m)
      decreases h - top
    {
      hide WfChild, Flat, Left, Right, PathNodes, PathAhead, CountNodes, WalkedPath, RoomyPath, RoomyFrame, SettledUpTo,
        Settled, Roomy;
      var n := CurrentNode();
      for i := 0 to |n.children|
        invariant forall j :: 0 <= j < i ==> n.children[j].childNode.Some? ==> n.children[j].childNode.value.leafy
      {
        var cn := n.children[i].childNode;
        if cn.Some? && !cn.value.leafy {
          ChildHasSlots(tree, n.children, i, h - top);
          NotInMemory(tree, n.children, i, h - top);
          WalkedMore(tree, PathHere(), Frame(n, i), h);
          RoomyMore(tree, PathHere(), n, -1, i, h, m);
          WalkInto(i, h);
          CountCut(tree, n.children, i, h - top + 1);
          GoDownLeft(h, m);
          return;
        }
      }
      ChildHasSlots(tree, n.children, 0, h - top);
      CountSplit(tree, n.children, 0, h - top);
      assert n.children[..0] == [];
      WalkedLeaf(tree, n.children, 0, h - top);
      RoomyHere(tree, n, -1, 0, top, h, m);
    }

    /** Goes on to the node in slot `i`, which is in memory. */
    method WalkTo(i: nat, ghost h: nat, ghost m: nat)
      requires AtChild(h) && Index() < i < |CurrentNode().children| && CurrentNode().children[i].childNode.Some?
      modifies this
      ensures AtChild(h) && All(h) == old(All(h)) && Total(h) == old(Total(h)) && Ahead(h) < old(Ahead(h))
      ensures nodes[0] == old(nodes)[0]
      ensures indexes[0] == if old(top) == 0 then i else old(indexes)[0]
      ensures old(WalkedPath(tree, PathHere(), h) && SettledUpTo(tree, CurrentNode().children, i, h - top)) ==> Walked(h)
      ensures old(Spacious(h, m)) ==> Spacious(h, m)
    {
      hide WfChild, WfChildren, Flat, FlatChild, Left, Right, PathNodes, PathAhead, CountNodes, Less, Sorted, WfPath,
        WalkedPath, RoomyPath, RoomyFrame, SettledUpTo, Settled, Roomy, FineUpTo;
      var n := CurrentNode();
      ghost var k := h - top;
      ChildHasSlots(tree, n.children, i, k);
      CountCut(tree, n.children[Index() + 1..], i - Index() - 1, k);
      assert n.children[Index() + 1..][i - Index() - 1..] == n.children[i..];
      if !n.children[i].childNode.value.leafy {
        WalkedMore(tree, PathHere(), Frame(n, i), h);
        RoomyMore(tree, PathHere(), n, Index(), i, h, m);
        WalkInto(i, h);
        GoDownLeft(h, m);
      } else {
        CountSplit(tree, n.children[i..], 0, k);
        assert n.children[i..][1..] == n.children[i + 1..];
        WalkedLeaf(tree, n.children, i, k);
        RoomyHere(tree, n, Index(), i, top, h, m);
        SetIndex(i);
        assert PathHere() == old(PathHere());
      }
    }

    /** Puts the node at the cursor back into its parent during the walk. */
    method Climb(ghost h: nat)
      requires AtChild(h) && top > 0
      modifies this`nodes, this`top, this`maxtop, this`smallCount
      ensures AtChild(h) && All(h) == old(All(h)) && Total(h) == old(Total(h)) && Ahead(h) < old(Ahead(h))
      ensures top == old(top) - 1 && PathHere() == old(PathHere())[..top]
      ensures 0 <= old(PathHere())[top].index < |old(PathHere())[top].node.children| && Index() == old(PathHere())[top].index
      ensures CurrentNode() == Node(false, Plugged(old(PathHere())[top], old(CurrentNode())), None)
    {
      hide WfChild, WfChildren, Flat, FlatChild, Left, Right, PathNodes, PathAhead, CountNodes, Less, Sorted, WfPath,
        ChildrenSize;
      ghost var q, f := PathHere()[..top - 1], PathHere()[top - 1];
      assert PathHere() == q + [f];
      AscendCount(tree, q, f, CurrentNode(), h);
      Pop(h);
    }

    /** Goes back up to the parent. */
    method WalkUp(ghost h: nat, ghost m: nat)
      requires AtChild(h) && top > 0
      modifies this
      ensures AtChild(h) && All(h) == old(All(h)) && Total(h) == old(Total(h)) && Ahead(h) < old(Ahead(h))
      ensures old(FineBefore()) ==> FineBefore()
      ensures old(WalkedPath(tree, PathHere(), h) && DeepTidy(tree, CurrentNode().children, h - top)) ==> Walked(h)
      ensures old(Spacious(h, m)) ==> Spacious(h, m)
    {
      hide WfChild, WfChildren, Flat, FlatChild, Left, Right, PathNodes, PathAhead, CountNodes, Less, Sorted, WfPath,
        ChildrenSize, WalkedPath, RoomyPath, RoomyFrame, SettledUpTo, Settled, Roomy, DeepTidy, FineUpTo, Plugged;
      ghost var p, n, idx := PathHere(), CurrentNode(), Index();
      ghost var q, f := p[..top - 1], p[top - 1];
      assert p == q + [f];
      SlotsAtCursor(h);
      EvenHere(h, m);
      Climb(h);
      PluggedFine(tree, f, n);
      WalkedUp(tree, q, f, n, h);
      RoomyUp(tree, q, f, n, idx, h, m);
      assert top > 0 ==> PathHere()[0] == p[0];
    }

    /** Goes on to the next node in memory, or back up to the parent. */
    method MoveRight(ghost h: nat, ghost m: nat) returns (more: bool)
      requires AtChild(h)
      modifies this
      ensures Valid(h) && All(h) == old(All(h)) && Total(h) == old(Total(h))
      ensures more ==> AtChild(h) && Ahead(h) < old(Ahead(h))
      ensures !more ==> top == 0
      ensures old(FineBefore() && (top == 0 ==> |CurrentNode().children| == 1 || Fine(tree, Child().value))) ==>
                if more then FineBefore() else Tidy(tree, CurrentNode().children)
      ensures old(Walked(h) && (|CurrentNode().children| == 1 || Fine(tree, Child().value))) ==>
                if more then Walked(h) else DeepTidy(tree, CurrentNode().children, h)
      ensures old(Spacious(h, m)) && more ==> Spacious(h, m)
    {
      hide WfChild, WfChildren, Flat, FlatChild, Left, Right, PathNodes, PathAhead, CountNodes, Less, Sorted, WfPath,
        Fine, FineUpTo, Tidy, DeepTidy, Settled, SettledUpTo, WalkedPath, RoomyPath, RoomyFrame, Roomy;
      var n := CurrentNode();
      for i := Index() + 1 to |n.children|
        invariant unchanged(this)
        invariant forall j :: Index() < j < i ==> n.children[j].childNode.None?
      {
        if n.children[i].childNode.Some? {
          FineOn(tree, n.children, Index(), i);
          SettledOn(tree, n.children, Index(), i, h - top);
          WalkTo(i, h, m);
          return true;
        }
      }
      SettledOn(tree, n.children, Index(), |n.children|, h - top);
      if top == 0 {
        FineOn(tree, n.children, Index(), |n.children|);
        return false;
      }
      WalkUp(h, m);
      return true;
    }

    /** The larger of the child's two siblings, or the only one, if any. */
    method PickSibling(ghost h: nat) returns (ofs: int, sib: Option<Node>)
      requires AtChild(h) && Child().value.childNode.Some?
      ensures sib.None? <==> |CurrentNode().children| == 1
      ensures sib.Some? ==> BesideChild(ofs, sib.value) && sib.value.children != []
      ensures sib.Some? && 0 <= Index() - ofs < |CurrentNode().children| ==>
                && Loadable(tree, CurrentNode().children[Index() - ofs])
                && Msgsize(ChildNode(tree, CurrentNode().children[Index() - ofs])) <= Msgsize(sib.value)
      ensures sib.Some? ==> AllLoadable(tree, CurrentNode().children) && ofs == Side(tree, CurrentNode().children, Index())
    {
      hide WfChild, Flat, Left, Right, ChildrenSize;
      SlotsAtCursor(h);
      var idx := Index();
      var n1 := ChildNodeAt(idx - 1);
      var n2 := ChildNodeAt(idx + 1);
      ofs := -1;
      if n1.Some? && n2.Some? {
        if Msgsize(n1.value) < Msgsize(n2.value) {
          n1, ofs := n2, 1;
        }
      } else if n1.None? {
        n1, ofs := n2, 1;
      }
      if n1.Some? {
        ChildHasSlots(tree, CurrentNode().children, idx + ofs, h - top);
      }
      sib := n1;
    }

    /** Merges or fills up the child at the cursor if it is small and has a
        sibling; each change brings the walk closer to its end. */
    method FixChild(ghost h: nat, ghost m: nat) returns (changed: bool)
      requires AtChild(h) && Child().value.childNode.Some?
      modifies this
      ensures !changed ==> unchanged(this)
      ensures AtChild(h) && All(h) == old(All(h))
      ensures changed <==> old(Msgsize(Child().value.childNode.value) < tree.SmallSize() && |CurrentNode().children| > 1)
      ensures changed ==> AllLoadable(tree, old(CurrentNode()).children)
                          && CurrentNode() == Node(false, Fixed(tree, old(CurrentNode()).children, old(Index())), None)
      ensures PathHere() == old(PathHere())
      ensures Even(tree, All(h), m) ==>
                && (old(FineBefore()) ==> FineBefore())
                && (old(FineUpTo(tree, CurrentNode().children, Index())) ==> FineUpTo(tree, CurrentNode().children, Index()))
                && (old(Roomy(tree, CurrentNode().children, m)) ==> Roomy(tree, CurrentNode().children, m))
      ensures changed ==> Total(h) < old(Total(h))
                          || (Total(h) == old(Total(h)) && Ahead(h) <= old(Ahead(h)) && Missing() < old(Missing()))
    {
      hide WfChild, WfChildren, Flat, Left, Right, PathNodes, PathAhead, CountNodes, ChildrenSize, Less, FineUpTo, Roomy;
      var n := Child().value.childNode.value;
      if Msgsize(n) >= tree.SmallSize() {
        return false;
      }
      var ofs, n1 := PickSibling(h);
      if n1.None? {
        return false;
      }
      var sib := n1.value;
      if Msgsize(sib) < tree.HalfSize() {
        ghost var i := if ofs == -1 then Index() - 1 else Index();
        MergeCount(tree, CurrentNode().children, i, ofs, h - top);
        PairFine(tree, CurrentNode().children, i, [NewSlot(sib.leafy, Merged(ofs, n, sib))], Index());
        EvenHere(h, m);
        MergeRoomy(tree, CurrentNode().children, i, ofs, n, sib, h - top, m);
        MergeTo(ofs, sib, h);
        assert top > 0 ==> PathHere()[0] == Frame(nodes[0].value, indexes[0]);
      } else {
        Fill(ofs, sib, h, m);
      }
      changed := true;
    }

    /** Borrowing, as a step of the walk. */
    method Fill(ofs: int, sib: Node, ghost h: nat, ghost m: nat)
      requires AtChild(h) && BesideChild(ofs, sib)
      requires Msgsize(Child().value.childNode.value) < tree.SmallSize() && Msgsize(sib) >= tree.HalfSize()
      modifies this
      ensures AtChild(h) && All(h) == old(All(h))
      ensures Total(h) == old(Total(h)) && Ahead(h) <= old(Ahead(h)) && Missing() < old(Missing())
      ensures PathHere() == old(PathHere()) && |sib.children| >= 2
      ensures CurrentNode() == Node(false, PairPut(old(CurrentNode()).children, if ofs == -1 then old(Index()) - 1 else old(Index()),
                                                   Borrowed(ofs, old(Child()).value.childNode.value, sib)), None)
      ensures Even(tree, All(h), m) ==>
                && (old(FineBefore()) ==> FineBefore())
                && (old(FineUpTo(tree, CurrentNode().children, Index())) ==> FineUpTo(tree, CurrentNode().children, Index()))
                && (old(Roomy(tree, CurrentNode().children, m)) ==> Roomy(tree, CurrentNode().children, m))
    {
      hide WfChild, WfChildren, Flat, FlatChild, Left, Right, PathNodes, PathAhead, CountNodes, ChildrenSize, Less,
        WfPath, Sorted, Linked, Fine, FineUpTo, PairPut, Borrowed, Roomy;
      ghost var cs, k, idx := CurrentNode().children, h - top, Index();
      ghost var i := if ofs == -1 then idx - 1 else idx;
      PairFlat(tree, cs, i, k);
      TooBigHasTwo(tree, sib.children, k - 1);
      EvenHere(h, m);
      BorrowStep(tree, cs, i, ofs, k, m);
      MoveFrom(ofs, sib, h);
      assert top > 0 ==> PathHere()[0] == Frame(nodes[0].value, indexes[0]);
    }

    /** What the walk does at one child.  It is lifted if that changes a node above
        the leaves, and brings together nodes below that are not looked at again. */
    method TendChild(ghost h: nat, ghost m: nat) returns (changed: bool, ghost lifted: bool)
      requires AtChild(h)
      modifies this
      ensures !changed ==> unchanged(this) && (|CurrentNode().children| == 1 || Fine(tree, Child().value))
      ensures AtChild(h) && All(h) == old(All(h)) && (lifted ==> changed)
      ensures Even(tree, All(h), m) && old(FineBefore()) ==> FineBefore()
      ensures Even(tree, All(h), m) && old(Walked(h)) && !lifted ==> Walked(h)
      ensures old(Spacious(h, m)) ==> !lifted && Spacious(h, m)
      ensures changed ==> Total(h) < old(Total(h))
                          || (Total(h) == old(Total(h)) && Ahead(h) <= old(Ahead(h)) && Missing() < old(Missing()))
    {
      hide WfChild, WfChildren, Flat, Left, Right, Less, Sorted, WfPath, ChildrenSize, FineUpTo, PathNodes, PathAhead,
        CountNodes, LinkAt, Roomy, WalkedPath, RoomyPath;
      changed, lifted := false, false;
      if Child().value.childNode.Some? {
        RoomyChild(tree, CurrentNode().children, Index(), h - top, m);
        changed := FixChild(h, m);
        lifted := changed && h - top > 1;
      }
      if changed && h - top == 1 {
        FixedLeaf(tree, CurrentNode(), Index(), top, h, m);
      }
    }

    /** The pass over all nodes in memory, leaves first, after an edit. */
    method Rebalance(ghost h: nat, ghost m: nat) returns (ghost lifted: bool)
      requires Valid(h) && top == 0 && (h > 0 ==> CurrentNode().children != [])
      modifies this
      ensures Valid(h) && top == 0 && All(h) == old(All(h))
      ensures Even(tree, All(h), m) ==> Tidy(tree, CurrentNode().children)
      ensures Even(tree, All(h), m) && !lifted ==> DeepTidy(tree, CurrentNode().children, h)
      ensures Even(tree, All(h), m) && old(DeepRoomy(tree, CurrentNode().children, h, m)) ==> !lifted
      ensures CurrentNode().leafy == old(CurrentNode().leafy) && (CurrentNode().leafy ==> CurrentNode() == old(CurrentNode()))
    {
      hide WfChild, WfChildren, Flat, Left, Right, Less, Sorted, WfPath, ChildrenSize, FineUpTo, Tidy, PathNodes, PathAhead,
        CountNodes, LinkAt, DeepTidy, DeepRoomy, Walked, Spacious, WalkedPath, RoomyPath, RoomyFrame, Fine;
      lifted := false;
      RepointLinks(tree, nodes, indexes, 0, 0, maxtop, 0);
      SetIndex(0);
      assert PathHere() == old(PathHere()) == [];
      FineStart(tree, CurrentNode().children, h);
      WalkStart(tree, CurrentNode(), h, m);
      if CurrentNode().leafy {
        return;
      }
      ghost var light := Even(tree, All(h), m);
      ghost var room := light && DeepRoomy(tree, CurrentNode().children, h, m);
      GoDownLeft(h, m);
      var more := true;
      while more
        invariant Valid(h) && All(h) == old(All(h))
        invariant if more then AtChild(h) else top == 0
        invariant light ==> if more then FineBefore() else Tidy(tree, CurrentNode().children)
        invariant light && !lifted ==> if more then Walked(h) else DeepTidy(tree, CurrentNode().children, h)
        invariant room ==> !lifted && (more ==> Spacious(h, m))
        decreases more, Total(h), if more then Ahead(h) else 0, Missing()
      {
        var changed, l := TendChild(h, m);
        lifted := lifted || l;
        if !changed {
          more := MoveRight(h, m);
        }
      }
      // the walk ends at the root: nothing is left to pop
    }

    /** The sizes of all nodes below the one at the cursor. */
    method SumSizes(ghost h: nat) returns (ts: nat)
      requires Valid(h) && top < h
      ensures AllLoadable(tree, CurrentNode().children) && ts == SizesBelow(tree, CurrentNode().children)
    {
      hide WfChild, WfChildren, Flat, Left, Right, ChildrenSize, Less, WfPath, Sorted;
      SlotsAtCursor(h);
      var n := CurrentNode();
      ts := 0;
      for i := 0 to |n.children|
        invariant AllLoadable(tree, n.children[..i]) && ts == SizesBelow(tree, n.children[..i])
      {
        var cn := ChildNodeAt(i);
        ts := ts + Msgsize(cn.value);
        assert n.children[..i + 1][..i] == n.children[..i];
      }
      assert n.children[..|n.children|] == n.children;
    }

    /** The slots of all nodes below the one at the cursor, and whether they are
        leaves. */
    method GatherSlots(ghost h: nat) returns (cl: seq<NodeDataChild>, leafy: bool)
      requires Valid(h) && top < h && CurrentNode().children != []
      ensures AllLoadable(tree, CurrentNode().children) && cl == Gathered(tree, CurrentNode().children)
      ensures leafy == (h - top == 1)
    {
      hide WfChild, WfChildren, Flat, Left, Right, ChildrenSize, Less, WfPath, Sorted;
      SlotsAtCursor(h);
      var n := CurrentNode();
      cl, leafy := [], false;
      for i := 0 to |n.children|
        invariant AllLoadable(tree, n.children[..i]) && cl == Gathered(tree, n.children[..i])
        invariant leafy == (i > 0 && h - top == 1)
      {
        var cn := ChildNodeAt(i);
        ChildHasSlots(tree, n.children, i, h - top);
        if cn.value.leafy {
          leafy := true;
        }
        cl := cl + cn.value.children;
        assert n.children[..i + 1][..i] == n.children[..i];
      }
      assert n.children[..|n.children|] == n.children;
    }

    /** Replaces a small root by the slots of its children, if they fit in one
        node: the tree loses a level. */
    method CollapseRoot(ghost h: nat) returns (ghost h': nat)
      requires Valid(h) && top == 0 && (h > 0 ==> CurrentNode().children != [])
      modifies this
      ensures Valid(h') && top == 0 && (h' == h || h' + 1 == h)
      ensures h' > 0 ==> CurrentNode().children != []
      ensures All(h') == old(All(h))
      ensures h' < h <==> old(Collapsible(tree, CurrentNode()))
      ensures CurrentNode() == if h' < h then Node(h' == 0, Gathered(tree, old(CurrentNode()).children), None) else old(CurrentNode())
    {
      hide WfChild, Flat, Left, Right, ChildrenSize, Less, SizesBelow, Gathered;
      h' := h;
      var n := CurrentNode();
      if n.leafy || Msgsize(n) >= tree.SmallSize() {
        return;
      }
      var ts := SumSizes(h);
      if ts > tree.nodeMaximumSize {
        return;
      }
      var cl, leafy := GatherSlots(h);
      GatheredFlat(tree, n.children, h);
      AtRoot(tree, n.children, h);
      AtRoot(tree, cl, h - 1);
      assert PathHere() == [];
      SortedSlots(tree, cl, h - 1);
      assert StructureOk(cl);
      n := Node(leafy, cl, None);
      nodes := nodes[0 := Some(n)];
      InvalidateSubNodes();
      assert PathHere() == [];
      h' := h - 1;
    }

    /** Puts all nodes on the path back. */
    method PopAll(ghost h: nat)
      requires Valid(h)
      modifies this
      ensures Valid(h) && top == 0 && smallCount == old(smallCount)
      ensures All(h) == old(All(h)) && Flat(tree, CurrentNode().children, h) == All(h)
      ensures One(CurrentNode()) == old(Up(tree, PathHere(), One(CurrentNode())))
    {
      hide WfChild, WfChildren, Flat, Left, Right, Less, Up, Contents, WfPath, Sorted, Linked, Plugged;
      while top > 0
        invariant Valid(h) && All(h) == old(All(h)) && smallCount == old(smallCount)
        invariant Up(tree, PathHere(), One(CurrentNode())) == old(Up(tree, PathHere(), One(CurrentNode())))
      {
        ghost var p, f, n := PathHere()[..top - 1], PathHere()[top - 1], CurrentNode();
        assert PathHere() == p + [f];
        UpSnoc(tree, p, f, One(n));
        InPath(tree, p, f, h);
        Pop(h);
        assert PathHere() == p;
      }
      assert PathHere() == [];
      UpNone(tree, One(CurrentNode()));
      AtRoot(tree, CurrentNode().children, h);
    }

    /** Tends to all small nodes and then to the root. */
    method TendTree(ghost h: nat, ghost m: nat) returns (ghost h': nat)
      requires Valid(h) && top == 0 && (h > 0 ==> CurrentNode().children != [])
      modifies this
      ensures Valid(h') && top == 0 && (h' > 0 ==> CurrentNode().children != [])
      ensures Flat(tree, CurrentNode().children, h') == old(All(h))
      ensures Tended(tree, old(CurrentNode()), h, CurrentNode(), h', m)
    {
      hide WfChild, WfChildren, Flat, Left, Right, Less, Contents, WfPath, Sorted, Linked, Collapsible, Even, Tidy, DeepTidy,
        DeepRoomy, Tended;
      ghost var whole := CurrentNode();
      assert PathHere() == [];
      AtRoot(tree, CurrentNode().children, h);
      var _ := Rebalance(h, m);
      assert PathHere() == [];
      AtRoot(tree, CurrentNode().children, h);
      FlatNone(tree, h);
      if h > 0 {
        NotEmptied(tree, whole.children, CurrentNode().children, h);
      }
      ghost var n := CurrentNode();
      h' := CollapseRoot(h);
      assert PathHere() == [];
      AtRoot(tree, CurrentNode().children, h');
      TendedBy(tree, whole, n, h, CurrentNode(), h', m);
    }

    /** Puts all nodes on the path back; if a leaf was rewritten small, tends to all small
        nodes and then to the root.  The result is a whole tree with the contents of the
        cursor.  An interior root that has become empty stays, as long as no leaf was
        rewritten small. */
    method Commit(ghost h: nat, ghost m: nat) returns (r: Node, ghost h': nat)
      requires Valid(h)
      requires h > 0 && All(h) == [] ==> smallCount == 0
      modifies this
      ensures Shape() && top == 0 && smallCount == 0 && nodes[0] == Some(r)
      ensures WfNode(tree, r, h') && Flat(tree, r.children, h') == old(All(h))
      ensures h == 0 || old(All(h)) != [] ==> Ready(r, h')
      ensures h > 0 && old(All(h)) == [] ==> r == Node(false, [], r.blockId) && h' == h
      ensures var whole := Whole(old(Up(tree, PathHere(), One(CurrentNode()))));
              if old(smallCount) > 0 then Tended(tree, whole, h, r, h', m) else r == whole && h' == h
    {
      hide WfChild, WfChildren, Flat, Left, Right, Less, CountNodes, PathNodes, PathAhead, ChildrenSize, Up, Tended;
      PopAll(h);
      h' := h;
      if CurrentNode().children != [] {
        FlatFirst(tree, CurrentNode().children, h);
      } else {
        FlatNone(tree, h);
      }
      if smallCount == 0 {
        return CurrentNode(), h;
      }
      h' := TendTree(h, m);
      smallCount := 0;
      r := CurrentNode();
    }
  }

  lemma InPath(t: Tree, p: seq<Frame>, f: Frame, h: nat)
    requires WfPath(t, p + [f], h)
    ensures 0 <= f.index < |f.node.children|
  {
    hide Left, Right, Flat, WfNode;
    assert (p + [f])[|p|] == f;
  }

  lemma NotEmptied(t: Tree, cs: seq<NodeDataChild>, cs': seq<NodeDataChild>, h: nat)
    requires WfChildren(t, cs, h) && Flat(t, cs', h) == Flat(t, cs, h) && cs != []
    ensures cs' != []
  {
    FlatFirst(t, cs, h);
    FlatNone(t, h);
  }

  // ----- what tending to a small child makes of its pair

  /** Where the larger neighbour of slot `i` is, or the only one. */
  function Side(t: Tree, cs: seq<NodeDataChild>, i: nat): int
    requires AllLoadable(t, cs) && i < |cs|
  {
    if i == 0 then 1
    else if i + 1 < |cs| && Msgsize(ChildNode(t, cs[i - 1])) < Msgsize(ChildNode(t, cs[i + 1])) then 1
    else -1
  }

  /** A neighbour of less than half the maximum size takes in the node in slot `i`; a
      larger one lends it a slot. */
  function Fixed(t: Tree, cs: seq<NodeDataChild>, i: nat): seq<NodeDataChild>
    requires AllLoadable(t, cs) && i < |cs|
  {
    var ofs := Side(t, cs, i);
    if !(0 <= i + ofs < |cs|) then cs else
    var n, sib := ChildNode(t, cs[i]), ChildNode(t, cs[i + ofs]);
    var j := if ofs == -1 then i - 1 else i;
    if Msgsize(sib) < t.HalfSize() && sib.children != [] then PairPut(cs, j, [NewSlot(sib.leafy, Merged(ofs, n, sib))])
    else if Msgsize(sib) >= t.HalfSize() && |sib.children| >= 2 then PairPut(cs, j, Borrowed(ofs, n, sib))
    else cs
  }

  ghost predicate FitsNode(t: Tree, c: NodeDataChild) {
    c.childNode.Some? ==> Msgsize(c.childNode.value) <= t.nodeMaximumSize
  }

  ghost predicate AllFit(t: Tree, cs: seq<NodeDataChild>) {
    forall j :: 0 <= j < |cs| ==> FitsNode(t, cs[j])
  }

  lemma PairPutFits(t: Tree, cs: seq<NodeDataChild>, i: nat, s: seq<NodeDataChild>)
    requires i + 2 <= |cs| && AllFit(t, cs) && AllFit(t, s)
    ensures AllFit(t, PairPut(cs, i, s))
  {
    hide FitsNode;
  }

  /** Tending to a small node makes no node that is too big. */
  lemma FixedFits(t: Tree, cs: seq<NodeDataChild>, i: nat, h: nat)
    requires t.Valid() && WfChildren(t, cs, h) && h > 0 && AllLoadable(t, cs) && i < |cs| && |cs| > 1
    requires Msgsize(ChildNode(t, cs[i])) < t.SmallSize() && AllFit(t, cs)
    requires Msgsize(ChildNode(t, cs[i + Side(t, cs, i)])) <= t.nodeMaximumSize
    ensures AllFit(t, Fixed(t, cs, i))
  {
    hide WfChild, WfChildren, ChildrenSize, Flat, AllFit, PairPut, FitsNode;
    var ofs := Side(t, cs, i);
    var n, sib, j := ChildNode(t, cs[i]), ChildNode(t, cs[i + ofs]), if ofs == -1 then i - 1 else i;
    ChildSlots(t, cs, i + ofs, h);
    if Msgsize(sib) < t.HalfSize() {
      if sib.children != [] {
        MergedFits(t, ofs, n, sib);
        PairPutFits(t, cs, j, [NewSlot(sib.leafy, Merged(ofs, n, sib))]);
      }
    } else if |sib.children| >= 2 {
      BorrowedFits(t, ofs, n, sib, h - 1);
      PairPutFits(t, cs, j, Borrowed(ofs, n, sib));
    }
  }

  lemma MergedFits(t: Tree, ofs: int, n: Node, sib: Node)
    requires Msgsize(n) < t.SmallSize() && Msgsize(sib) < t.HalfSize() && sib.children != []
    ensures AllFit(t, [NewSlot(sib.leafy, Merged(ofs, n, sib))])
  {
    hide ChildrenSize;
    ChildrenSizeConcat(n.children, sib.children);
    ChildrenSizeConcat(sib.children, n.children);
  }

  lemma BorrowedFits(t: Tree, ofs: int, n: Node, sib: Node, h: nat)
    requires WfChildren(t, sib.children, h) && |sib.children| >= 2 && (ofs == -1 || ofs == 1)
    requires Msgsize(n) < t.SmallSize() && Msgsize(sib) <= t.nodeMaximumSize
    ensures AllFit(t, Borrowed(ofs, n, sib))
  {
    hide WfChildren, ChildrenSize, Lent, Taken;
    LendSizes(t, ofs, n, sib, h);
  }

  lemma LendSizes(t: Tree, ofs: int, n: Node, sib: Node, h: nat)
    requires WfChildren(t, sib.children, h) && |sib.children| >= 2 && (ofs == -1 || ofs == 1)
    ensures ChildrenSize(Lent(ofs, sib)) <= ChildrenSize(sib.children)
    ensures ChildrenSize(Taken(ofs, n, sib)) + NODE_HEADER < ChildrenSize(n.children) + t.HalfSize()
  {
    hide ChildrenSize;
    var last := |sib.children| - 1;
    var x := if ofs == -1 then sib.children[last] else sib.children[0];
    assert WfChild(t, sib.children[last], h) && WfChild(t, sib.children[0], h);
    assert sib.children == sib.children[..last] + [sib.children[last]] && sib.children == [sib.children[0]] + sib.children[1..];
    ChildrenSizeConcat(sib.children[..last], [sib.children[last]]);
    ChildrenSizeConcat([sib.children[0]], sib.children[1..]);
    ChildrenSizeConcat([x], n.children);
    ChildrenSizeConcat(n.children, [x]);
    OneSize(x);
  }

  lemma OneSize(c: NodeDataChild)
    ensures ChildrenSize([c]) == ChildSize(c)
  {
    assert [c][1..] == [];
  }

  // ----- what a commit makes of a tree

  /** The root is small, and all that is below it fits in one node. */
  ghost predicate Collapsible(t: Tree, n: Node) {
    && !n.leafy && Msgsize(n) < t.SmallSize() && AllLoadable(t, n.children)
    && SizesBelow(t, n.children) <= t.nodeMaximumSize
  }

  /** The tree under `n` has the entries of the one under `whole`, and its small nodes
      have been tended to: none is left beside a sibling right below the root, and none
      at any level if the interior nodes had room. */
  ghost predicate Tidied(t: Tree, whole: Node, n: Node, h: nat, m: nat) {
    && WfNode(t, n, h) && Flat(t, n.children, h) == Flat(t, whole.children, h)
    && n.leafy == whole.leafy && (whole.leafy ==> n == whole)
    && (Even(t, Flat(t, n.children, h), m) ==>
          Tidy(t, n.children) && (DeepRoomy(t, whole.children, h, m) ==> DeepTidy(t, n.children, h)))
  }

  /** The tree is tidied, and then loses a level exactly if its root is collapsible. */
  ghost predicate Tended(t: Tree, whole: Node, h: nat, r: Node, h': nat, m: nat) {
    exists n :: Tidied(t, whole, n, h, m) &&
      if Collapsible(t, n) then h' + 1 == h && r == Node(h' == 0, Gathered(t, n.children), None) else h' == h && r == n
  }

  lemma TendedBy(t: Tree, whole: Node, n: Node, h: nat, r: Node, h': nat, m: nat)
    requires Tidied(t, whole, n, h, m)
    requires if Collapsible(t, n) then h' + 1 == h && r == Node(h' == 0, Gathered(t, n.children), None) else h' == h && r == n
    ensures Tended(t, whole, h, r, h', m)
  {
    hide Tidied, Collapsible;
  }

  /** Taking a slot out and rewriting its sibling is rewriting the pair. */
  lemma MergedSlots(cs: seq<NodeDataChild>, oi: nat, ofs: int, x: NodeDataChild)
    requires oi < |cs| && (ofs == -1 || ofs == 1) && 0 <= oi + ofs < |cs|
    ensures var si := if ofs > 0 then ofs + oi - 1 else ofs + oi;
            var r := Spliced(cs, oi, true, None);
            && 0 <= si < |r| && r[si] == cs[oi + ofs] && r[si := x] == PairPut(cs, si, [x])
  {
  }

  /** `cs` with the slots at `i` and `i + 1` replaced. */
  function PairPut(cs: seq<NodeDataChild>, i: int, s: seq<NodeDataChild>): seq<NodeDataChild>
    requires 0 <= i && i + 2 <= |cs|
  {
    cs[..i] + s + cs[i + 2..]
  }

  function NewSlot(leafy: bool, cs: seq<NodeDataChild>): NodeDataChild
    requires cs != []
  {
    Slot(cs, Node(leafy, cs, None))
  }

  /** What the sibling keeps. */
  function Lent(ofs: int, sib: Node): seq<NodeDataChild>
    requires |sib.children| >= 2
  {
    if ofs == -1 then sib.children[..|sib.children| - 1] else sib.children[1..]
  }

  /** What the node then has. */
  function Taken(ofs: int, n: Node, sib: Node): seq<NodeDataChild>
    requires |sib.children| >= 2
  {
    if ofs == -1 then [sib.children[|sib.children| - 1]] + n.children else n.children + [sib.children[0]]
  }

  /** The slots of the node and its sibling after that, left one first. */
  function Borrowed(ofs: int, n: Node, sib: Node): seq<NodeDataChild>
    requires |sib.children| >= 2
  {
    if ofs == -1 then [NewSlot(sib.leafy, Lent(ofs, sib)), NewSlot(n.leafy, Taken(ofs, n, sib))]
    else [NewSlot(n.leafy, Taken(ofs, n, sib)), NewSlot(sib.leafy, Lent(ofs, sib))]
  }

  lemma TwoUpdates(cs: seq<NodeDataChild>, i: nat, ofs: int, n: Node, sib: Node)
    requires i + 2 <= |cs| && |sib.children| >= 2 && (ofs == -1 || ofs == 1)
    ensures var oi := if ofs == -1 then i + 1 else i;
            PairPut(cs, i, Borrowed(ofs, n, sib))
            == cs[oi + ofs := NewSlot(sib.leafy, Lent(ofs, sib))][oi := NewSlot(n.leafy, Taken(ofs, n, sib))]
  {
  }

  /** Taking the nearest slot out of the sibling. */
  lemma LendOne(t: Tree, p: seq<Frame>, n0: Node, i: nat, ofs: int, h: nat)
    requires t.Valid() && WfPath(t, p, h) && |p| < h && WfNode(t, n0, h - |p|)
    requires Sorted(Contents(t, p, n0.children, h)) && i + 2 <= |n0.children|
    requires Loadable(t, n0.children[i]) && Loadable(t, n0.children[i + 1])
    requires |ChildNode(t, n0.children[if ofs == -1 then i else i + 1]).children| >= 2
    ensures var si := if ofs == -1 then i else i + 1;
            var sib := ChildNode(t, n0.children[si]);
            var cl := Lent(ofs, sib);
            && WfChildren(t, cl, h - |p| - 1)
            && WfChildren(t, n0.children[si := NewSlot(sib.leafy, cl)], h - |p|)
            && Sorted(Contents(t, p, n0.children[si := NewSlot(sib.leafy, cl)], h))
  {
    hide WfChild, WfChildren, Flat, Left, Right, CountNodes, Less;
    var si := if ofs == -1 then i else i + 1;
    var f := Frame(n0, si);
    PathSnoc(t, p, f, h);
    Descend(t, p, f, h);
    var cs := ChildNode(t, n0.children[si]).children;
    if ofs == -1 {
      KeepSlots(t, p + [f], cs, 0, |cs| - 1, h);
      SlotChange(t, p, n0, si, cs[..|cs| - 1], h);
    } else {
      KeepSlots(t, p + [f], cs, 1, |cs|, h);
      assert cs[1..|cs|] == cs[1..];
      SlotChange(t, p, n0, si, cs[1..], h);
    }
  }

  /** Lending and borrowing together leave the contents as they were. */
  lemma BorrowOne(t: Tree, p: seq<Frame>, n0: Node, i: nat, ofs: int, h: nat)
    requires t.Valid() && WfPath(t, p, h) && |p| < h && WfNode(t, n0, h - |p|) && i + 2 <= |n0.children|
    requires Loadable(t, n0.children[i]) && Loadable(t, n0.children[i + 1])
    requires |ChildNode(t, n0.children[if ofs == -1 then i else i + 1]).children| >= 2
    ensures var n := ChildNode(t, n0.children[if ofs == -1 then i + 1 else i]);
            var sib := ChildNode(t, n0.children[if ofs == -1 then i else i + 1]);
            var cs := PairPut(n0.children, i, Borrowed(ofs, n, sib));
            && WfChildren(t, Borrowed(ofs, n, sib), h - |p|)
            && WfChildren(t, cs, h - |p|)
            && Contents(t, p, cs, h) == Contents(t, p, n0.children, h)
            && WfChildren(t, Taken(ofs, n, sib), h - |p| - 1)
  {
    hide WfChild, WfChildren, Flat, Left, Right, CountNodes, Less;
    var k := h - |p|;
    PairFlat(t, n0.children, i, k);
    var n := ChildNode(t, n0.children[if ofs == -1 then i + 1 else i]);
    var sib := ChildNode(t, n0.children[if ofs == -1 then i else i + 1]);
    var last := |sib.children| - 1;
    var a, c, b;
    if ofs == -1 {
      a, c, b := sib.children[..last], sib.children[last], n.children;
      assert sib.children == a + [c];
      WfPieces(t, a, [c], k - 1);
      WfJoined(t, [c], b, k - 1);
      PairSlots(t, Node(sib.leafy, a, None), Node(n.leafy, [c] + b, None), k - 1);
      assert a + ([c] + b) == sib.children + n.children;
    } else {
      a, c, b := n.children, sib.children[0], sib.children[1..];
      assert sib.children == [c] + b;
      WfPieces(t, [c], b, k - 1);
      WfJoined(t, a, [c], k - 1);
      PairSlots(t, Node(n.leafy, a + [c], None), Node(sib.leafy, b, None), k - 1);
      assert (a + [c]) + b == n.children + sib.children;
    }
    Exchange(t, p, n0.children, i, Borrowed(ofs, n, sib), h);
  }

  /** The slots of the merged node. */
  function Merged(ofs: int, n: Node, sib: Node): (r: seq<NodeDataChild>)
    requires sib.children != []
    ensures r != []
  {
    if ofs == -1 then sib.children + n.children else n.children + sib.children
  }

  /** Dropping a node's slot, and giving its slots to the sibling. */
  lemma MergeIsSame(t: Tree, p: seq<Frame>, n0: Node, i: nat, ofs: int, h: nat)
    requires t.Valid() && WfPath(t, p, h) && |p| < h && WfNode(t, n0, h - |p|)
    requires Sorted(Contents(t, p, n0.children, h)) && i + 2 <= |n0.children|
    requires ofs == -1 || ofs == 1
    ensures Loadable(t, n0.children[i]) && Loadable(t, n0.children[i + 1])
    ensures var oi := if ofs == -1 then i + 1 else i;
            var n := ChildNode(t, n0.children[oi]);
            var sib := ChildNode(t, n0.children[oi + ofs]);
            && n.children != [] && sib.children != []
            && WfChildren(t, Merged(ofs, n, sib), h - |p| - 1)
            && WfChildren(t, Spliced(n0.children, oi, true, None), h - |p|)
            && Sorted(Contents(t, p, Spliced(n0.children, oi, true, None), h))
            && var cs := PairPut(n0.children, i, [NewSlot(sib.leafy, Merged(ofs, n, sib))]);
            && WfChildren(t, [NewSlot(sib.leafy, Merged(ofs, n, sib))], h - |p|)
            && WfChildren(t, cs, h - |p|)
            && Contents(t, p, cs, h) == Contents(t, p, n0.children, h)
  {
    hide WfChild, WfChildren, Flat, Left, Right, CountNodes, Less;
    var k := h - |p|;
    PairFlat(t, n0.children, i, k);
    var oi := if ofs == -1 then i + 1 else i;
    var n := ChildNode(t, n0.children[oi]);
    var sib := ChildNode(t, n0.children[oi + ofs]);
    var m := Merged(ofs, n, sib);
    assert m == ChildNode(t, n0.children[i]).children + ChildNode(t, n0.children[i + 1]).children;
    WfJoined(t, ChildNode(t, n0.children[i]).children, ChildNode(t, n0.children[i + 1]).children, k - 1);
    var s := NewSlot(sib.leafy, m);
    SlotWf(t, Node(sib.leafy, m, None), k - 1);
    FlatOne(t, s, k);
    assert WfChildren(t, [s], k) by { WfOne(t, s, k); }
    Exchange(t, p, n0.children, i, [s], h);
    var a, c := n0.children[..oi], n0.children[oi + 1..];
    Around(n0.children, oi);
    SortedDrop(t, p, a, [n0.children[oi]], c, h);
    WfPieces(t, a + [n0.children[oi]], c, k);
    WfPieces(t, a, [n0.children[oi]], k);
    WfJoined(t, a, c, k);
    assert Spliced(n0.children, oi, true, None) == a + c;
  }

  /** All that a merge asks for, and gives. */
  lemma MergeReady(t: Tree, p: seq<Frame>, n0: Node, oi: nat, ofs: int, sib: Node, h: nat)
    requires t.Valid() && WfPath(t, p, h) && |p| < h && WfNode(t, n0, h - |p|)
    requires Sorted(Contents(t, p, n0.children, h)) && (ofs == -1 || ofs == 1)
    requires oi < |n0.children| && 0 <= oi + ofs < |n0.children| && n0.children[oi].childNode.Some?
    requires Loadable(t, n0.children[oi + ofs]) && sib == ChildNode(t, n0.children[oi + ofs]) && sib.children != []
    ensures var si := if ofs > 0 then ofs + oi - 1 else ofs + oi;
            var node, r := n0.children[oi].childNode.value, Spliced(n0.children, oi, true, None);
            var ncl := if ofs == -1 then sib.children + node.children else node.children + sib.children;
            && ncl == Merged(ofs, node, sib) && ncl != []
            && WfChildren(t, ncl, h - |p| - 1) && WfChildren(t, r, h - |p|) && Sorted(Contents(t, p, r, h))
            && si < |r| && r[si] == n0.children[oi + ofs]
            && r[si := NewSlot(sib.leafy, ncl)] == PairPut(n0.children, si, [NewSlot(sib.leafy, ncl)])
            && WfChildren(t, r[si := NewSlot(sib.leafy, ncl)], h - |p|)
            && Contents(t, p, r[si := NewSlot(sib.leafy, ncl)], h) == Contents(t, p, n0.children, h)
  {
    hide WfChild, WfChildren, Flat, Left, Right, Less, Sorted, WfPath, ChildrenSize;
    var si := if ofs > 0 then ofs + oi - 1 else ofs + oi;
    var node := n0.children[oi].childNode.value;
    var ncl := if ofs == -1 then sib.children + node.children else node.children + sib.children;
    MergeIsSame(t, p, n0, si, ofs, h);
    MergedSlots(n0.children, oi, ofs, NewSlot(sib.leafy, ncl));
  }

  lemma Around<T>(s: seq<T>, i: nat)
    requires i < |s|
    ensures s == s[..i] + [s[i]] + s[i + 1..]
  {
  }

  lemma WfOne(t: Tree, c: NodeDataChild, h: nat)
    requires WfChild(t, c, h)
    ensures WfChildren(t, [c], h)
  {
  }

  lemma ChildHasSlots(t: Tree, cs: seq<NodeDataChild>, i: nat, h: nat)
    requires WfChildren(t, cs, h) && i < |cs| && h > 0
    ensures Loadable(t, cs[i]) && ChildNode(t, cs[i]).children != []
    ensures ChildNode(t, cs[i]).leafy == (h == 1)
  {
    assert WfChild(t, cs[i], h);
  }

  /** A node that lends a slot does not become small. */
  lemma LentFine(t: Tree, ofs: int, sib: Node, h: nat)
    requires t.Valid() && WfChildren(t, sib.children, h) && |sib.children| >= 2 && Msgsize(sib) >= t.HalfSize()
    requires Even(t, Flat(t, sib.children, h), 0)
    ensures Fine(t, NewSlot(sib.leafy, Lent(ofs, sib)))
  {
    var last := |sib.children| - 1;
    var c := if ofs == -1 then sib.children[last] else sib.children[0];
    SlotEven(t, sib.children, if ofs == -1 then last else 0, h, 0);
    hide Flat, WfChild;
    ChildrenSizeConcat([c], Lent(ofs, sib));
    ChildrenSizeConcat(Lent(ofs, sib), [c]);
    assert sib.children == if ofs == -1 then Lent(ofs, sib) + [c] else [c] + Lent(ofs, sib);
    assert [c][1..] == [];
  }

  lemma BorrowFine(t: Tree, cs: seq<NodeDataChild>, i: nat, ofs: int, n: Node, sib: Node, h: nat)
    requires i + 2 <= |cs| && (ofs == -1 || ofs == 1) && |sib.children| >= 2
    requires t.Valid() && WfChildren(t, sib.children, h) && Msgsize(sib) >= t.HalfSize()
    requires Even(t, Flat(t, sib.children, h), 0)
    ensures var idx := if ofs == -1 then i + 1 else i;
            FineUpTo(t, cs, idx) ==> FineUpTo(t, PairPut(cs, i, Borrowed(ofs, n, sib)), idx)
  {
    hide WfChild, WfChildren, ChildrenSize, Fine;
    LentFine(t, ofs, sib, h);
  }

  /** Borrowing brings the walk closer to its end. */
  lemma BorrowStep(t: Tree, cs: seq<NodeDataChild>, i: nat, ofs: int, h: nat, m: nat)
    requires t.Valid() && WfChildren(t, cs, h) && i + 2 <= |cs| && h > 0 && (ofs == -1 || ofs == 1)
    requires Loadable(t, cs[i]) && Loadable(t, cs[i + 1])
    requires var sib := ChildNode(t, cs[if ofs == -1 then i else i + 1]);
             |sib.children| >= 2 && Msgsize(sib) >= t.HalfSize() && WfChildren(t, sib.children, h - 1)
    ensures var idx := if ofs == -1 then i + 1 else i;
            var n, sib := ChildNode(t, cs[idx]), ChildNode(t, cs[idx + ofs]);
            var cs' := PairPut(cs, i, Borrowed(ofs, n, sib));
            && |cs'| == |cs| && cs'[idx].childNode.Some? && Msgsize(cs'[idx].childNode.value) > Msgsize(n)
            && CountNodes(t, cs', h) == CountNodes(t, cs, h)
            && CountNodes(t, cs'[idx + 1..], h) <= CountNodes(t, cs[idx + 1..], h)
            && (Even(t, Flat(t, cs, h), m) && FineUpTo(t, cs, idx) ==> FineUpTo(t, cs', idx))
            && (Even(t, Flat(t, cs, h), m) && Msgsize(n) < t.SmallSize() && Roomy(t, cs, m) ==> Roomy(t, cs', m))
  {
    hide WfChild, WfChildren, CountNodes, ChildrenSize, Fine, FineUpTo, Roomy, Flat, Even;
    var idx := if ofs == -1 then i + 1 else i;
    var n, sib := ChildNode(t, cs[idx]), ChildNode(t, cs[idx + ofs]);
    BorrowCount(t, cs, i, ofs, h);
    BorrowSize(ofs, n, sib);
    BorrowPlace(cs, i, ofs, n, sib);
    if Even(t, Flat(t, cs, h), m) {
      ChildEven(t, cs, idx + ofs, h, m);
      EvenLess(t, Flat(t, sib.children, h - 1), m);
      BorrowFine(t, cs, i, ofs, n, sib, h - 1);
      BorrowRoomy(t, cs, i, ofs, h, m);
    }
  }

  /** The lender does not become small. */
  lemma BorrowRoomy(t: Tree, cs: seq<NodeDataChild>, i: nat, ofs: int, h: nat, m: nat)
    requires t.Valid() && WfChildren(t, cs, h) && h > 0 && Even(t, Flat(t, cs, h), m)
    requires i + 2 <= |cs| && (ofs == -1 || ofs == 1) && Loadable(t, cs[i]) && Loadable(t, cs[i + 1])
    requires var sib := ChildNode(t, cs[if ofs == -1 then i else i + 1]);
             |sib.children| >= 2 && Msgsize(sib) >= t.HalfSize() && WfChildren(t, sib.children, h - 1)
    ensures var idx := if ofs == -1 then i + 1 else i;
            var n, sib := ChildNode(t, cs[idx]), ChildNode(t, cs[idx + ofs]);
            Msgsize(n) < t.SmallSize() && Roomy(t, cs, m) ==> Roomy(t, PairPut(cs, i, Borrowed(ofs, n, sib)), m)
  {
    hide WfChild, WfChildren, ChildrenSize, Roomy, Smalls, Lent, Taken, Flat, Even;
    var idx := if ofs == -1 then i + 1 else i;
    var n, sib := ChildNode(t, cs[idx]), ChildNode(t, cs[idx + ofs]);
    if Msgsize(n) < t.SmallSize() {
      ChildEven(t, cs, idx + ofs, h, m);
      EvenLess(t, Flat(t, sib.children, h - 1), m);
      LentFine(t, ofs, sib, h - 1);
      var s := Borrowed(ofs, n, sib);
      SmallsTwo(t, cs[i], cs[i + 1]);
      SmallsTwo(t, s[0], s[1]);
      assert s == [s[0], s[1]];
      BorrowWide(t, cs, i, ofs, h, m);
      RoomyPut(t, cs[..i], [cs[i], cs[i + 1]], s, cs[i + 2..], m);
      assert cs == cs[..i] + [cs[i], cs[i + 1]] + cs[i + 2..];
    }
  }

  /** The new slots lead to the first entries of their nodes. */
  lemma BorrowWide(t: Tree, cs: seq<NodeDataChild>, i: nat, ofs: int, h: nat, m: nat)
    requires t.Valid() && WfChildren(t, cs, h) && h > 0 && Even(t, Flat(t, cs, h), m)
    requires i + 2 <= |cs| && (ofs == -1 || ofs == 1) && Loadable(t, cs[i]) && Loadable(t, cs[i + 1])
    requires var sib := ChildNode(t, cs[if ofs == -1 then i else i + 1]);
             |sib.children| >= 2 && WfChildren(t, sib.children, h - 1)
    ensures var idx := if ofs == -1 then i + 1 else i;
            Wide(Borrowed(ofs, ChildNode(t, cs[idx]), ChildNode(t, cs[idx + ofs])), m)
  {
    hide WfChildren, Flat, Even;
    var idx := if ofs == -1 then i + 1 else i;
    var n, sib := ChildNode(t, cs[idx]), ChildNode(t, cs[idx + ofs]);
    ChildEven(t, cs, idx + ofs, h, m);
    ChildEven(t, cs, idx, h, m);
    ChildHasSlots(t, cs, idx, h);
    ChildSlots(t, cs, idx, h);
    SlotEven(t, n.children, 0, h - 1, m);
    SlotEven(t, sib.children, 0, h - 1, m);
    SlotEven(t, sib.children, 1, h - 1, m);
    SlotEven(t, sib.children, |sib.children| - 1, h - 1, m);
  }

  lemma ChildSlots(t: Tree, cs: seq<NodeDataChild>, i: nat, h: nat)
    requires WfChildren(t, cs, h) && i < |cs| && h > 0
    ensures Loadable(t, cs[i]) && WfChildren(t, ChildNode(t, cs[i]).children, h - 1)
  {
    assert WfChild(t, cs[i], h);
  }

  lemma SmallsTwo(t: Tree, c: NodeDataChild, d: NodeDataChild)
    ensures Smalls(t, [c, d]) == (if IsSmall(t, c) then 1 else 0) + (if IsSmall(t, d) then 1 else 0)
  {
    hide IsSmall;
    assert [c, d] == [c] + [d];
    SmallsConcat(t, [c], [d]);
    SmallsOne(t, c);
    SmallsOne(t, d);
  }

  /** A merge takes away a small node with its slot. */
  lemma MergeRoomy(t: Tree, cs: seq<NodeDataChild>, i: nat, ofs: int, n: Node, sib: Node, h: nat, m: nat)
    requires WfChildren(t, cs, h) && h > 0
    requires i + 2 <= |cs| && (ofs == -1 || ofs == 1) && Loadable(t, cs[i]) && Loadable(t, cs[i + 1])
    requires n == ChildNode(t, cs[if ofs == -1 then i + 1 else i]) && sib == ChildNode(t, cs[if ofs == -1 then i else i + 1])
    requires Msgsize(n) < t.SmallSize() && sib.children != []
    ensures Even(t, Flat(t, cs, h), m) && Roomy(t, cs, m) ==>
              Roomy(t, PairPut(cs, i, [NewSlot(sib.leafy, Merged(ofs, n, sib))]), m)
  {
    hide Roomy, Smalls, ChildrenSize, Flat, Even, WfChild, WfChildren;
    if Even(t, Flat(t, cs, h), m) {
      var x := NewSlot(sib.leafy, Merged(ofs, n, sib));
      ChildrenSizeConcat(n.children, sib.children);
      ChildrenSizeConcat(sib.children, n.children);
      assert Msgsize(x.childNode.value) >= Msgsize(sib);
      ChildHasSlots(t, cs, i, h);
      ChildSlots(t, cs, i, h);
      ChildEven(t, cs, i, h, m);
      SlotEven(t, ChildNode(t, cs[i]).children, 0, h - 1, m);
      SmallsTwo(t, cs[i], cs[i + 1]);
      SmallsOne(t, x);
      RoomyPut(t, cs[..i], [cs[i], cs[i + 1]], [x], cs[i + 2..], m);
      assert cs == cs[..i] + [cs[i], cs[i + 1]] + cs[i + 2..];
    }
  }

  lemma PairFine(t: Tree, cs: seq<NodeDataChild>, i: nat, s: seq<NodeDataChild>, idx: nat)
    requires i + 2 <= |cs| && i <= idx
    ensures FineUpTo(t, cs, idx) ==> FineUpTo(t, PairPut(cs, i, s), i)
  {
    hide Fine;
  }

  /** What is left of a slot stays when the slot is put back. */
  lemma PluggedFine(t: Tree, f: Frame, n: Node)
    requires 0 <= f.index < |f.node.children|
    ensures FineUpTo(t, f.node.children, f.index) ==> FineUpTo(t, Plugged(f, n), f.index)
  {
  }

  lemma FineStart(t: Tree, cs: seq<NodeDataChild>, h: nat)
    requires WfChildren(t, cs, h)
    ensures FineUpTo(t, cs, 0) && (h == 0 ==> Tidy(t, cs))
  {
    assert h == 0 ==> forall i :: 0 <= i < |cs| ==> WfChild(t, cs[i], 0);
  }

  /** Going past slots without a node in memory. */
  lemma FineOn(t: Tree, cs: seq<NodeDataChild>, x: int, i: nat)
    requires 0 <= x < i <= |cs| && forall j :: x < j < i ==> cs[j].childNode.None?
    ensures FineUpTo(t, cs, x) && (|cs| == 1 || Fine(t, cs[x])) && i < |cs| ==> FineUpTo(t, cs, i)
    ensures FineUpTo(t, cs, x) && (|cs| == 1 || Fine(t, cs[x])) && i == |cs| ==> Tidy(t, cs)
  {
  }

  /** The path goes on through the slot of an interior node. */
  lemma WalkedMore(t: Tree, p: seq<Frame>, f: Frame, h: nat)
    requires |p| < h
    ensures WalkedPath(t, p, h) && SettledUpTo(t, f.node.children, f.index, h - |p|) ==> WalkedPath(t, p + [f], h)
  {
    hide SettledUpTo;
  }

  /** Below a leaf, and below a node that is not in memory, is nothing. */
  lemma WalkedLeaf(t: Tree, cs: seq<NodeDataChild>, i: nat, k: nat)
    requires k > 0 && i < |cs| && WfChildren(t, cs, k)
    requires cs[i].childNode.Some? ==> cs[i].childNode.value.leafy
    ensures Settled(t, cs[i], k) && SettledUpTo(t, cs, 0, k)
  {
    hide WfChildren;
    ChildHasSlots(t, cs, i, k);
  }

  /** A node that is tidy below goes back into its parent. */
  lemma WalkedUp(t: Tree, p: seq<Frame>, f: Frame, n: Node, h: nat)
    requires |p| < h && 0 <= f.index < |f.node.children| && n.children != [] && |p| + 1 <= h
    ensures WalkedPath(t, p + [f], h) && DeepTidy(t, n.children, h - |p| - 1) ==>
              && WalkedPath(t, p, h) && SettledUpTo(t, Plugged(f, n), f.index, h - |p|)
              && Settled(t, Plugged(f, n)[f.index], h - |p|)
  {
    hide DeepTidy, Fine;
    assert (p + [f])[|p|] == f;
    assert forall i :: 0 <= i < |p| ==> (p + [f])[i] == p[i];
    assert Plugged(f, n)[f.index] == Slot(n.children, n);
  }

  /** Going past slots without a node in memory. */
  lemma SettledOn(t: Tree, cs: seq<NodeDataChild>, x: int, i: nat, k: nat)
    requires k > 0 && 0 <= x < i <= |cs| && forall j :: x < j < i ==> cs[j].childNode.None?
    ensures SettledUpTo(t, cs, x, k) && Settled(t, cs[x], k) && (|cs| == 1 || Fine(t, cs[x])) ==>
              if i < |cs| then SettledUpTo(t, cs, i, k) else DeepTidy(t, cs, k)
  {
    hide Fine, Tidy, FineUpTo;
    FineOn(t, cs, x, i);
    assert forall j :: x < j < i ==> Settled(t, cs[j], k);
  }

  lemma WalkStart(t: Tree, n: Node, h: nat, m: nat)
    ensures WalkedPath(t, [], h) && RoomyPath(t, [], h, m) && (h == 0 ==> DeepTidy(t, n.children, h))
    ensures DeepRoomy(t, n.children, h, m) ==> RoomyFrame(t, Frame(n, -1), 0, h, m)
  {
    hide RoomyBelow;
  }

  /** An interior child with room is not small. */
  lemma RoomyChild(t: Tree, cs: seq<NodeDataChild>, i: nat, k: nat, m: nat)
    requires WfChildren(t, cs, k) && k > 0 && i < |cs| && cs[i].childNode.Some?
    ensures Roomy(t, cs[i].childNode.value.children, m) ==> Msgsize(cs[i].childNode.value) >= t.SmallSize()
  {
    hide Roomy;
    if Roomy(t, cs[i].childNode.value.children, m) {
      RoomyLarge(t, cs[i].childNode.value.children, m);
    }
  }

  /** Right above the leaves there is nothing below to look at. */
  lemma FixedLeaf(t: Tree, n: Node, idx: int, top: nat, h: nat, m: nat)
    requires top + 1 == h && 0 <= idx < |n.children|
    ensures FineUpTo(t, n.children, idx) ==> SettledUpTo(t, n.children, idx, 1)
    ensures Settled(t, n.children[idx], 1)
    ensures (top > 0 ==> Roomy(t, n.children, m)) ==> RoomyFrame(t, Frame(n, idx), top, h, m)
  {
    hide Roomy;
  }

  /** The path goes on through slot `i`, beyond slot `x`. */
  lemma RoomyMore(t: Tree, p: seq<Frame>, n: Node, x: int, i: nat, h: nat, m: nat)
    requires |p| + 1 < h && x < i < |n.children| && n.children[i].childNode.Some?
    ensures RoomyPath(t, p, h, m) && RoomyFrame(t, Frame(n, x), |p|, h, m) ==>
              && RoomyPath(t, p + [Frame(n, i)], h, m)
              && RoomyFrame(t, Frame(n.children[i].childNode.value, -1), |p| + 1, h, m)
  {
    hide Roomy, RoomyFrame;
    if RoomyPath(t, p, h, m) && RoomyFrame(t, Frame(n, x), |p|, h, m) {
      RoomyHere(t, n, x, i, |p|, h, m);
      RoomyInto(t, n, x, i, |p|, h, m);
      var q := p + [Frame(n, i)];
      forall j | 0 <= j < |q| ensures RoomyFrame(t, q[j], j, h, m) {
        assert j < |p| ==> RoomyFrame(t, p[j], j, h, m);
      }
    }
  }

  lemma RoomyInto(t: Tree, n: Node, x: int, i: nat, k: nat, h: nat, m: nat)
    requires k + 1 < h && x < i < |n.children| && n.children[i].childNode.Some? && RoomyFrame(t, Frame(n, x), k, h, m)
    ensures RoomyFrame(t, Frame(n.children[i].childNode.value, -1), k + 1, h, m)
  {
    hide Roomy;
    var below := n.children[i].childNode.value.children;
    assert RoomyBelow(t, n.children[i], h - k, m);
    assert DeepRoomy(t, below, h - k - 1, m);
    hide RoomyBelow;
    assert RoomyFrom(t, below, 0, h - k - 1, m);
  }

  lemma RoomyHere(t: Tree, n: Node, x: int, i: nat, k: nat, h: nat, m: nat)
    requires k <= h && x < i
    ensures RoomyFrame(t, Frame(n, x), k, h, m) ==> RoomyFrame(t, Frame(n, i), k, h, m)
  {
    hide Roomy, RoomyBelow;
  }

  /** What has room is not small. */
  lemma RoomyLarge(t: Tree, cs: seq<NodeDataChild>, m: nat)
    requires Roomy(t, cs, m)
    ensures NODE_HEADER + ChildrenSize(cs) >= t.SmallSize()
  {
    WideSize(cs, m);
    MoreSlots(|cs| - Smalls(t, cs), |cs|, m);
  }

  lemma {:induction false} WideSize(cs: seq<NodeDataChild>, m: nat)
    requires Wide(cs, m)
    ensures ChildrenSize(cs) >= Room(|cs|, m)
    decreases |cs|
  {
    if cs != [] {
      var rest := cs[1..];
      assert forall i {:trigger rest[i]} :: 0 <= i < |rest| ==> rest[i] == cs[i + 1];
      WideSize(rest, m);
      assert ChildrenSize(cs) == ChildSize(cs[0]) + ChildrenSize(rest);
      assert Room(|cs|, m) == m + Room(|rest|, m);
    }
  }

  lemma MoreSlots(a: int, b: int, m: nat)
    requires a <= b
    ensures Room(a, m) <= Room(b, m)
  {
  }

  // ----- entries and the slots that lead to them

  lemma EvenPart(t: Tree, a: seq<Entry>, b: seq<Entry>, c: seq<Entry>, m: nat)
    ensures Even(t, a + b + c, m) ==> Even(t, b, m)
  {
    hide Light;
    if Even(t, a + b + c, m) {
      forall i | 0 <= i < |b| ensures Light(t, b[i]) && CHILD_OVERHEAD + |b[i].key| + HASH_SIZE >= m {
        assert (a + b + c)[|a| + i] == b[i];
      }
    }
  }

  lemma EvenLess(t: Tree, s: seq<Entry>, m: nat)
    requires Even(t, s, m)
    ensures Even(t, s, 0)
  {
    hide Light;
  }

  lemma ChildEven(t: Tree, cs: seq<NodeDataChild>, i: nat, h: nat, m: nat)
    requires WfChildren(t, cs, h) && i < |cs| && h > 0 && Even(t, Flat(t, cs, h), m)
    ensures Loadable(t, cs[i]) && Even(t, Flat(t, ChildNode(t, cs[i]).children, h - 1), m)
  {
    hide Flat, Even;
    ChildHasSlots(t, cs, i, h);
    FlatSplit(t, cs, i, h);
    EvenPart(t, Flat(t, cs[..i], h), FlatChild(t, cs[i], h), Flat(t, cs[i + 1..], h), m);
  }

  /** The key of a slot is that of the first entry it leads to. */
  lemma SlotEven(t: Tree, cs: seq<NodeDataChild>, i: nat, h: nat, m: nat)
    requires WfChildren(t, cs, h) && i < |cs| && Even(t, Flat(t, cs, h), m)
    ensures CHILD_OVERHEAD + |cs[i].key| + HASH_SIZE >= m && ChildSize(cs[i]) <= t.HalfSize() - t.SmallSize()
  {
    hide Flat, WfChildren;
    FlatSplit(t, cs, i, h);
    EvenPart(t, Flat(t, cs[..i], h), FlatChild(t, cs[i], h), Flat(t, cs[i + 1..], h), m);
    WfAt(t, cs, i, h);
    WfOne(t, cs[i], h);
    FlatFirst(t, [cs[i]], h);
    assert FlatChild(t, cs[i], h)[0].key == cs[i].key;
  }

  lemma WfAt(t: Tree, cs: seq<NodeDataChild>, i: nat, h: nat)
    requires WfChildren(t, cs, h) && i < |cs|
    ensures WfChild(t, cs[i], h)
  {
  }

  lemma {:induction false} SmallsConcat(t: Tree, a: seq<NodeDataChild>, b: seq<NodeDataChild>)
    ensures Smalls(t, a + b) == Smalls(t, a) + Smalls(t, b)
    decreases |b|
  {
    hide IsSmall;
    if b == [] {
      assert a + b == a;
    } else {
      var front := b[..|b| - 1];
      SmallsConcat(t, a, front);
      assert (a + b)[..|a + b| - 1] == a + front;
    }
  }

  lemma SmallsOne(t: Tree, c: NodeDataChild)
    ensures Smalls(t, [c]) == if IsSmall(t, c) then 1 else 0
  {
    assert [c][..0] == [];
    assert Smalls(t, [c][..0]) == 0;
  }

  /** Slots put in the place of others, with no more small nodes among them for each
      slot that stays. */
  lemma RoomyPut(t: Tree, a: seq<NodeDataChild>, s: seq<NodeDataChild>, s': seq<NodeDataChild>, c: seq<NodeDataChild>, m: nat)
    requires |s'| - Smalls(t, s') >= |s| - Smalls(t, s) && Wide(s', m)
    ensures Roomy(t, a + s + c, m) ==> Roomy(t, a + s' + c, m)
  {
    hide IsSmall, Smalls, Wide, Room;
    WidePut(a, s, s', c, m);
    SmallsConcat(t, a + s, c);
    SmallsConcat(t, a, s);
    SmallsConcat(t, a + s', c);
    SmallsConcat(t, a, s');
    MoreSlots(|a + s + c| - Smalls(t, a + s + c), |a + s' + c| - Smalls(t, a + s' + c), m);
  }

  lemma WidePut(a: seq<NodeDataChild>, s: seq<NodeDataChild>, s': seq<NodeDataChild>, c: seq<NodeDataChild>, m: nat)
    requires Wide(s', m)
    ensures Wide(a + s + c, m) ==> Wide(a + s' + c, m)
  {
    hide ChildSize;
    if Wide(a + s + c, m) {
      forall i | 0 <= i < |a| ensures ChildSize(a[i]) >= m {
        assert (a + s + c)[i] == a[i];
      }
      forall i | 0 <= i < |c| ensures ChildSize(c[i]) >= m {
        assert (a + s + c)[|a| + |s| + i] == c[i];
      }
    }
  }

  /** A node with room goes back into its parent. */
  lemma RoomyUp(t: Tree, p: seq<Frame>, f: Frame, n: Node, x: int, h: nat, m: nat)
    requires |p| + 1 <= h && 0 <= f.index < |f.node.children| && n.children != [] && WfChildren(t, n.children, h - |p| - 1)
    ensures Even(t, Flat(t, n.children, h - |p| - 1), m) && RoomyPath(t, p + [f], h, m)
            && RoomyFrame(t, Frame(n, x), |p| + 1, h, m) ==>
              && RoomyPath(t, p, h, m) && Roomy(t, n.children, m)
              && RoomyFrame(t, Frame(Node(false, Plugged(f, n), None), f.index), |p|, h, m)
              && Plugged(f, n)[f.index].childNode == Some(n)
  {
    hide Roomy, RoomyBelow, Smalls, Flat, Even, WfChild, WfChildren;
    if Even(t, Flat(t, n.children, h - |p| - 1), m) && RoomyPath(t, p + [f], h, m)
       && RoomyFrame(t, Frame(n, x), |p| + 1, h, m) {
      assert (p + [f])[|p|] == f;
      assert RoomyFrame(t, f, |p|, h, m);
      forall j | 0 <= j < |p| ensures RoomyFrame(t, p[j], j, h, m) {
        assert (p + [f])[j] == p[j];
      }
      RoomyLarge(t, n.children, m);
      SlotEven(t, n.children, 0, h - |p| - 1, m);
      var cs, i, c := f.node.children, f.index, Slot(n.children, n);
      SmallsOne(t, cs[i]);
      SmallsOne(t, c);
      RoomyPut(t, cs[..i], [cs[i]], [c], cs[i + 1..], m);
      assert cs == cs[..i] + [cs[i]] + cs[i + 1..];
      assert Plugged(f, n) == cs[..i] + [c] + cs[i + 1..];
    }
  }

  /** Beside an interior node in memory the others are interior nodes, too. */
  lemma NotInMemory(t: Tree, cs: seq<NodeDataChild>, i: nat, h: nat)
    requires WfChildren(t, cs, h) && i < |cs| && h > 1
    requires forall j :: 0 <= j < i ==> cs[j].childNode.Some? ==> cs[j].childNode.value.leafy
    ensures FineUpTo(t, cs, i) && SettledUpTo(t, cs, i, h)
  {
    hide WfChildren;
    forall j | 0 <= j < i ensures cs[j].childNode.None? {
      ChildHasSlots(t, cs, j, h);
    }
  }

  lemma CountPair(t: Tree, cs: seq<NodeDataChild>, i: nat, s: seq<NodeDataChild>, h: nat)
    requires WfChildren(t, cs, h) && i + 2 <= |cs| && h > 0
    ensures Loadable(t, cs[i]) && Loadable(t, cs[i + 1])
    ensures CountNodes(t, PairPut(cs, i, s), h) + 2
            + CountNodes(t, ChildNode(t, cs[i]).children + ChildNode(t, cs[i + 1]).children, h - 1)
         == CountNodes(t, cs, h) + CountNodes(t, s, h)
  {
    hide WfChild, CountNodes;
    var a, c := cs[..i], cs[i + 2..];
    ChildHasSlots(t, cs, i, h);
    ChildHasSlots(t, cs, i + 1, h);
    assert cs == a + [cs[i]] + [cs[i + 1]] + c;
    CountConcat(t, a + [cs[i]] + [cs[i + 1]], c, h);
    CountConcat(t, a + [cs[i]], [cs[i + 1]], h);
    CountConcat(t, a, [cs[i]], h);
    CountOne(t, cs[i], h);
    CountOne(t, cs[i + 1], h);
    CountConcat(t, ChildNode(t, cs[i]).children, ChildNode(t, cs[i + 1]).children, h - 1);
    CountConcat(t, a + s, c, h);
    CountConcat(t, a, s, h);
  }

  /** A merge takes one node away. */
  lemma MergeCount(t: Tree, cs: seq<NodeDataChild>, i: nat, ofs: int, h: nat)
    requires WfChildren(t, cs, h) && i + 2 <= |cs| && h > 0 && (ofs == -1 || ofs == 1)
    ensures Loadable(t, cs[i]) && Loadable(t, cs[i + 1])
    ensures var n := ChildNode(t, cs[if ofs == -1 then i + 1 else i]);
            var sib := ChildNode(t, cs[if ofs == -1 then i else i + 1]);
            && sib.children != []
            && CountNodes(t, PairPut(cs, i, [NewSlot(sib.leafy, Merged(ofs, n, sib))]), h) + 1 == CountNodes(t, cs, h)
  {
    hide WfChild, CountNodes;
    ChildHasSlots(t, cs, i, h);
    ChildHasSlots(t, cs, i + 1, h);
    var n := ChildNode(t, cs[if ofs == -1 then i + 1 else i]);
    var sib := ChildNode(t, cs[if ofs == -1 then i else i + 1]);
    var s := NewSlot(sib.leafy, Merged(ofs, n, sib));
    CountPair(t, cs, i, [s], h);
    CountOne(t, s, h);
  }

  /** Borrowing keeps the number of nodes, and none gets ahead of the walk. */
  lemma BorrowCount(t: Tree, cs: seq<NodeDataChild>, i: nat, ofs: int, h: nat)
    requires WfChildren(t, cs, h) && i + 2 <= |cs| && h > 0 && (ofs == -1 || ofs == 1)
    requires Loadable(t, cs[i]) && Loadable(t, cs[i + 1])
    requires |ChildNode(t, cs[if ofs == -1 then i else i + 1]).children| >= 2
    ensures var n := ChildNode(t, cs[if ofs == -1 then i + 1 else i]);
            var sib := ChildNode(t, cs[if ofs == -1 then i else i + 1]);
            && CountNodes(t, PairPut(cs, i, Borrowed(ofs, n, sib)), h) == CountNodes(t, cs, h)
            && (ofs == 1 ==> CountNodes(t, [NewSlot(sib.leafy, Lent(ofs, sib))] + cs[i + 2..], h)
                             <= CountNodes(t, cs[i + 1..], h))
  {
    hide WfChild, CountNodes;
    var n := ChildNode(t, cs[if ofs == -1 then i + 1 else i]);
    var sib := ChildNode(t, cs[if ofs == -1 then i else i + 1]);
    var x, y := NewSlot(sib.leafy, Lent(ofs, sib)), NewSlot(n.leafy, Taken(ofs, n, sib));
    CountPair(t, cs, i, Borrowed(ofs, n, sib), h);
    CountOne(t, x, h);
    CountOne(t, y, h);
    var last := |sib.children| - 1;
    if ofs == -1 {
      CountConcat(t, [x], [y], h);
      assert [x] + [y] == Borrowed(ofs, n, sib);
      CountConcat(t, Lent(ofs, sib), Taken(ofs, n, sib), h - 1);
      assert Lent(ofs, sib) + Taken(ofs, n, sib) == sib.children + n.children;
    } else {
      CountConcat(t, [y], [x], h);
      assert [y] + [x] == Borrowed(ofs, n, sib);
      CountConcat(t, Taken(ofs, n, sib), Lent(ofs, sib), h - 1);
      assert Taken(ofs, n, sib) + Lent(ofs, sib) == n.children + sib.children;
      CountConcat(t, [x], cs[i + 2..], h);
      assert cs[i + 1..] == [cs[i + 1]] + cs[i + 2..];
      CountConcat(t, [cs[i + 1]], cs[i + 2..], h);
      CountOne(t, cs[i + 1], h);
      assert sib.children == [sib.children[0]] + Lent(ofs, sib);
      CountConcat(t, [sib.children[0]], Lent(ofs, sib), h - 1);
    }
  }

  lemma BorrowPlace(cs: seq<NodeDataChild>, i: nat, ofs: int, n: Node, sib: Node)
    requires i + 2 <= |cs| && |sib.children| >= 2 && (ofs == -1 || ofs == 1)
    ensures var idx, cs' := if ofs == -1 then i + 1 else i, PairPut(cs, i, Borrowed(ofs, n, sib));
            && |cs'| == |cs|
            && cs'[idx] == NewSlot(n.leafy, Taken(ofs, n, sib))
            && (ofs == -1 ==> cs'[idx + 1..] == cs[idx + 1..])
            && (ofs == 1 ==> cs'[idx + 1..] == [NewSlot(sib.leafy, Lent(ofs, sib))] + cs[i + 2..])
  {
  }

  lemma BorrowSize(ofs: int, n: Node, sib: Node)
    requires |sib.children| >= 2
    ensures ChildrenSize(Taken(ofs, n, sib)) > ChildrenSize(n.children)
  {
    var c := if ofs == -1 then sib.children[|sib.children| - 1] else sib.children[0];
    ChildrenSizeConcat([c], n.children);
    ChildrenSizeConcat(n.children, [c]);
  }

  predicate AllLoadable(t: Tree, cs: seq<NodeDataChild>) {
    forall i {:trigger cs[i]} :: 0 <= i < |cs| ==> Loadable(t, cs[i])
  }

  /** The sizes of all the nodes in a list of slots. */
  ghost function SizesBelow(t: Tree, cs: seq<NodeDataChild>): nat
    requires AllLoadable(t, cs)
  {
    if cs == [] then 0 else SizesBelow(t, cs[..|cs| - 1]) + Msgsize(ChildNode(t, cs[|cs| - 1]))
  }

  /** The slots of all the nodes in a list of slots. */
  ghost function Gathered(t: Tree, cs: seq<NodeDataChild>): seq<NodeDataChild>
    requires AllLoadable(t, cs)
  {
    if cs == [] then [] else
    Gathered(t, cs[..|cs| - 1]) + ChildNode(t, cs[|cs| - 1]).children
  }

  lemma {:induction false} GatheredFlat(t: Tree, cs: seq<NodeDataChild>, h: nat)
    requires WfChildren(t, cs, h) && h > 0 && AllLoadable(t, cs)
    ensures WfChildren(t, Gathered(t, cs), h - 1)
    ensures Flat(t, Gathered(t, cs), h - 1) == Flat(t, cs, h)
    ensures cs != [] ==> Gathered(t, cs) != []
    decreases |cs|
  {
    if cs != [] {
      var a, c := cs[..|cs| - 1], cs[|cs| - 1];
      GatheredFlat(t, a, h);
      assert WfChild(t, c, h);
      assert cs == a + [c];
      FlatConcat(t, a, [c], h);
      FlatOne(t, c, h);
      WfJoined(t, Gathered(t, a), ChildNode(t, c).children, h - 1);
      FlatConcat(t, Gathered(t, a), ChildNode(t, c).children, h - 1);
    }
  }

  lemma TooBigHasTwo(t: Tree, cs: seq<NodeDataChild>, h: nat)
    requires t.Valid() && WfChildren(t, cs, h)
    ensures |cs| < 2 ==> NODE_HEADER + ChildrenSize(cs) < t.HalfSize()
  {
    if |cs| == 1 {
      assert ChildrenSize(cs[1..]) == 0;
      assert WfChild(t, cs[0], h);
    }
  }

  lemma TwoFit(t: Tree, cs: seq<NodeDataChild>, h: nat)
    requires t.Valid() && WfChildren(t, cs, h) && |cs| == 2
    ensures NODE_HEADER + ChildrenSize(cs) <= t.nodeMaximumSize
  {
    var rest := cs[1..];
    assert rest == [cs[1]] && rest[1..] == [];
    assert ChildrenSize(rest) == ChildSize(cs[1]) + ChildrenSize(rest[1..]);
    assert ChildrenSize(cs) == ChildSize(cs[0]) + ChildSize(cs[1]);
    assert WfChild(t, cs[0], h) && WfChild(t, cs[1], h);
  }

  /** Putting one half of a split node back and the other half beside it. */
  lemma AfterSplit(t: Tree, p: seq<Frame>, f: Frame, leafy: bool,
                   a: seq<NodeDataChild>, b: seq<NodeDataChild>, h: nat)
    requires t.Valid() && WfPath(t, p + [f], h) && leafy == (h - |p| - 1 == 0)
    requires WfChildren(t, a + b, h - |p| - 1) && a != [] && b != []
    ensures WfPath(t, p, h) && 0 <= f.index < |f.node.children|
    ensures var cs := Plugged(f, Node(leafy, a, None));
            && f.index + 1 <= |cs|
            && var cs' := Spliced(cs, f.index + 1, false, Some(Slot(b, Node(leafy, b, None))));
            && WfChildren(t, cs', h - |p|)
            && Contents(t, p, cs', h) == Contents(t, p + [f], a + b, h)
  {
    hide WfChild, WfChildren, Flat, Left, Right, Plugged, Spliced, WfPath;
    PathPrefix(t, p, f, h);
    var k := h - |p|;
    var n1, n2 := Node(leafy, a, None), Node(leafy, b, None);
    var s := [Slot(a, n1)] + [Slot(b, n2)];
    WfPieces(t, a, b, k - 1);
    SlotWf(t, n1, k - 1);
    SlotWf(t, n2, k - 1);
    WfOne(t, Slot(a, n1), k);
    WfOne(t, Slot(b, n2), k);
    WfJoined(t, [Slot(a, n1)], [Slot(b, n2)], k);
    FlatConcat(t, [Slot(a, n1)], [Slot(b, n2)], k);
    FlatOne(t, Slot(a, n1), k);
    FlatOne(t, Slot(b, n2), k);
    FlatConcat(t, a, b, k - 1);
    ReplaceSlot(t, p, f, s, h);
    BesidePlugged(f, n1, Slot(b, n2));
  }

  /** The node above, with both halves of a split node. */
  lemma UpBeside(t: Tree, p: seq<Frame>, f: Frame, a: Node, b: Node)
    requires 0 <= f.index < |f.node.children| && a.children != [] && b.children != []
    ensures f.index + 1 <= |Plugged(f, a)|
    ensures Up(t, p, Halved(t, Node(false, Spliced(Plugged(f, a), f.index + 1, false, Some(Slot(b.children, b))), None)))
         == Up(t, p + [f], Two(a, b))
  {
    hide Halved, Up;
    UpSnoc(t, p, f, Two(a, b));
    BesidePlugged(f, a, Slot(b.children, b));
    assert SlotOf(a) == [Slot(a.children, a)] && SlotOf(b) == [Slot(b.children, b)];
    assert f.node.children[..f.index] + (SlotOf(a) + SlotOf(b)) == f.node.children[..f.index] + SlotOf(a) + SlotOf(b);
  }

  lemma HalvedIs(t: Tree, n: Node, a: seq<NodeDataChild>, b: seq<NodeDataChild>)
    requires Msgsize(n) > t.nodeMaximumSize && a + b == n.children && |a| == |a + b| / 2
    ensures Halved(t, n) == Two(Node(n.leafy, a, None), Node(n.leafy, b, None))
  {
    hide ChildrenSize;
    assert n.children[..|a|] == a && n.children[|a|..] == b;
  }

  lemma BesidePlugged(f: Frame, n: Node, c: NodeDataChild)
    requires 0 <= f.index < |f.node.children| && n.children != []
    ensures f.index + 1 <= |Plugged(f, n)|
    ensures Spliced(Plugged(f, n), f.index + 1, false, Some(c))
         == f.node.children[..f.index] + ([Slot(n.children, n)] + [c]) + f.node.children[f.index + 1..]
  {
  }

  /** The slots `cs` with the one at `idx` inserted, replaced or removed. */
  function Spliced(cs: seq<NodeDataChild>, idx: int, replace: bool, child: Option<NodeDataChild>)
    : (r: seq<NodeDataChild>)
    requires 0 <= idx <= |cs| - (if replace then 1 else 0)
  {
    cs[..idx] + (if child.Some? then [child.value] else []) + cs[if replace then idx + 1 else idx..]
  }

  // ----- a merge that leaves a small node beside others

  function Item(k: Byte, n: nat): NodeDataChild {
    NodeDataChild([k], seq(n, i => 0), None)
  }

  function Leaf(cs: seq<NodeDataChild>): Node {
    Node(true, cs, None)
  }

  /** A node over one small leaf. */
  function Lonely(): Node {
    Node(false, [Slot([Item(1, 0)], Leaf([Item(1, 0)]))], None)
  }

  function Pair(a: Byte, b: Byte): NodeDataChild {
    Slot([Item(a, 100), Item(b, 100)], Leaf([Item(a, 100), Item(b, 100)]))
  }

  function Beside(): Node {
    Node(false, [Pair(2, 3), Pair(4, 5)], None)
  }

  lemma TwoSlots(t: Tree, c: NodeDataChild, d: NodeDataChild, h: nat)
    ensures ChildrenSize([c]) == ChildSize(c) && ChildrenSize([c, d]) == ChildSize(c) + ChildSize(d)
    ensures Flat(t, [c], h) == FlatChild(t, c, h) && Flat(t, [c, d], h) == FlatChild(t, c, h) + FlatChild(t, d, h)
    ensures WfChild(t, c, h) && WfChild(t, d, h) ==> WfChildren(t, [c, d], h) && WfChildren(t, [c], h)
  {
    hide WfChild;
    assert [c, d] == [c] + [d];
    ChildrenSizeConcat([c], [d]);
    assert [c][1..] == [] && [d][1..] == [];
    FlatConcat(t, [c], [d], h);
    FlatOne(t, c, h);
    FlatOne(t, d, h);
  }

  lemma PairFacts(a: Byte, b: Byte)
    ensures var t, c := Tree(512, map[]), Pair(a, b);
            && WfChild(t, c, 1) && Fine(t, c) && c.key == [a] && ChildSize(c) == 44 && c.childNode.Some?
            && FlatChild(t, c, 1) == [Entry([a], Item(a, 100).value), Entry([b], Item(b, 100).value)]
  {
    var t := Tree(512, map[]);
    assert WfChild(t, Item(a, 100), 0) && WfChild(t, Item(b, 100), 0);
    TwoSlots(t, Item(a, 100), Item(b, 100), 0);
  }

  lemma LonelyFacts()
    ensures var t, c := Tree(512, map[]), Lonely().children[0];
            && WfChild(t, c, 1) && !Fine(t, c) && c.key == [1] && FlatChild(t, c, 1) == [Entry([1], [])]
  {
    var t := Tree(512, map[]);
    assert WfChild(t, Item(1, 0), 0);
    TwoSlots(t, Item(1, 0), Item(1, 0), 0);
  }

  /** In the tree over these two nodes all below them is tidy, but the pass merges the
      first into the second, which leaves its leaf small beside others. */
  lemma OnlyChildMerged()
    ensures var t, p, q := Tree(512, map[]), Lonely(), Beside();
            && WfRoot(t, Node(false, [NewSlot(false, p.children), NewSlot(false, q.children)], None), 2)
            && DeepTidy(t, p.children, 1) && DeepTidy(t, q.children, 1)
            && Msgsize(p) < t.SmallSize() && Msgsize(q) < t.HalfSize()
            && !Tidy(t, Merged(1, p, q))
  {
    hide WfChild, Flat, FlatChild, ChildrenSize, Fine, Pair;
    var t, p, q := Tree(512, map[]), Lonely(), Beside();
    var c, d, e := p.children[0], Pair(2, 3), Pair(4, 5);
    LonelyFacts();
    PairFacts(2, 3);
    PairFacts(4, 5);
    TwoSlots(t, c, c, 1);
    TwoSlots(t, d, e, 1);
    assert ChildSize(c) == 44 && ChildSize(d) == 44 && ChildSize(e) == 44;
    SlotWf(t, p, 1);
    SlotWf(t, q, 1);
    var x, y := NewSlot(false, p.children), NewSlot(false, q.children);
    TwoSlots(t, x, y, 2);
    assert Merged(1, p, q)[0] == c;
  }

  // ----- an entry that is not light

  /** A leaf of at least half the size, nearly all of it one entry. */
  function Lopsided(): Node {
    Leaf([Item(1, 0), Item(2, 228)])
  }

  /** In this tree the second leaf is small and the first one is large enough to lend it
      its last entry, and then is small itself beside the other. */
  lemma LenderLeftSmall()
    ensures var t, n, sib := Tree(512, map[]), Leaf([Item(3, 0)]), Lopsided();
            var cs := [NewSlot(true, sib.children), NewSlot(true, n.children)];
            && WfRoot(t, Node(false, cs, None), 1)
            && Msgsize(n) < t.SmallSize() && Msgsize(sib) >= t.HalfSize()
            && Msgsize(Node(true, Taken(-1, n, sib), None)) >= t.SmallSize()
            && !Tidy(t, PairPut(cs, 0, Borrowed(-1, n, sib)))
            && !Light(t, Entry([2], Item(2, 228).value))
  {
    hide WfChild, Flat, FlatChild, ChildrenSize;
    var t, n, sib := Tree(512, map[]), Leaf([Item(3, 0)]), Lopsided();
    var a, b, c := Item(1, 0), Item(2, 228), Item(3, 0);
    ItemFacts(1, 0);
    ItemFacts(2, 228);
    ItemFacts(3, 0);
    TwoSlots(t, a, b, 0);
    TwoSlots(t, b, c, 0);
    TwoSlots(t, c, c, 0);
    TwoSlots(t, a, a, 0);
    SlotWf(t, sib, 0);
    SlotWf(t, n, 0);
    var x, y := NewSlot(true, sib.children), NewSlot(true, n.children);
    TwoSlots(t, x, y, 1);
    FlatOne(t, x, 1);
    FlatOne(t, y, 1);
    var s := Borrowed(-1, n, sib);
    assert PairPut([x, y], 0, s) == s;
    assert s[0].childNode.value.children == [a];
    assert Taken(-1, n, sib) == [b, c];
    assert !Fine(t, s[0]);
  }

  lemma ItemFacts(k: Byte, n: nat)
    requires n < 237
    ensures var t, c := Tree(512, map[]), Item(k, n);
            && WfChild(t, c, 0) && ChildSize(c) == 12 + n && FlatChild(t, c, 0) == [Entry([k], c.value)]
  {
  }

  // ----- the trees of the file system

  /** With nodes of 4096 bytes and slots of at least 52, which is what a key of nine bytes
      and a hash take, twenty of the at most 78 slots are enough. */
  lemma TwentyStay(t: Tree, cs: seq<NodeDataChild>)
    requires t.nodeMaximumSize == 4096 && Wide(cs, CHILD_OVERHEAD + 9 + HASH_SIZE)
    ensures |cs| - Smalls(t, cs) >= 20 ==> Roomy(t, cs, CHILD_OVERHEAD + 9 + HASH_SIZE)
    ensures NODE_HEADER + ChildrenSize(cs) <= t.nodeMaximumSize ==> |cs| <= 78
  {
    WideSize(cs, CHILD_OVERHEAD + 9 + HASH_SIZE);
  }
}
