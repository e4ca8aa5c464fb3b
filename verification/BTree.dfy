/** The values of the copy-on-write B+ tree: nodes, their children, the block
    store behind them, and what a node means as a sequence of leaf entries. */
module BTree {
  import opened Keys

  type Value = Bytes

  type BlockId = Bytes

  /** One slot of a node.  In a leaf `value` is client data.  In an interior
      node the slot stands for a node: the one held in memory, if there is one,
      otherwise the one stored under block id `value`. */
  datatype NodeDataChild = NodeDataChild(key: Key, value: Value, childNode: Option<Node>)

  datatype Node = Node(leafy: bool, children: seq<NodeDataChild>, blockId: Option<BlockId>)

  datatype Entry = Entry(key: Key, value: Value)

  /** A node as it is stored: no slot carries a node in memory. */
  datatype NodeData = NodeData(leafy: bool, children: seq<Entry>)

  const MINIMUM_NODE_MAXIMUM_SIZE := 512
  const MAXIMUM_TREE_DEPTH := 10
  const HASH_SIZE := 32

  // Sizes the message encoder gives to a node without children and to a slot
  // with an empty key and value.
  const NODE_HEADER := 7
  const CHILD_OVERHEAD := 11

  datatype Tree = Tree(nodeMaximumSize: nat, backend: map<BlockId, NodeData>) {
    function HalfSize(): nat { nodeMaximumSize / 2 }

    function SmallSize(): nat { HalfSize() / 2 }

    ghost predicate Valid() { nodeMaximumSize >= MINIMUM_NODE_MAXIMUM_SIZE }
  }

  function Placeholder(): Value {
    seq(HASH_SIZE, i => 120)
  }

  function ChildSize(c: NodeDataChild): nat {
    CHILD_OVERHEAD + |c.key| + |c.value|
  }

  function ChildrenSize(cs: seq<NodeDataChild>): nat {
    if cs == [] then 0 else ChildSize(cs[0]) + ChildrenSize(cs[1..])
  }

  function Msgsize(n: Node): nat {
    NODE_HEADER + ChildrenSize(n.children)
  }

  function FromData(nd: NodeData, id: BlockId): Node {
    Node(nd.leafy,
         seq(|nd.children|, i requires 0 <= i < |nd.children| =>
           NodeDataChild(nd.children[i].key, nd.children[i].value, None)),
         Some(id))
  }

  /** Whether the slot leads to a node at all. */
  predicate Loadable(t: Tree, c: NodeDataChild) {
    c.childNode.Some? || c.value in t.backend
  }

  /** The node a slot of an interior node stands for. */
  function ChildNode(t: Tree, c: NodeDataChild): Node
    requires Loadable(t, c)
  {
    if c.childNode.Some? then c.childNode.value else FromData(t.backend[c.value], c.value)
  }

  /** A node whose block id is known is exactly what is stored under it. */
  ghost predicate CleanAsStored(t: Tree, n: Node) {
    n.blockId.Some? ==>
      && n.blockId.value in t.backend
      && n == FromData(t.backend[n.blockId.value], n.blockId.value)
      && |n.blockId.value| <= HASH_SIZE
  }

  /** The size assumption: a node with just this slot is below `HalfSize`,
      whether the key comes with its own value or with the placeholder. */
  ghost predicate Fits(t: Tree, c: NodeDataChild) {
    && NODE_HEADER + CHILD_OVERHEAD + |c.key| + |c.value| < t.HalfSize()
    && NODE_HEADER + CHILD_OVERHEAD + |c.key| + HASH_SIZE < t.HalfSize()
  }

  // ----- structure

  /** `c` is a well-formed slot of a node that is `h` levels above the leaves. */
  ghost predicate WfChild(t: Tree, c: NodeDataChild, h: nat)
    decreases h, 0
  {
    && c.key != []
    && Fits(t, c)
    && if h == 0 then c.childNode.None? else
       && Loadable(t, c) && |c.value| <= HASH_SIZE
       && var n := ChildNode(t, c);
       && n.leafy == (h == 1)
       && CleanAsStored(t, n)
       && n.children != []
       && n.children[0].key == c.key
       && WfChildren(t, n.children, h - 1)
  }

  ghost predicate WfChildren(t: Tree, cs: seq<NodeDataChild>, h: nat)
    decreases h, 1
  {
    forall i {:trigger cs[i]} :: 0 <= i < |cs| ==> WfChild(t, cs[i], h)
  }

  /** `n` is well formed, except that it may have no children. */
  ghost predicate WfNode(t: Tree, n: Node, h: nat) {
    && n.leafy == (h == 0)
    && CleanAsStored(t, n)
    && WfChildren(t, n.children, h)
  }

  // ----- meaning

  /** The leaf entries under one slot, left to right. */
  ghost function FlatChild(t: Tree, c: NodeDataChild, h: nat): seq<Entry>
    decreases h, 0
  {
    if h == 0 then [Entry(c.key, c.value)]
    else if Loadable(t, c) then Flat(t, ChildNode(t, c).children, h - 1)
    else []
  }

  /** The leaf entries under a list of slots, left to right. */
  ghost function Flat(t: Tree, cs: seq<NodeDataChild>, h: nat): seq<Entry>
    decreases h, 1, |cs|
  {
    if cs == [] then [] else FlatChild(t, cs[0], h) + Flat(t, cs[1..], h)
  }

  ghost predicate Sorted(s: seq<Entry>) {
    forall i, j :: 0 <= i < j < |s| ==> Less(s[i].key, s[j].key)
  }

  /** A whole tree, `h` levels above its leaves. */
  ghost predicate WfRoot(t: Tree, n: Node, h: nat) {
    && WfNode(t, n, h)
    && (h > 0 ==> n.children != [])
    && Sorted(Flat(t, n.children, h))
  }

  /** The map a sorted sequence of entries stands for. */
  ghost function ToMap(s: seq<Entry>): map<Key, Value> {
    if s == [] then map[] else ToMap(s[..|s| - 1])[s[|s| - 1].key := s[|s| - 1].value]
  }

  ghost function TreeMap(t: Tree, n: Node, h: nat): map<Key, Value> {
    ToMap(Flat(t, n.children, h))
  }

  // ----- lemmas about sizes and contents

  lemma {:induction false} ChildrenSizeConcat(a: seq<NodeDataChild>, b: seq<NodeDataChild>)
    ensures ChildrenSize(a + b) == ChildrenSize(a) + ChildrenSize(b)
  {
    if a == [] {
      assert a + b == b;
    } else {
      assert (a + b)[1..] == a[1..] + b;
      ChildrenSizeConcat(a[1..], b);
    }
  }

  lemma {:induction false} FlatConcat(t: Tree, a: seq<NodeDataChild>, b: seq<NodeDataChild>, h: nat)
    ensures Flat(t, a + b, h) == Flat(t, a, h) + Flat(t, b, h)
    decreases |a|
  {
    if a == [] {
      assert a + b == b;
    } else {
      assert (a + b)[1..] == a[1..] + b;
      FlatConcat(t, a[1..], b, h);
    }
  }

  lemma FlatNone(t: Tree, h: nat)
    ensures Flat(t, [], h) == []
  {
  }

  lemma FlatOne(t: Tree, c: NodeDataChild, h: nat)
    ensures Flat(t, [c], h) == FlatChild(t, c, h)
  {
    assert Flat(t, [c][1..], h) == [];
  }

  /** Cutting a list of slots around slot `i` cuts its entries the same way. */
  lemma FlatSplit(t: Tree, cs: seq<NodeDataChild>, i: nat, h: nat)
    requires i < |cs|
    ensures Flat(t, cs, h) == Flat(t, cs[..i], h) + FlatChild(t, cs[i], h) + Flat(t, cs[i + 1..], h)
  {
    assert cs == cs[..i] + ([cs[i]] + cs[i + 1..]);
    FlatConcat(t, cs[..i], [cs[i]] + cs[i + 1..], h);
    assert ([cs[i]] + cs[i + 1..])[1..] == cs[i + 1..];
  }

  lemma FlatCut(t: Tree, cs: seq<NodeDataChild>, i: nat, h: nat)
    requires i <= |cs|
    ensures Flat(t, cs, h) == Flat(t, cs[..i], h) + Flat(t, cs[i..], h)
  {
    assert cs == cs[..i] + cs[i..];
    FlatConcat(t, cs[..i], cs[i..], h);
  }

  /** The first key of a well-formed list of slots is the key of its first entry. */
  lemma {:induction false} FlatFirst(t: Tree, cs: seq<NodeDataChild>, h: nat)
    requires WfChildren(t, cs, h) && cs != []
    ensures FlatChild(t, cs[0], h) != [] && FlatChild(t, cs[0], h)[0].key == cs[0].key
    ensures Flat(t, cs, h) != [] && Flat(t, cs, h)[0].key == cs[0].key
    decreases h
  {
    if h > 0 {
      FlatFirst(t, ChildNode(t, cs[0]).children, h - 1);
    }
  }

  lemma FlatLeafLength(t: Tree, cs: seq<NodeDataChild>)
    ensures |Flat(t, cs, 0)| == |cs|
    ensures forall i :: 0 <= i < |cs| ==> Flat(t, cs, 0)[i] == Entry(cs[i].key, cs[i].value)
  {
    if cs != [] {
      FlatLeafLength(t, cs[1..]);
    }
  }

  lemma SortedParts(a: seq<Entry>, b: seq<Entry>)
    requires Sorted(a + b)
    ensures Sorted(a) && Sorted(b)
    ensures forall i, j :: 0 <= i < |a| && 0 <= j < |b| ==> Less(a[i].key, b[j].key)
  {
    forall i, j | 0 <= i < j < |a| ensures Less(a[i].key, a[j].key) {
      assert (a + b)[i] == a[i] && (a + b)[j] == a[j];
    }
    forall i, j | 0 <= i < j < |b| ensures Less(b[i].key, b[j].key) {
      assert (a + b)[|a| + i] == b[i] && (a + b)[|a| + j] == b[j];
    }
    forall i, j | 0 <= i < |a| && 0 <= j < |b| ensures Less(a[i].key, b[j].key) {
      assert (a + b)[i] == a[i] && (a + b)[|a| + j] == b[j];
    }
  }

  /** Dropping a middle part keeps a sequence sorted. */
  lemma SortedWithout(a: seq<Entry>, b: seq<Entry>, c: seq<Entry>)
    requires Sorted(a + b + c)
    ensures Sorted(a + c)
  {
    var s := a + b + c;
    forall i, j | 0 <= i < j < |a + c| ensures Less((a + c)[i].key, (a + c)[j].key) {
      var i' := if i < |a| then i else i + |b|;
      var j' := if j < |a| then j else j + |b|;
      assert s[i'] == (a + c)[i] && s[j'] == (a + c)[j];
    }
  }

  /** What `CheckNodeStructure` tests of a list of slots. */
  ghost predicate StructureOk(cs: seq<NodeDataChild>) {
    && (forall i :: 0 <= i < |cs| ==> cs[i].key != [])
    && (forall i :: 0 < i < |cs| ==> Less(cs[i - 1].key, cs[i].key))
  }

  /** Sorted entries make sorted slots, at every level: the check never fails. */
  lemma SortedSlots(t: Tree, cs: seq<NodeDataChild>, h: nat)
    requires WfChildren(t, cs, h) && Sorted(Flat(t, cs, h))
    ensures StructureOk(cs)
  {
    forall i | 0 < i < |cs| ensures Less(cs[i - 1].key, cs[i].key) {
      FlatCut(t, cs, i - 1, h);
      SortedParts(Flat(t, cs[..i - 1], h), Flat(t, cs[i - 1..], h));
      FlatFirst(t, cs[i - 1..], h);
      FlatFirst(t, cs[i..], h);
      assert cs[i - 1..][1..] == cs[i..];
      var a, b := FlatChild(t, cs[i - 1], h), Flat(t, cs[i..], h);
      assert Flat(t, cs[i - 1..], h) == a + b;
      SortedParts(a, b);
      assert Less(a[0].key, b[0].key);
    }
  }

  lemma WfPieces(t: Tree, a: seq<NodeDataChild>, b: seq<NodeDataChild>, h: nat)
    requires WfChildren(t, a + b, h)
    ensures WfChildren(t, a, h) && WfChildren(t, b, h)
  {
    forall i | 0 <= i < |a| ensures WfChild(t, a[i], h) {
      assert (a + b)[i] == a[i];
    }
    forall i | 0 <= i < |b| ensures WfChild(t, b[i], h) {
      assert (a + b)[|a| + i] == b[i];
    }
  }

  lemma WfJoined(t: Tree, a: seq<NodeDataChild>, b: seq<NodeDataChild>, h: nat)
    requires WfChildren(t, a, h) && WfChildren(t, b, h)
    ensures WfChildren(t, a + b, h)
  {
    forall i | 0 <= i < |a + b| ensures WfChild(t, (a + b)[i], h) {
      if i < |a| {
        assert (a + b)[i] == a[i];
      } else {
        assert (a + b)[i] == b[i - |a|];
      }
    }
  }
}
