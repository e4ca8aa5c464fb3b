/** Setting and removing a key as a recursion from the root down: what a tree
    looks like after an edit, before small nodes are tended to. */
module Edits {
  import opened Keys
  import opened BTree
  import opened Path

  /** What an edit makes of a node: a node, or two if it was cut in half. */
  datatype Pieces = One(node: Node) | Two(left: Node, right: Node)

  /** A node that is too big is cut at half the number of its slots. */
  function Halved(t: Tree, n: Node): Pieces {
    if Msgsize(n) <= t.nodeMaximumSize then One(n) else
    var i := |n.children| / 2;
    Two(Node(n.leafy, n.children[..i], None), Node(n.leafy, n.children[i..], None))
  }

  /** The slot for a node, unless it is empty. */
  function SlotOf(n: Node): seq<NodeDataChild> {
    if n.children == [] then [] else [Slot(n.children, n)]
  }

  /** The node above, with `x` in the place of the node in its slot.  Only where a slot
      is added its size is looked at. */
  function Parted(t: Tree, f: Frame, x: Pieces): Pieces {
    if !(0 <= f.index < |f.node.children|) then x else
    match x
    case One(n) => One(Node(false, Plugged(f, n), None))
    case Two(a, b) =>
      Halved(t, Node(false, f.node.children[..f.index] + SlotOf(a) + SlotOf(b) + f.node.children[f.index + 1..], None))
  }

  /** The whole tree: two pieces get a new root. */
  function Whole(x: Pieces): Node {
    match x
    case One(n) => n
    case Two(a, b) => Node(false, SlotOf(a) + SlotOf(b), None)
  }

  function First(x: Pieces): Node {
    match x
    case One(n) => n
    case Two(a, _) => a
  }

  // ----- where a key belongs

  /** The last slot whose key is not above `key`, or slot 0. */
  function Toward(cs: seq<NodeDataChild>, key: Key): (i: nat)
    ensures cs != [] ==> i < |cs|
  {
    if |cs| <= 1 then 0 else
    if Less(key, cs[|cs| - 1].key) then Toward(cs[..|cs| - 1], key) else |cs| - 1
  }

  /** How many slots are below `key`. */
  function Below(cs: seq<NodeDataChild>, key: Key): (i: nat)
    ensures i <= |cs|
  {
    if cs == [] then 0 else
    if Less(cs[|cs| - 1].key, key) then |cs| else Below(cs[..|cs| - 1], key)
  }

  lemma {:induction false} TowardIs(cs: seq<NodeDataChild>, key: Key, i: nat)
    requires i < |cs| && (i > 0 ==> !Less(key, cs[i].key)) && forall j :: i < j < |cs| ==> Less(key, cs[j].key)
    ensures Toward(cs, key) == i
    decreases |cs|
  {
    hide Less;
    if i < |cs| - 1 {
      TowardIs(cs[..|cs| - 1], key, i);
    }
  }

  lemma {:induction false} BelowIs(cs: seq<NodeDataChild>, key: Key, i: nat)
    requires i <= |cs| && (forall j :: 0 <= j < i ==> Less(cs[j].key, key))
    requires forall j :: i <= j < |cs| ==> !Less(cs[j].key, key)
    ensures Below(cs, key) == i
    decreases |cs|
  {
    hide Less;
    if i < |cs| {
      BelowIs(cs[..|cs| - 1], key, i);
    }
  }

  // ----- the edit

  datatype Change = Put(value: Value) | Remove

  predicate Has(cs: seq<NodeDataChild>, key: Key) {
    Below(cs, key) < |cs| && cs[Below(cs, key)].key == key
  }

  /** The slots of a leaf after the change. */
  function LeafSlots(cs: seq<NodeDataChild>, key: Key, c: Change): seq<NodeDataChild> {
    var i := Below(cs, key);
    cs[..i] + (if c.Put? then [NodeDataChild(key, c.value, None)] else []) + cs[if Has(cs, key) then i + 1 else i..]
  }

  /** A leaf is cut only if it gets a new slot, and left alone if nothing changes. */
  function EditLeaf(t: Tree, n: Node, key: Key, c: Change): Pieces {
    var cs := LeafSlots(n.children, key, c);
    if cs == n.children then One(n)
    else if c.Put? && !Has(n.children, key) then Halved(t, Node(n.leafy, cs, None))
    else One(Node(n.leafy, cs, None))
  }

  /** Whether a node has somewhere to go down to. */
  predicate Leads(t: Tree, n: Node, h: nat, key: Key) {
    h > 0 && n.children != [] && Loadable(t, n.children[Toward(n.children, key)])
  }

  function Next(t: Tree, n: Node, h: nat, key: Key): Node
    requires Leads(t, n, h, key)
  {
    ChildNode(t, n.children[Toward(n.children, key)])
  }

  /** The leaf where `key` is or belongs. */
  function LeafOf(t: Tree, n: Node, h: nat, key: Key): Node
    decreases h
  {
    if Leads(t, n, h, key) then LeafOf(t, Next(t, n, h, key), h - 1, key) else n
  }

  function Edited(t: Tree, n: Node, h: nat, key: Key, c: Change): Pieces
    decreases h
  {
    if Leads(t, n, h, key)
    then Parted(t, Frame(n, Toward(n.children, key)), Edited(t, Next(t, n, h, key), h - 1, key, c))
    else EditLeaf(t, n, key, c)
  }

  /** The leaf that is changed is small afterwards: of a leaf that is cut, only the first
      half is looked at. */
  predicate Shrinks(t: Tree, n: Node, h: nat, key: Key, c: Change) {
    var l := LeafOf(t, n, h, key);
    LeafSlots(l.children, key, c) != l.children && Msgsize(First(EditLeaf(t, l, key, c))) <= t.SmallSize()
  }

  // ----- the same from the leaf up

  function Up(t: Tree, p: seq<Frame>, x: Pieces): Pieces {
    if p == [] then x else Up(t, p[..|p| - 1], Parted(t, p[|p| - 1], x))
  }

  lemma UpNone(t: Tree, x: Pieces)
    ensures Up(t, [], x) == x
  {
  }

  lemma UpSnoc(t: Tree, p: seq<Frame>, f: Frame, x: Pieces)
    ensures Up(t, p + [f], x) == Up(t, p, Parted(t, f, x))
  {
    assert (p + [f])[..|p|] == p;
  }

  lemma {:induction false} UpOne(t: Tree, p: seq<Frame>, n: Node)
    ensures Up(t, p, One(n)).One?
    decreases |p|
  {
    if p != [] {
      var f := p[|p| - 1];
      UpOne(t, p[..|p| - 1], Parted(t, f, One(n)).node);
    }
  }

  ghost function NodeAt(p: seq<Frame>, n: Node, k: nat): Node
    requires k <= |p|
  {
    if k < |p| then p[k].node else n
  }

  /** The path leads from node to node down to `n`, always toward `key`. */
  ghost predicate Aimed(t: Tree, p: seq<Frame>, n: Node, key: Key) {
    forall k {:trigger p[k]} :: 0 <= k < |p| ==>
      && p[k].node.children != [] && p[k].index == Toward(p[k].node.children, key)
      && Loadable(t, p[k].node.children[p[k].index])
      && NodeAt(p, n, k + 1) == ChildNode(t, p[k].node.children[p[k].index])
  }

  /** The path leads from node to node down to `n`. */
  ghost predicate Chained(t: Tree, p: seq<Frame>, n: Node) {
    forall k {:trigger p[k]} :: 0 <= k < |p| ==>
      && 0 <= p[k].index < |p[k].node.children| && Loadable(t, p[k].node.children[p[k].index])
      && NodeAt(p, n, k + 1) == ChildNode(t, p[k].node.children[p[k].index])
  }

  lemma ChainedAt(t: Tree, p: seq<Frame>, n: Node, k: nat)
    requires Chained(t, p, n) && k < |p|
    ensures 0 <= p[k].index < |p[k].node.children| && Loadable(t, p[k].node.children[p[k].index])
    ensures NodeAt(p, n, k) == p[k].node && NodeAt(p, n, k + 1) == ChildNode(t, p[k].node.children[p[k].index])
  {
  }

  ghost predicate Within(s: seq<Entry>, key: Key) {
    exists i :: 0 <= i < |s| && s[i].key == key
  }

  lemma WithinPart(a: seq<Entry>, b: seq<Entry>, c: seq<Entry>, key: Key)
    requires Within(b, key)
    ensures Within(a + b + c, key)
  {
    var i :| 0 <= i < |b| && b[i].key == key;
    assert (a + b + c)[|a| + i] == b[i];
  }

  lemma SlotEntries(t: Tree, n: Node, i: nat, h: nat)
    requires i < |n.children| && h > 0 && Loadable(t, n.children[i])
    ensures Flat(t, n.children, h)
         == Flat(t, n.children[..i], h) + Flat(t, ChildNode(t, n.children[i]).children, h - 1) + Flat(t, n.children[i + 1..], h)
  {
    FlatSplit(t, n.children, i, h);
  }

  /** What is below the end of the path is below every node of it. */
  lemma {:induction false} WithinAbove(t: Tree, p: seq<Frame>, n: Node, k: nat, h: nat, key: Key)
    requires |p| <= h && k <= |p| && Chained(t, p, n) && Within(Flat(t, n.children, h - |p|), key)
    ensures Within(Flat(t, NodeAt(p, n, k).children, h - k), key)
    decreases |p| - k
  {
    hide Flat, Within, Chained;
    if k < |p| {
      WithinAbove(t, p, n, k + 1, h, key);
      ChainedAt(t, p, n, k);
      var m, i := p[k].node, p[k].index;
      SlotEntries(t, m, i, h - k);
      WithinPart(Flat(t, m.children[..i], h - k), Flat(t, ChildNode(t, m.children[i]).children, h - k - 1),
                 Flat(t, m.children[i + 1..], h - k), key);
    }
  }

  lemma {:induction false} SortedDown(t: Tree, p: seq<Frame>, n: Node, k: nat, h: nat)
    requires |p| <= h && k <= |p| && Chained(t, p, n) && Sorted(Flat(t, NodeAt(p, n, 0).children, h))
    ensures Sorted(Flat(t, NodeAt(p, n, k).children, h - k))
    decreases k
  {
    hide Flat, Sorted, Chained;
    if k > 0 {
      SortedDown(t, p, n, k - 1, h);
      ChainedAt(t, p, n, k - 1);
      var m, i := p[k - 1].node, p[k - 1].index;
      SlotEntries(t, m, i, h - k + 1);
      var a, b := Flat(t, m.children[..i], h - k + 1), Flat(t, ChildNode(t, m.children[i]).children, h - k);
      SortedParts(a + b, Flat(t, m.children[i + 1..], h - k + 1));
      SortedParts(a, b);
    }
  }

  /** The slot that leads to an entry is the one that a search for its key takes. */
  lemma TowardEntry(t: Tree, n: Node, i: nat, h: nat, key: Key)
    requires WfNode(t, n, h) && h > 0 && Sorted(Flat(t, n.children, h)) && i < |n.children|
    requires Loadable(t, n.children[i]) && Within(Flat(t, ChildNode(t, n.children[i]).children, h - 1), key)
    ensures Toward(n.children, key) == i
  {
    hide Flat, WfChild, Less, Toward, ChildNode;
    var cs := n.children;
    SlotEntries(t, n, i, h);
    var a, b, c := Flat(t, cs[..i], h), Flat(t, ChildNode(t, cs[i]).children, h - 1), Flat(t, cs[i + 1..], h);
    assert a + b + c == a + (b + c);
    SortedParts(a, b + c);
    var x :| 0 <= x < |b| && b[x].key == key;
    assert (b + c)[x] == b[x];
    FirstOf(t, n, i, h);
    assert !Less(key, cs[i].key) by {
      LessIrreflexive(key);
      if x > 0 {
        assert Less((b + c)[0].key, (b + c)[x].key);
        LessAsymmetric(cs[i].key, key);
      }
    }
    forall j | i < j < |cs| ensures Less(key, cs[j].key) {
      WfAfter(t, cs, i + 1, j, h);
      FlatCut(t, cs[i + 1..], j - i - 1, h);
      assert cs[i + 1..][j - i - 1..] == cs[j..];
      FlatFirst(t, cs[j..], h);
      var y := |Flat(t, cs[i + 1..][..j - i - 1], h)|;
      assert c[y] == Flat(t, cs[j..], h)[0];
      assert (b + c)[|b| + y] == c[y];
    }
    TowardIs(cs, key, i);
  }

  lemma FirstOf(t: Tree, n: Node, i: nat, h: nat)
    requires WfNode(t, n, h) && h > 0 && i < |n.children|
    ensures Loadable(t, n.children[i])
    ensures var b := Flat(t, ChildNode(t, n.children[i]).children, h - 1); b != [] && b[0].key == n.children[i].key
  {
    hide Flat;
    assert WfChild(t, n.children[i], h);
    FlatFirst(t, ChildNode(t, n.children[i]).children, h - 1);
  }

  lemma WfAfter(t: Tree, cs: seq<NodeDataChild>, i: nat, j: nat, h: nat)
    requires WfChildren(t, cs, h) && i <= j <= |cs|
    ensures WfChildren(t, cs[i..], h) && WfChildren(t, cs[j..], h)
  {
    hide WfChild;
  }

  /** A path to an entry is the way that a search for its key takes. */
  lemma PathIsAimed(t: Tree, p: seq<Frame>, n: Node, h: nat, key: Key)
    requires WfPath(t, p, h) && Chained(t, p, n) && Sorted(Flat(t, NodeAt(p, n, 0).children, h))
    requires Within(Flat(t, n.children, h - |p|), key)
    ensures Aimed(t, p, n, key)
  {
    hide Flat, WfPath, Sorted, Within, Toward, Less, Chained, NodeAt, ChildNode;
    PathShort(t, p, h);
    forall k | 0 <= k < |p|
      ensures p[k].node.children != [] && p[k].index == Toward(p[k].node.children, key)
      ensures Loadable(t, p[k].node.children[p[k].index])
      ensures NodeAt(p, n, k + 1) == ChildNode(t, p[k].node.children[p[k].index])
    {
      ChainedAt(t, p, n, k);
      WithinAbove(t, p, n, k + 1, h, key);
      SortedDown(t, p, n, k, h);
      NodeInPath(t, p, k, h);
      TowardEntry(t, p[k].node, p[k].index, h - k, key);
    }
  }

  lemma PathShort(t: Tree, p: seq<Frame>, h: nat)
    requires WfPath(t, p, h)
    ensures |p| <= h
  {
    hide WfNode;
  }

  lemma NodeInPath(t: Tree, p: seq<Frame>, k: nat, h: nat)
    requires WfPath(t, p, h) && k < |p|
    ensures WfNode(t, p[k].node, h - k)
  {
    hide WfNode;
  }

  /** The same at the leaf. */
  lemma BelowEntry(t: Tree, cs: seq<NodeDataChild>, i: nat)
    requires Sorted(Flat(t, cs, 0)) && i < |cs|
    ensures Below(cs, cs[i].key) == i && Within(Flat(t, cs, 0), cs[i].key)
  {
    hide Less, Below;
    FlatLeafLength(t, cs);
    var s, key := Flat(t, cs, 0), cs[i].key;
    assert s[i].key == key;
    LessIrreflexive(key);
    forall j | 0 <= j < |cs| ensures Less(cs[j].key, key) <==> j < i {
      assert s[j].key == cs[j].key;
      if j > i {
        LessAsymmetric(key, cs[j].key);
      }
    }
    BelowIs(cs, key, i);
  }

  lemma AimedStart(t: Tree, n: Node, key: Key)
    ensures Aimed(t, [], n, key) && NodeAt([], n, 0) == n
  {
  }

  lemma AimedSnoc(t: Tree, p: seq<Frame>, n: Node, key: Key, i: nat)
    requires Aimed(t, p, n, key) && n.children != [] && i == Toward(n.children, key) && Loadable(t, n.children[i])
    ensures Aimed(t, p + [Frame(n, i)], ChildNode(t, n.children[i]), key)
    ensures NodeAt(p + [Frame(n, i)], ChildNode(t, n.children[i]), 0) == NodeAt(p, n, 0)
  {
    hide Toward;
  }

  lemma AimedPrefix(t: Tree, p: seq<Frame>, n: Node, key: Key, k: nat)
    requires Aimed(t, p, n, key) && k <= |p|
    ensures Aimed(t, p[..k], NodeAt(p, n, k), key) && NodeAt(p[..k], NodeAt(p, n, k), 0) == NodeAt(p, n, 0)
  {
    hide Toward;
    var q, m := p[..k], NodeAt(p, n, k);
    forall j | 0 <= j < |q|
      ensures q[j].node.children != [] && q[j].index == Toward(q[j].node.children, key)
      ensures Loadable(t, q[j].node.children[q[j].index])
      ensures NodeAt(q, m, j + 1) == ChildNode(t, q[j].node.children[q[j].index])
    {
      assert q[j] == p[j];
    }
  }

  lemma AimedAt(t: Tree, p: seq<Frame>, n: Node, key: Key, k: nat)
    requires Aimed(t, p, n, key) && k < |p|
    ensures var f := p[k];
            && f.node.children != [] && f == Frame(f.node, Toward(f.node.children, key))
            && 0 <= f.index < |f.node.children| && Loadable(t, f.node.children[f.index])
            && NodeAt(p, n, k + 1) == ChildNode(t, f.node.children[f.index])
  {
  }

  /** One level of an edit. */
  lemma WfLeads(t: Tree, n: Node, h: nat, key: Key)
    requires WfNode(t, n, h) && h > 0 && n.children != []
    ensures Leads(t, n, h, key) && WfNode(t, Next(t, n, h, key), h - 1) && Next(t, n, h, key).children != []
  {
    hide Toward;
    assert WfChild(t, n.children[Toward(n.children, key)], h);
  }

  /** Editing the leaf at the end of the path and going up is editing from level `k`
      down, and then going up. */
  lemma {:induction false} EditedFrom(t: Tree, p: seq<Frame>, n: Node, k: nat, h: nat, key: Key, c: Change)
    requires |p| == h && Aimed(t, p, n, key) && k <= h
    ensures Up(t, p[..k], Edited(t, NodeAt(p, n, k), h - k, key, c)) == Up(t, p, EditLeaf(t, n, key, c))
    ensures LeafOf(t, NodeAt(p, n, k), h - k, key) == n
    decreases h - k
  {
    hide EditLeaf, Parted, Toward, Up, Aimed;
    if k == |p| {
      assert p[..k] == p;
    } else {
      EditedFrom(t, p, n, k + 1, h, key, c);
      var f, m := p[k], NodeAt(p, n, k + 1);
      assert p[..k + 1] == p[..k] + [f];
      AimedAt(t, p, n, key, k);
      UpSnoc(t, p[..k], f, Edited(t, m, h - k - 1, key, c));
    }
  }

  // ----- what it does to the shape

  /** A new key in a leaf: it stays one node exactly if it fits. */
  lemma InsertedLeaf(t: Tree, n: Node, key: Key, value: Value)
    requires !Has(n.children, key)
    ensures var x := Edited(t, n, 0, key, Put(value));
            && (x.One? <==> Msgsize(n) + CHILD_OVERHEAD + |key| + |value| <= t.nodeMaximumSize)
            && (x.One? ==> Msgsize(x.node) == Msgsize(n) + CHILD_OVERHEAD + |key| + |value|)
            && (x.Two? ==> |x.left.children| == (|n.children| + 1) / 2
                           && x.left.children + x.right.children == LeafSlots(n.children, key, Put(value)))
  {
    hide Below, ChildrenSize;
    var i := Below(n.children, key);
    var a, b, e := n.children[..i], n.children[i..], NodeDataChild(key, value, None);
    assert n.children == a + b;
    InsertedSize(a, e, b);
    assert LeafSlots(n.children, key, Put(value)) == a + [e] + b;
    assert |a + [e] + b| == |n.children| + 1;
  }

  lemma InsertedSize(a: seq<NodeDataChild>, e: NodeDataChild, b: seq<NodeDataChild>)
    ensures ChildrenSize(a + [e] + b) == ChildrenSize(a + b) + ChildSize(e)
  {
    ChildrenSizeConcat(a, b);
    ChildrenSizeConcat(a + [e], b);
    ChildrenSizeConcat(a, [e]);
    assert [e][1..] == [];
    assert ChildrenSize([e]) == ChildSize(e) + ChildrenSize([e][1..]);
  }

  /** Above the leaves: a node gets a slot exactly if the one below was cut, and is cut
      exactly if it then does not fit; the node where this ends fits. */
  lemma InsertedInner(t: Tree, n: Node, h: nat, key: Key, value: Value)
    requires t.Valid() && Fits(t, NodeDataChild(key, value, None)) && Leads(t, n, h, key)
    ensures var x, y := Edited(t, n, h, key, Put(value)), Edited(t, Next(t, n, h, key), h - 1, key, Put(value));
            && (y.One? ==> x.One? && |x.node.children| == |n.children|)
            && (y.Two? && x.One? ==> Msgsize(x.node) <= t.nodeMaximumSize && |x.node.children| == |n.children| + 1)
            && (x.Two? ==> y.Two? && |x.left.children| == (|n.children| + 1) / 2
                           && |x.left.children + x.right.children| == |n.children| + 1
                           && NODE_HEADER + ChildrenSize(x.left.children + x.right.children) > t.nodeMaximumSize)
  {
    hide EditLeaf, LeafSlots, Toward, ChildrenSize;
    var i := Toward(n.children, key);
    PiecesFilled(t, Next(t, n, h, key), h - 1, key, value);
    var y := Edited(t, Next(t, n, h, key), h - 1, key, Put(value));
    if y.Two? {
      var cs := n.children[..i] + SlotOf(y.left) + SlotOf(y.right) + n.children[i + 1..];
      assert cs == cs[..|cs| / 2] + cs[|cs| / 2..];
    }
  }

  ghost predicate Filled(x: Pieces) {
    match x
    case One(n) => n.children != []
    case Two(a, b) => a.children != [] && b.children != []
  }

  lemma HalvedFilled(t: Tree, n: Node)
    requires |n.children| >= 2 || (n.children != [] && Msgsize(n) <= t.nodeMaximumSize)
    ensures Filled(Halved(t, n))
  {
  }

  lemma LeafFilled(t: Tree, n: Node, key: Key, value: Value)
    requires t.Valid() && Fits(t, NodeDataChild(key, value, None))
    ensures Filled(EditLeaf(t, n, key, Put(value)))
  {
    hide Halved, Below;
    var e, cs := NodeDataChild(key, value, None), LeafSlots(n.children, key, Put(value));
    assert e in cs;
    if |cs| == 1 {
      assert cs == [e] && [e][1..] == [];
      assert ChildrenSize([e]) == ChildSize(e) + ChildrenSize([e][1..]);
    }
    HalvedFilled(t, Node(n.leafy, cs, None));
  }

  /** No piece is empty after a key is set. */
  lemma {:induction false} PiecesFilled(t: Tree, n: Node, h: nat, key: Key, value: Value)
    requires t.Valid() && Fits(t, NodeDataChild(key, value, None))
    ensures Filled(Edited(t, n, h, key, Put(value)))
    decreases h
  {
    hide Halved, Toward, EditLeaf;
    if Leads(t, n, h, key) {
      PiecesFilled(t, Next(t, n, h, key), h - 1, key, value);
      var i, y := Toward(n.children, key), Edited(t, Next(t, n, h, key), h - 1, key, Put(value));
      if y.Two? {
        HalvedFilled(t, Node(false, n.children[..i] + SlotOf(y.left) + SlotOf(y.right) + n.children[i + 1..], None));
      }
    } else {
      LeafFilled(t, n, key, value);
    }
  }

  // ----- removing a range

  /** What is kept of a node up to `a`, one of its keys: everything right of the way down
      is dropped. */
  function HeadTo(t: Tree, n: Node, h: nat, a: Key): Node
    decreases h
  {
    if Leads(t, n, h, a) then
      Node(false, n.children[..Toward(n.children, a)] + SlotOf(HeadTo(t, Next(t, n, h, a), h - 1, a)), None)
    else if Below(n.children, a) + 1 >= |n.children| then n
    else Node(n.leafy, n.children[..Below(n.children, a) + 1], None)
  }

  /** What is kept from `b` on. */
  function TailFrom(t: Tree, n: Node, h: nat, b: Key): Node
    decreases h
  {
    if Leads(t, n, h, b) then
      Node(false, SlotOf(TailFrom(t, Next(t, n, h, b), h - 1, b)) + n.children[Toward(n.children, b) + 1..], None)
    else if Below(n.children, b) == 0 then n
    else Node(n.leafy, n.children[Below(n.children, b)..], None)
  }

  function HeadSlots(t: Tree, n: Node, h: nat, a: Option<Key>): seq<NodeDataChild> {
    if a.Some? then HeadTo(t, n, h, a.value).children else []
  }

  function TailSlots(t: Tree, n: Node, h: nat, b: Option<Key>): seq<NodeDataChild> {
    if b.Some? then TailFrom(t, n, h, b.value).children else []
  }

  /** Whether both keys are on the same way down. */
  predicate Together(t: Tree, n: Node, h: nat, a: Option<Key>, b: Option<Key>) {
    && a.Some? && b.Some? && Leads(t, n, h, a.value) && Leads(t, n, h, b.value)
    && Toward(n.children, a.value) == Toward(n.children, b.value)
  }

  /** The tree without what lies between its keys `a` and `b`: where the ways to them part,
      the two kept parts are put together. */
  function RangeCut(t: Tree, n: Node, h: nat, a: Option<Key>, b: Option<Key>): Node
    decreases h
  {
    if Together(t, n, h, a, b) then
      Node(false, Plugged(Frame(n, Toward(n.children, a.value)), RangeCut(t, Next(t, n, h, a.value), h - 1, a, b)), None)
    else Node(n.leafy, HeadSlots(t, n, h, a) + TailSlots(t, n, h, b), None)
  }

  /** The leaf at the right end of the range has been changed and is small.  Nothing else is
      looked at: not the leaf at the left end, if it is another one. */
  predicate RangeShrinks(t: Tree, n: Node, h: nat, a: Option<Key>, b: Option<Key>)
    decreases h
  {
    if Together(t, n, h, a, b) then RangeShrinks(t, Next(t, n, h, a.value), h - 1, a, b)
    else if n.leafy then Msgsize(RangeCut(t, n, h, a, b)) <= t.SmallSize()
    else
      b.Some? &&
      var l := LeafOf(t, n, h, b.value);
      var i := Below(l.children, b.value);
      i > 0 && Msgsize(Node(l.leafy, l.children[i..], None)) <= t.SmallSize()
  }

  /** Along a common way down, cutting at its end and going up is cutting from the top. */
  lemma {:induction false} RangeUp(t: Tree, p: seq<Frame>, n: Node, k: nat, h: nat, a: Key, b: Key)
    requires Aimed(t, p, n, a) && Aimed(t, p, n, b) && k <= |p| <= h
    ensures Up(t, p[..k], One(RangeCut(t, NodeAt(p, n, k), h - k, Some(a), Some(b))))
         == Up(t, p, One(RangeCut(t, n, h - |p|, Some(a), Some(b))))
    ensures RangeShrinks(t, NodeAt(p, n, k), h - k, Some(a), Some(b)) <==> RangeShrinks(t, n, h - |p|, Some(a), Some(b))
    decreases |p| - k
  {
    hide Up, Toward, Aimed, HeadSlots, TailSlots, Plugged, Below, LeafOf;
    if k == |p| {
      assert p[..k] == p;
    } else {
      RangeUp(t, p, n, k + 1, h, a, b);
      var f, m := p[k], NodeAt(p, n, k + 1);
      assert p[..k + 1] == p[..k] + [f];
      AimedAt(t, p, n, a, k);
      AimedAt(t, p, n, b, k);
      UpSnoc(t, p[..k], f, One(RangeCut(t, m, h - k - 1, Some(a), Some(b))));
    }
  }
}
