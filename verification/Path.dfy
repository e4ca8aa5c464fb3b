/** The path from the root to the node a cursor is at, seen as a zipper: the
    slots left and right of the path, the node at its end, and what these mean
    together.  All node edits are local in this view. */
module Path {
  import opened Keys
  import opened BTree

  /** One level above the cursor: a node and the slot the path leaves it by. */
  datatype Frame = Frame(node: Node, index: int)

  ghost predicate WfPath(t: Tree, p: seq<Frame>, h: nat) {
    && |p| <= h
    && forall i {:trigger p[i]} :: 0 <= i < |p| ==>
         WfNode(t, p[i].node, h - i) && 0 <= p[i].index < |p[i].node.children|
  }

  ghost function Left(t: Tree, p: seq<Frame>, h: nat): seq<Entry>
    requires WfPath(t, p, h)
  {
    if p == [] then [] else
    var f := p[|p| - 1];
    Left(t, p[..|p| - 1], h) + Flat(t, f.node.children[..f.index], h - |p| + 1)
  }

  ghost function Right(t: Tree, p: seq<Frame>, h: nat): seq<Entry>
    requires WfPath(t, p, h)
  {
    if p == [] then [] else
    var f := p[|p| - 1];
    Flat(t, f.node.children[f.index + 1..], h - |p| + 1) + Right(t, p[..|p| - 1], h)
  }

  /** Everything the tree under the cursor holds, with `cs` as the slots of the
      node at the end of the path. */
  ghost function Contents(t: Tree, p: seq<Frame>, cs: seq<NodeDataChild>, h: nat): seq<Entry>
    requires WfPath(t, p, h)
  {
    Left(t, p, h) + Flat(t, cs, h - |p|) + Right(t, p, h)
  }

  lemma AtRoot(t: Tree, cs: seq<NodeDataChild>, h: nat)
    ensures Contents(t, [], cs, h) == Flat(t, cs, h)
  {
  }

  lemma PathPrefix(t: Tree, p: seq<Frame>, f: Frame, h: nat)
    requires WfPath(t, p + [f], h)
    ensures WfPath(t, p, h) && |p| < h
    ensures WfNode(t, f.node, h - |p|) && 0 <= f.index < |f.node.children|
    ensures Left(t, p + [f], h) == Left(t, p, h) + Flat(t, f.node.children[..f.index], h - |p|)
    ensures Right(t, p + [f], h) == Flat(t, f.node.children[f.index + 1..], h - |p|) + Right(t, p, h)
  {
    forall i | 0 <= i < |p|
      ensures WfNode(t, p[i].node, h - i) && 0 <= p[i].index < |p[i].node.children|
    {
      assert (p + [f])[i] == p[i];
    }
    assert (p + [f])[|p|] == f;
    assert (p + [f])[..|p|] == p;
  }

  lemma PathSnoc(t: Tree, p: seq<Frame>, f: Frame, h: nat)
    requires WfPath(t, p, h) && |p| < h
    requires WfNode(t, f.node, h - |p|) && 0 <= f.index < |f.node.children|
    ensures WfPath(t, p + [f], h)
  {
  }

  lemma Regroup<T>(l: seq<T>, a: seq<T>, b: seq<T>, c: seq<T>, r: seq<T>)
    ensures (l + a) + b + (c + r) == l + (a + b + c) + r
  {
  }

  /** Going down through a slot changes the view, not the contents. */
  lemma Descend(t: Tree, p: seq<Frame>, f: Frame, h: nat)
    requires WfPath(t, p + [f], h)
    ensures WfPath(t, p, h) && 0 <= f.index < |f.node.children|
    ensures Loadable(t, f.node.children[f.index])
    ensures WfNode(t, ChildNode(t, f.node.children[f.index]), h - |p| - 1)
    ensures Contents(t, p + [f], ChildNode(t, f.node.children[f.index]).children, h)
         == Contents(t, p, f.node.children, h)
  {
    PathPrefix(t, p, f, h);
    var cs, k := f.node.children, h - |p|;
    assert WfChild(t, cs[f.index], k);
    FlatSplit(t, cs, f.index, k);
    Regroup(Left(t, p, h), Flat(t, cs[..f.index], k), FlatChild(t, cs[f.index], k),
            Flat(t, cs[f.index + 1..], k), Right(t, p, h));
  }

  /** The slot that stands for an edited node. */
  function Slot(cs: seq<NodeDataChild>, n: Node): NodeDataChild
    requires cs != []
  {
    NodeDataChild(cs[0].key, Placeholder(), Some(n))
  }

  /** The slots of the node above, after the edited node is put back. */
  function Plugged(f: Frame, n: Node): seq<NodeDataChild>
    requires 0 <= f.index < |f.node.children|
  {
    f.node.children[..f.index]
    + (if n.children == [] then [] else [Slot(n.children, n)])
    + f.node.children[f.index + 1..]
  }

  lemma SlotWf(t: Tree, n: Node, h: nat)
    requires t.Valid() && WfNode(t, n, h) && n.children != []
    ensures WfChild(t, Slot(n.children, n), h + 1)
    ensures FlatChild(t, Slot(n.children, n), h + 1) == Flat(t, n.children, h)
  {
    assert WfChild(t, n.children[0], h);
  }

  /** Replacing the slot the path goes through by the slots `s`. */
  lemma ReplaceSlot(t: Tree, p: seq<Frame>, f: Frame, s: seq<NodeDataChild>, h: nat)
    requires WfPath(t, p + [f], h) && WfChildren(t, s, h - |p|)
    ensures WfPath(t, p, h) && 0 <= f.index < |f.node.children|
    ensures var cs := f.node.children[..f.index] + s + f.node.children[f.index + 1..];
            && WfChildren(t, cs, h - |p|)
            && Contents(t, p, cs, h) == Left(t, p + [f], h) + Flat(t, s, h - |p|) + Right(t, p + [f], h)
  {
    hide WfChild, Flat, Left, Right;
    PathPrefix(t, p, f, h);
    var k := h - |p|;
    var x, y := f.node.children[..f.index], f.node.children[f.index + 1..];
    assert f.node.children == x + [f.node.children[f.index]] + y;
    WfPieces(t, x + [f.node.children[f.index]], y, k);
    WfPieces(t, x, [f.node.children[f.index]], k);
    WfJoined(t, x, s, k);
    WfJoined(t, x + s, y, k);
    FlatConcat(t, x + s, y, k);
    FlatConcat(t, x, s, k);
    Regroup(Left(t, p, h), Flat(t, x, k), Flat(t, s, k), Flat(t, y, k), Right(t, p, h));
  }

  /** Putting an edited node back keeps the contents, also when the node has
      become empty and its slot goes away. */
  lemma Ascend(t: Tree, p: seq<Frame>, f: Frame, n: Node, h: nat)
    requires t.Valid() && WfPath(t, p + [f], h) && WfNode(t, n, h - |p| - 1)
    ensures WfPath(t, p, h) && 0 <= f.index < |f.node.children|
    ensures WfChildren(t, Plugged(f, n), h - |p|)
    ensures Contents(t, p, Plugged(f, n), h) == Contents(t, p + [f], n.children, h)
  {
    var s := if n.children == [] then [] else [Slot(n.children, n)];
    if n.children != [] {
      SlotWf(t, n, h - |p| - 1);
      FlatOne(t, s[0], h - |p|);
    }
    ReplaceSlot(t, p, f, s, h);
  }

  /** Leaving out some slots of the node at the end of the path keeps the
      contents sorted. */
  lemma SortedDrop(t: Tree, p: seq<Frame>, a: seq<NodeDataChild>, b: seq<NodeDataChild>, c: seq<NodeDataChild>, h: nat)
    requires WfPath(t, p, h) && Sorted(Contents(t, p, a + b + c, h))
    ensures Sorted(Contents(t, p, a + c, h))
  {
    hide Flat, Left, Right, Less;
    var k, l, r := h - |p|, Left(t, p, h), Right(t, p, h);
    FlatConcat(t, a + b, c, k);
    FlatConcat(t, a, b, k);
    FlatConcat(t, a, c, k);
    var x, y, z := Flat(t, a, k), Flat(t, b, k), Flat(t, c, k);
    assert l + (x + y + z) + r == (l + x) + y + (z + r);
    SortedWithout(l + x, y, z + r);
    assert l + (x + z) + r == (l + x) + (z + r);
  }

  /** So does keeping only a stretch of them. */
  lemma KeepSlots(t: Tree, p: seq<Frame>, cs: seq<NodeDataChild>, i: nat, j: nat, h: nat)
    requires WfPath(t, p, h) && WfChildren(t, cs, h - |p|) && Sorted(Contents(t, p, cs, h))
    requires i <= j <= |cs|
    ensures WfChildren(t, cs[i..j], h - |p|) && Sorted(Contents(t, p, cs[i..j], h))
  {
    hide WfChild, WfChildren, Flat, Left, Right, Less, Sorted, Contents;
    var a, b, c := cs[..i], cs[i..j], cs[j..];
    Thirds(cs, i, j);
    WfPieces(t, a + b, c, h - |p|);
    WfPieces(t, a, b, h - |p|);
    SortedDrop(t, p, [], a, b + c, h);
    SortedDrop(t, p, b, c, [], h);
  }

  lemma Thirds<T>(s: seq<T>, i: nat, j: nat)
    requires i <= j <= |s|
    ensures var a, b, c := s[..i], s[i..j], s[j..];
            && s == a + b + c && s == [] + a + (b + c) && [] + (b + c) == b + c + [] && b + [] == b
  {
  }

  /** The contents with one slot's node given other slots, seen from below. */
  lemma SlotChange(t: Tree, p: seq<Frame>, n: Node, idx: nat, cs: seq<NodeDataChild>, h: nat)
    requires t.Valid() && WfPath(t, p, h) && |p| < h && WfNode(t, n, h - |p|) && idx < |n.children|
    requires cs != [] && WfChildren(t, cs, h - |p| - 1)
    ensures Loadable(t, n.children[idx]) && WfPath(t, p + [Frame(n, idx)], h)
    ensures var m := Node(ChildNode(t, n.children[idx]).leafy, cs, None);
            && WfNode(t, m, h - |p| - 1)
            && Plugged(Frame(n, idx), m) == n.children[idx := Slot(cs, m)]
            && WfChildren(t, n.children[idx := Slot(cs, m)], h - |p|)
            && Contents(t, p, n.children[idx := Slot(cs, m)], h) == Contents(t, p + [Frame(n, idx)], cs, h)
  {
    hide WfChild, Flat, Left, Right;
    PathSnoc(t, p, Frame(n, idx), h);
    Descend(t, p, Frame(n, idx), h);
    Ascend(t, p, Frame(n, idx), Node(ChildNode(t, n.children[idx]).leafy, cs, None), h);
  }

  /** Replacing two neighbouring slots by slots with the same entries. */
  lemma Exchange(t: Tree, p: seq<Frame>, cs: seq<NodeDataChild>, i: nat, s: seq<NodeDataChild>, h: nat)
    requires WfPath(t, p, h) && WfChildren(t, cs, h - |p|) && i + 2 <= |cs|
    requires WfChildren(t, s, h - |p|) && Flat(t, s, h - |p|) == Flat(t, cs[i..i + 2], h - |p|)
    ensures WfChildren(t, cs[..i] + s + cs[i + 2..], h - |p|)
    ensures Contents(t, p, cs[..i] + s + cs[i + 2..], h) == Contents(t, p, cs, h)
  {
    hide WfChild, Flat, Left, Right;
    var k := h - |p|;
    var a, b, c := cs[..i], cs[i..i + 2], cs[i + 2..];
    assert cs == a + b + c;
    WfPieces(t, a + b, c, k);
    WfPieces(t, a, b, k);
    WfJoined(t, a, s, k);
    WfJoined(t, a + s, c, k);
    FlatConcat(t, a + b, c, k);
    FlatConcat(t, a, b, k);
    FlatConcat(t, a + s, c, k);
    FlatConcat(t, a, s, k);
  }

  /** The entries under two neighbouring slots are those of their nodes' slots. */
  lemma PairFlat(t: Tree, cs: seq<NodeDataChild>, i: nat, h: nat)
    requires WfChildren(t, cs, h) && i + 2 <= |cs| && h > 0
    ensures Loadable(t, cs[i]) && Loadable(t, cs[i + 1])
    ensures WfNode(t, ChildNode(t, cs[i]), h - 1) && WfNode(t, ChildNode(t, cs[i + 1]), h - 1)
    ensures ChildNode(t, cs[i]).children != [] && ChildNode(t, cs[i + 1]).children != []
    ensures Flat(t, cs[i..i + 2], h) == Flat(t, ChildNode(t, cs[i]).children + ChildNode(t, cs[i + 1]).children, h - 1)
  {
    assert WfChild(t, cs[i], h) && WfChild(t, cs[i + 1], h);
    assert cs[i..i + 2] == [cs[i]] + [cs[i + 1]];
    FlatConcat(t, [cs[i]], [cs[i + 1]], h);
    FlatOne(t, cs[i], h);
    FlatOne(t, cs[i + 1], h);
    FlatConcat(t, ChildNode(t, cs[i]).children, ChildNode(t, cs[i + 1]).children, h - 1);
  }

  lemma PairSlots(t: Tree, l: Node, r: Node, h: nat)
    requires t.Valid() && WfNode(t, l, h) && WfNode(t, r, h) && l.children != [] && r.children != []
    ensures var s := [Slot(l.children, l), Slot(r.children, r)];
            WfChildren(t, s, h + 1) && Flat(t, s, h + 1) == Flat(t, l.children + r.children, h)
            && CountNodes(t, s, h + 1) == 2 + CountNodes(t, l.children + r.children, h)
  {
    hide WfChild, Flat, CountNodes;
    var a, b := [Slot(l.children, l)], [Slot(r.children, r)];
    SlotWf(t, l, h);
    SlotWf(t, r, h);
    FlatOne(t, a[0], h + 1);
    FlatOne(t, b[0], h + 1);
    FlatConcat(t, a, b, h + 1);
    FlatConcat(t, l.children, r.children, h);
    CountConcat(t, a, b, h + 1);
    CountOne(t, a[0], h + 1);
    CountOne(t, b[0], h + 1);
    CountConcat(t, l.children, r.children, h);
    assert a + b == [Slot(l.children, l), Slot(r.children, r)];
  }

  // ----- positions

  /** The entries left of slot `i` of the node at the end of the path. */
  ghost function BeforeAt(t: Tree, p: seq<Frame>, cs: seq<NodeDataChild>, i: nat, h: nat): seq<Entry>
    requires WfPath(t, p, h) && i <= |cs|
  {
    Left(t, p, h) + Flat(t, cs[..i], h - |p|)
  }

  /** The entries from slot `i` on. */
  ghost function FromAt(t: Tree, p: seq<Frame>, cs: seq<NodeDataChild>, i: nat, h: nat): seq<Entry>
    requires WfPath(t, p, h) && i <= |cs|
  {
    Flat(t, cs[i..], h - |p|) + Right(t, p, h)
  }

  lemma BeforeAndFrom(t: Tree, p: seq<Frame>, cs: seq<NodeDataChild>, i: nat, h: nat)
    requires WfPath(t, p, h) && i <= |cs|
    ensures BeforeAt(t, p, cs, i, h) + FromAt(t, p, cs, i, h) == Contents(t, p, cs, h)
  {
    FlatCut(t, cs, i, h - |p|);
  }

  /** The two ends of a node are the two sides of its slot in the parent. */
  lemma EndsInParent(t: Tree, p: seq<Frame>, f: Frame, h: nat)
    requires WfPath(t, p + [f], h)
    ensures WfPath(t, p, h) && 0 <= f.index < |f.node.children| && Loadable(t, f.node.children[f.index])
    ensures var n := ChildNode(t, f.node.children[f.index]);
            && BeforeAt(t, p + [f], n.children, 0, h) == BeforeAt(t, p, f.node.children, f.index, h)
            && BeforeAt(t, p + [f], n.children, |n.children|, h) == BeforeAt(t, p, f.node.children, f.index + 1, h)
            && FromAt(t, p + [f], n.children, 0, h) == FromAt(t, p, f.node.children, f.index, h)
            && FromAt(t, p + [f], n.children, |n.children|, h) == FromAt(t, p, f.node.children, f.index + 1, h)
  {
    hide WfChild, WfChildren, Left, Right, Flat;
    PathPrefix(t, p, f, h);
    Descend(t, p, f, h);
    var cs, k := f.node.children, h - |p|;
    var n := ChildNode(t, cs[f.index]);
    assert cs[..f.index + 1] == cs[..f.index] + [cs[f.index]];
    FlatConcat(t, cs[..f.index], [cs[f.index]], k);
    FlatOne(t, cs[f.index], k);
    assert cs[f.index..] == [cs[f.index]] + cs[f.index + 1..];
    FlatConcat(t, [cs[f.index]], cs[f.index + 1..], k);
    FlatNone(t, k - 1);
    assert n.children[..0] == [] && n.children[..|n.children|] == n.children;
    assert n.children[0..] == n.children && n.children[|n.children|..] == [];
  }

  /** What putting back an edited node does to the two sides of its slot. */
  lemma PluggedEnds(t: Tree, p: seq<Frame>, f: Frame, n: Node, h: nat)
    requires t.Valid() && WfPath(t, p + [f], h) && WfNode(t, n, h - |p| - 1) && n.children != []
    ensures WfPath(t, p, h) && 0 <= f.index < |f.node.children| == |Plugged(f, n)|
    ensures Plugged(f, n)[..f.index] == f.node.children[..f.index]
    ensures Plugged(f, n)[f.index + 1..] == f.node.children[f.index + 1..]
    ensures FromAt(t, p, Plugged(f, n), f.index, h) == Flat(t, n.children, h - |p| - 1) + Right(t, p + [f], h)
    ensures BeforeAt(t, p, Plugged(f, n), f.index + 1, h) == Left(t, p + [f], h) + Flat(t, n.children, h - |p| - 1)
  {
    hide WfChild, WfChildren, Flat, Left, Right;
    PathPrefix(t, p, f, h);
    SlotWf(t, n, h - |p| - 1);
    var s, cs, k := Slot(n.children, n), f.node.children, h - |p|;
    FlatOne(t, s, k);
    FlatConcat(t, [s], cs[f.index + 1..], k);
    FlatConcat(t, cs[..f.index], [s], k);
    assert Plugged(f, n)[f.index..] == [s] + cs[f.index + 1..];
    assert Plugged(f, n)[..f.index + 1] == cs[..f.index] + [s];
  }

  // ----- how much there is left to visit

  /** The nodes under a list of slots. */
  ghost function CountNodes(t: Tree, cs: seq<NodeDataChild>, h: nat): nat
    decreases h, |cs|
  {
    if cs == [] || h == 0 then 0 else
    (if Loadable(t, cs[0]) then 1 + CountNodes(t, ChildNode(t, cs[0]).children, h - 1) else 0)
    + CountNodes(t, cs[1..], h)
  }

  lemma {:induction false} CountConcat(t: Tree, a: seq<NodeDataChild>, b: seq<NodeDataChild>, h: nat)
    ensures CountNodes(t, a + b, h) == CountNodes(t, a, h) + CountNodes(t, b, h)
    decreases |a|
  {
    if a == [] {
      assert a + b == b;
    } else {
      assert (a + b)[1..] == a[1..] + b;
      CountConcat(t, a[1..], b, h);
    }
  }

  lemma CountOne(t: Tree, c: NodeDataChild, h: nat)
    requires h > 0 && Loadable(t, c)
    ensures CountNodes(t, [c], h) == 1 + CountNodes(t, ChildNode(t, c).children, h - 1)
  {
    assert CountNodes(t, [c][1..], h) == 0;
  }

  lemma CountSplit(t: Tree, cs: seq<NodeDataChild>, i: nat, h: nat)
    requires i < |cs| && h > 0 && Loadable(t, cs[i])
    ensures CountNodes(t, cs, h)
         == CountNodes(t, cs[..i], h) + 1 + CountNodes(t, ChildNode(t, cs[i]).children, h - 1)
            + CountNodes(t, cs[i + 1..], h)
  {
    assert cs == cs[..i] + ([cs[i]] + cs[i + 1..]);
    CountConcat(t, cs[..i], [cs[i]] + cs[i + 1..], h);
    assert ([cs[i]] + cs[i + 1..])[1..] == cs[i + 1..];
  }

  lemma CountCut(t: Tree, cs: seq<NodeDataChild>, i: nat, h: nat)
    requires i <= |cs|
    ensures CountNodes(t, cs, h) == CountNodes(t, cs[..i], h) + CountNodes(t, cs[i..], h)
  {
    assert cs == cs[..i] + cs[i..];
    CountConcat(t, cs[..i], cs[i..], h);
  }

  /** The nodes on the path and beside it, below the root. */
  ghost function PathNodes(t: Tree, p: seq<Frame>, h: nat): nat
    requires WfPath(t, p, h)
  {
    if p == [] then 0 else
    var f := p[|p| - 1];
    PathNodes(t, p[..|p| - 1], h) + 1
    + CountNodes(t, f.node.children[..f.index], h - |p| + 1)
    + CountNodes(t, f.node.children[f.index + 1..], h - |p| + 1)
  }

  /** The nodes that a leaf-first walk has yet to come to. */
  ghost function PathAhead(t: Tree, p: seq<Frame>, h: nat): nat
    requires WfPath(t, p, h)
  {
    if p == [] then 0 else
    var f := p[|p| - 1];
    PathAhead(t, p[..|p| - 1], h) + 1 + CountNodes(t, f.node.children[f.index + 1..], h - |p| + 1)
  }

  lemma CountSnoc(t: Tree, p: seq<Frame>, f: Frame, h: nat)
    requires WfPath(t, p + [f], h)
    ensures WfPath(t, p, h) && 0 <= f.index < |f.node.children|
    ensures PathNodes(t, p + [f], h) == PathNodes(t, p, h) + 1
            + CountNodes(t, f.node.children[..f.index], h - |p|)
            + CountNodes(t, f.node.children[f.index + 1..], h - |p|)
    ensures PathAhead(t, p + [f], h) == PathAhead(t, p, h) + 1
            + CountNodes(t, f.node.children[f.index + 1..], h - |p|)
  {
    PathPrefix(t, p, f, h);
    assert (p + [f])[|p|] == f;
    assert (p + [f])[..|p|] == p;
  }

  lemma DescendCount(t: Tree, p: seq<Frame>, f: Frame, h: nat)
    requires WfPath(t, p + [f], h)
    ensures WfPath(t, p, h) && 0 <= f.index < |f.node.children| && Loadable(t, f.node.children[f.index])
    ensures var n := ChildNode(t, f.node.children[f.index]);
            && PathNodes(t, p + [f], h) + CountNodes(t, n.children, h - |p| - 1)
               == PathNodes(t, p, h) + CountNodes(t, f.node.children, h - |p|)
            && PathAhead(t, p + [f], h) + CountNodes(t, n.children, h - |p| - 1)
               == PathAhead(t, p, h) + CountNodes(t, f.node.children[f.index..], h - |p|)
  {
    hide WfChildren, PathNodes, PathAhead, CountNodes;
    CountSnoc(t, p, f, h);
    Descend(t, p, f, h);
    CountSplit(t, f.node.children, f.index, h - |p|);
    CountCut(t, f.node.children, f.index, h - |p|);
  }

  lemma AscendCount(t: Tree, p: seq<Frame>, f: Frame, n: Node, h: nat)
    requires WfPath(t, p + [f], h) && n.children != []
    ensures WfPath(t, p, h) && 0 <= f.index < |f.node.children|
    ensures PathNodes(t, p, h) + CountNodes(t, Plugged(f, n), h - |p|)
         == PathNodes(t, p + [f], h) + CountNodes(t, n.children, h - |p| - 1)
    ensures f.index < |Plugged(f, n)|
    ensures PathAhead(t, p, h) + CountNodes(t, Plugged(f, n)[f.index + 1..], h - |p|) < PathAhead(t, p + [f], h)
  {
    hide WfChildren, PathNodes, PathAhead, CountNodes;
    CountSnoc(t, p, f, h);
    var s := Slot(n.children, n);
    assert Plugged(f, n)[f.index] == s;
    assert Plugged(f, n)[..f.index] == f.node.children[..f.index];
    assert Plugged(f, n)[f.index + 1..] == f.node.children[f.index + 1..];
    CountSplit(t, Plugged(f, n), f.index, h - |p|);
  }
}
