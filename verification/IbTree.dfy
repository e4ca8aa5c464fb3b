/** The operations of a tree, run through a cursor, and the map they work on. */
module IbTree {
  import opened Keys
  import opened BTree
  import opened Path
  import opened Edits
  import opened IbStack

  // ----- sorted sequences of entries as maps

  lemma {:induction false} MapFacts(s: seq<Entry>)
    requires Sorted(s)
    ensures forall i :: 0 <= i < |s| ==> s[i].key in ToMap(s) && ToMap(s)[s[i].key] == s[i].value
    ensures forall k :: k in ToMap(s) ==> exists i :: 0 <= i < |s| && s[i].key == k
  {
    if s != [] {
      var a, e := s[..|s| - 1], s[|s| - 1];
      MapFacts(a);
      forall i | 0 <= i < |s| - 1 ensures s[i].key in ToMap(s) && ToMap(s)[s[i].key] == s[i].value {
        assert Less(s[i].key, e.key);
        LessIrreflexive(e.key);
        assert a[i] == s[i];
      }
      forall k | k in ToMap(s) ensures exists i :: 0 <= i < |s| && s[i].key == k {
        if k == e.key {
          assert s[|s| - 1].key == k;
        } else {
          assert k in ToMap(a);
          var i :| 0 <= i < |a| && a[i].key == k;
          assert s[i].key == k;
        }
      }
    }
  }

  lemma KeysDiffer(a: seq<Entry>, b: seq<Entry>, i: nat, j: nat)
    requires Sorted(a + b) && i < |a| && j < |b|
    ensures a[i].key != b[j].key
  {
    hide Less;
    assert (a + b)[i] == a[i] && (a + b)[|a| + j] == b[j];
    LessIrreflexive(a[i].key);
  }

  /** Membership and values of a sorted sequence do not depend on where it is cut. */
  lemma MapOfParts(a: seq<Entry>, b: seq<Entry>)
    requires Sorted(a + b)
    ensures Sorted(a) && Sorted(b)
    ensures ToMap(a).Keys !! ToMap(b).Keys
    ensures ToMap(a + b) == ToMap(a) + ToMap(b)
  {
    hide ToMap, Less, Sorted;
    var s := a + b;
    SortedParts(a, b);
    MapFacts(a);
    MapFacts(b);
    MapFacts(s);
    forall k | k in ToMap(a) && k in ToMap(b) ensures false {
      var i :| 0 <= i < |a| && a[i].key == k;
      var j :| 0 <= j < |b| && b[j].key == k;
      KeysDiffer(a, b, i, j);
    }
    forall k | k in ToMap(s)
      ensures k in ToMap(a) + ToMap(b) && ToMap(s)[k] == (ToMap(a) + ToMap(b))[k]
    {
      var i :| 0 <= i < |s| && s[i].key == k;
      if i < |a| {
        assert a[i] == s[i];
      } else {
        assert b[i - |a|] == s[i];
      }
    }
    forall k | k in ToMap(a) + ToMap(b) ensures k in ToMap(s) {
      if k in ToMap(a) {
        var i :| 0 <= i < |a| && a[i].key == k;
        assert s[i].key == k;
      } else {
        var i :| 0 <= i < |b| && b[i].key == k;
        assert s[|a| + i].key == k;
      }
    }
  }

  lemma MapOne(e: Entry)
    ensures Sorted([e]) && ToMap([e]) == map[e.key := e.value]
  {
    assert [e][..0] == [];
  }

  lemma SortedAround(a: seq<Entry>, e: Entry, b: seq<Entry>)
    requires Sorted(a + b) && AllBelow(a, e.key) && AllAbove(b, e.key)
    ensures Sorted(a + [e] + b)
  {
    SortedParts(a, b);
    var s := a + [e] + b;
    forall i, j | 0 <= i < j < |s| ensures Less(s[i].key, s[j].key) {
      if i < |a| {
        assert s[i] == a[i];
        if j > |a| {
          assert s[j] == b[j - |a| - 1];
        }
      } else {
        assert s[j] == b[j - |a| - 1];
        if i > |a| {
          assert s[i] == b[i - |a| - 1];
        }
      }
    }
  }

  /** The map with one entry in the middle singled out. */
  lemma MapAround(a: seq<Entry>, e: Entry, b: seq<Entry>)
    requires Sorted(a + [e] + b)
    ensures Sorted(a + b)
    ensures e.key !in ToMap(a + b)
    ensures ToMap(a + [e] + b) == ToMap(a + b)[e.key := e.value]
  {
    hide ToMap, Less;
    SortedWithout(a, [e], b);
    MapOfParts(a + [e], b);
    MapOfParts(a, [e]);
    MapOfParts(a, b);
    MapOne(e);
  }

  /** What a key bounds in a sorted sequence. */
  lemma KeysBeside(a: seq<Entry>, b: seq<Entry>, key: Key)
    requires Sorted(a + b) && AllBelow(a, key) && AllAbove(b, key)
    ensures key !in ToMap(a + b)
  {
    hide ToMap;
    MapFacts(a + b);
    if key in ToMap(a + b) {
      var i :| 0 <= i < |a + b| && (a + b)[i].key == key;
      if i < |a| {
        assert Less(a[i].key, key);
      } else {
        assert Less(key, b[i - |a|].key);
      }
      LessIrreflexive(key);
    }
  }

  // ----- editing one leaf slot, seen in the whole contents

  lemma SplicedContents(t: Tree, p: seq<Frame>, cs: seq<NodeDataChild>, i: nat, replace: bool,
                        child: Option<NodeDataChild>, h: nat)
    requires WfPath(t, p, h) && i <= |cs| - (if replace then 1 else 0)
    ensures Contents(t, p, Spliced(cs, i, replace, child), h)
         == BeforeAt(t, p, cs, i, h)
            + (if child.Some? then FlatChild(t, child.value, h - |p|) else [])
            + FromAt(t, p, cs, if replace then i + 1 else i, h)
  {
    hide Flat, Left, Right, FlatChild;
    var k := h - |p|;
    var a, c := cs[..i], cs[if replace then i + 1 else i..];
    var b := if child.Some? then [child.value] else [];
    FlatConcat(t, a + b, c, k);
    FlatConcat(t, a, b, k);
    if child.Some? {
      FlatOne(t, child.value, k);
    }
    FlatNone(t, k);
    assert Spliced(cs, i, replace, child) == a + b + c;
  }

  lemma SplicedWf(t: Tree, cs: seq<NodeDataChild>, i: nat, replace: bool, child: Option<NodeDataChild>, h: nat)
    requires WfChildren(t, cs, h) && i <= |cs| - (if replace then 1 else 0)
    requires child.Some? ==> WfChild(t, child.value, h)
    ensures WfChildren(t, Spliced(cs, i, replace, child), h)
  {
    hide WfChild;
    var r := Spliced(cs, i, replace, child);
    var n := if child.Some? then 1 else 0;
    forall j | 0 <= j < |r| ensures WfChild(t, r[j], h) {
      if j < i {
        assert r[j] == cs[j];
      } else if j >= i + n {
        assert r[j] == cs[j - n - i + (if replace then i + 1 else i)];
      }
    }
  }

  /** What is on either side of the cursor after a search, in entries. */
  lemma SearchSides(t: Tree, p: seq<Frame>, cs: seq<NodeDataChild>, idx: nat, key: Key, h: nat)
    requires WfPath(t, p, h) && |p| == h && WfChildren(t, cs, 0) && idx <= |cs|
    requires Sorted(Contents(t, p, cs, h))
    requires AllBelow(Left(t, p, h), key) && AllAbove(Right(t, p, h), key)
    requires forall i :: 0 <= i < idx ==> Less(cs[i].key, key)
    requires forall i :: idx <= i < |cs| ==> !Less(cs[i].key, key)
    ensures AllBelow(BeforeAt(t, p, cs, idx, h), key)
    ensures idx < |cs| && cs[idx].key == key ==>
              && FromAt(t, p, cs, idx, h) == [Entry(key, cs[idx].value)] + FromAt(t, p, cs, idx + 1, h)
              && AllAbove(FromAt(t, p, cs, idx + 1, h), key)
    ensures (idx == |cs| || cs[idx].key != key) ==> AllAbove(FromAt(t, p, cs, idx, h), key)
  {
    hide WfChild, Left, Right, Less, Flat;
    LeafBelow(t, cs[..idx], key);
    var from := FromAt(t, p, cs, idx, h);
    if idx < |cs| {
      EntryAt(t, p, cs, idx, h);
      var rest := FromAt(t, p, cs, idx + 1, h);
      BeforeAndFrom(t, p, cs, idx, h);
      SortedParts(BeforeAt(t, p, cs, idx, h), from);
      LessTotal(cs[idx].key, key);
      forall i | 0 <= i < |rest| ensures Less(key, rest[i].key) {
        assert from[i + 1] == rest[i] && Less(from[0].key, from[i + 1].key);
        LeqLessTransitive(key, cs[idx].key, rest[i].key);
      }
    } else {
      assert cs[idx..] == [];
      FlatNone(t, 0);
    }
  }

  lemma LeafBelow(t: Tree, cs: seq<NodeDataChild>, key: Key)
    requires forall i :: 0 <= i < |cs| ==> Less(cs[i].key, key)
    ensures AllBelow(Flat(t, cs, 0), key)
  {
    FlatLeafLength(t, cs);
  }

  /** Finds the slot of `key`, or the place where it belongs. */
  method Locate(st: Stack, key: Key, ghost root: Node, ghost h: nat) returns (found: bool)
    requires st.Browsing(root, h)
    modifies st
    ensures st.smallCount == old(st.smallCount)
    ensures st.Browsing(root, h) && st.Valid(h) && st.top == h
    ensures 0 <= st.Index() <= |st.CurrentNode().children|
    ensures st.All(h) == Flat(st.tree, root.children, h)
    ensures found <==> st.Child().Some? && st.Child().value.key == key
    ensures st.Child().Some? ==> !Less(st.Child().value.key, key)
    ensures AllBelow(st.Before(h), key)
    ensures found ==>
              && AllAbove(FromAt(st.tree, st.PathHere(), st.CurrentNode().children, st.Index() + 1, h), key)
              && Flat(st.tree, root.children, h) == st.Before(h) + [Entry(key, st.Child().value.value)]
                 + FromAt(st.tree, st.PathHere(), st.CurrentNode().children, st.Index() + 1, h)
    ensures !found ==>
              && AllAbove(st.From(h), key)
              && Flat(st.tree, root.children, h) == st.Before(h)
                 + st.From(h)
    ensures Aimed(st.tree, st.PathHere(), st.CurrentNode(), key) && NodeAt(st.PathHere(), st.CurrentNode(), 0) == root
    ensures st.Index() == Below(st.CurrentNode().children, key)
  {
    hide WfChild, Flat, Left, Right, Less, Aimed, Below, NodeAt;
    st.Search(key, root, h);
    st.BrowsingIsValid(root, h);
    SearchSides(st.tree, st.PathHere(), st.CurrentNode().children, st.Index(), key, h);
    BeforeAndFrom(st.tree, st.PathHere(), st.CurrentNode().children, st.Index(), h);
    found := st.Child().Some? && st.Child().value.key == key;
  }

  // ----- the operations

  method Get(root: Node, key: Key, st: Stack, ghost h: nat) returns (r: Option<Value>)
    requires st.Ready(root, h)
    modifies st
    ensures st.Ready(root, h)
    ensures r == if key in TreeMap(st.tree, root, h) then Some(TreeMap(st.tree, root, h)[key]) else None
  {
    hide WfChild, WfChildren, Flat, Left, Right, Less, ToMap, Aimed, NodeAt, Below, WfPath, Contents, BeforeAt, FromAt, Sorted;
    var found := Locate(st, key, root, h);
    var c := st.Child();
    ghost var a, b := st.Before(h), FromAt(st.tree, st.PathHere(), st.CurrentNode().children,
                                           if found then st.Index() + 1 else st.Index(), h);
    st.top := 0;
    if !found {
      KeysBeside(a, b, key);
      return None;
    }
    MapAround(a, Entry(key, c.value.value), b);
    r := Some(c.value.value);
  }

  /** What an edit of one key leaves: the tree that it makes from the root down, tended to
      if the edited leaf has become small. */
  ghost predicate Settles(t: Tree, root: Node, h: nat, key: Key, c: Change, r: Node, h': nat, m: nat) {
    var x := Edited(t, root, h, key, c);
    var grown := if x.Two? then h + 1 else h;
    if Shrinks(t, root, h, key, c) then Tended(t, Whole(x), grown, r, h', m) else r == Whole(x) && h' == grown
  }

  /** Once the leaf has been edited and all nodes have been put back. */
  lemma SettledBy(t: Tree, p: seq<Frame>, n: Node, root: Node, h: nat, key: Key, c: Change, small: bool, whole: Node,
                  h1: nat, r: Node, h': nat, m: nat)
    requires |p| == h && Aimed(t, p, n, key) && NodeAt(p, n, 0) == root
    requires var x := Up(t, p, EditLeaf(t, n, key, c)); whole == Whole(x) && h1 == if x.Two? then h + 1 else h
    requires small <==> LeafSlots(n.children, key, c) != n.children && Msgsize(First(EditLeaf(t, n, key, c))) <= t.SmallSize()
    requires if small then Tended(t, whole, h1, r, h', m) else r == whole && h' == h1
    ensures Settles(t, root, h, key, c, r, h', m)
  {
    hide Edited, Up, EditLeaf, LeafSlots, Tended, Aimed, LeafOf;
    EditedFrom(t, p, n, 0, h, key, c);
    UpNone(t, Edited(t, root, h, key, c));
    assert p[..0] == [];
  }

  /** The slots of an edited leaf, and whether anything changes. */
  lemma EditedSlots(t: Tree, n: Node, key: Key, value: Value)
    requires WfNode(t, n, 0)
    ensures var cs, i := n.children, Below(n.children, key);
            && Spliced(cs, i, Has(cs, key), Some(NodeDataChild(key, value, None))) == LeafSlots(cs, key, Put(value))
            && (LeafSlots(cs, key, Put(value)) == cs <==> Has(cs, key) && cs[i].value == value)
            && (Has(cs, key) ==> Spliced(cs, i, true, None) == LeafSlots(cs, key, Remove) != cs)
  {
    hide Below, Flat;
    var cs, i := n.children, Below(n.children, key);
    var e := NodeDataChild(key, value, None);
    var s := LeafSlots(cs, key, Put(value));
    if Has(cs, key) {
      assert WfChild(t, cs[i], 0);
      assert s == cs[i := e] && s[i] == e;
      assert |LeafSlots(cs, key, Remove)| == |cs| - 1;
    } else {
      assert |s| == |cs| + 1;
    }
  }

  method Set(root: Node, key: Key, value: Value, st: Stack, ghost h: nat, ghost m: nat) returns (r: Node, ghost h': nat)
    requires st.Ready(root, h) && h + 1 < MAXIMUM_TREE_DEPTH
    requires key != [] && Fits(st.tree, NodeDataChild(key, value, None))
    modifies st
    ensures st.Ready(r, h')
    ensures TreeMap(st.tree, r, h') == TreeMap(st.tree, root, h)[key := value]
    ensures Settles(st.tree, root, h, key, Put(value), r, h', m)
  {
    hide WfChildren, Flat, Left, Right, Less, ToMap, Aimed, NodeAt, Below, Up, LeafSlots, Settles, Tended, Spliced;
    var found := Locate(st, key, root, h);
    var child := NodeDataChild(key, value, None);
    ghost var p, n, cs, i := st.PathHere(), st.CurrentNode(), st.CurrentNode().children, st.Index();
    EditedSlots(st.tree, n, key, value);
    ghost var a, b := st.Before(h), FromAt(st.tree, p, cs, if found then i + 1 else i, h);
    SplicedContents(st.tree, p, cs, i, found, Some(child), h);
    SplicedWf(st.tree, cs, i, found, Some(child), 0);
    if found {
      MapAround(a, Entry(key, st.Child().value.value), b);
    }
    SortedAround(a, Entry(key, value), b);
    MapAround(a, Entry(key, value), b);
    ghost var h1 := h;
    if !found {
      h1 := st.AddChildAt(child, h);
    } else if st.Child().value.value != value {
      st.RewriteAtIndex(true, Some(child), h);
    }
    if found {
      UpOne(st.tree, p, st.CurrentNode());
    }
    ghost var whole, small := Whole(Up(st.tree, st.PathHere(), One(st.CurrentNode()))), st.smallCount > 0;
    r, h' := st.Commit(h1, m);
    SettledBy(st.tree, p, n, root, h, key, Put(value), small, whole, h1, r, h', m);
  }

  // ----- when a tree of one leaf grows

  ghost function EntriesSize(s: seq<Entry>): nat {
    if s == [] then 0 else EntriesSize(s[..|s| - 1]) + CHILD_OVERHEAD + |s[|s| - 1].key| + |s[|s| - 1].value|
  }

  lemma {:induction false} EntriesSizeConcat(a: seq<Entry>, b: seq<Entry>)
    ensures EntriesSize(a + b) == EntriesSize(a) + EntriesSize(b)
    decreases |b|
  {
    if b == [] {
      assert a + b == a;
    } else {
      var front := b[..|b| - 1];
      assert (a + b)[..|a + b| - 1] == a + front;
      EntriesSizeConcat(a, front);
    }
  }

  lemma {:induction false} LeafEntriesSize(t: Tree, cs: seq<NodeDataChild>)
    ensures EntriesSize(Flat(t, cs, 0)) == ChildrenSize(cs)
    decreases |cs|
  {
    if cs == [] {
      FlatNone(t, 0);
    } else {
      var e := Entry(cs[0].key, cs[0].value);
      LeafEntriesSize(t, cs[1..]);
      assert cs == [cs[0]] + cs[1..];
      FlatConcat(t, [cs[0]], cs[1..], 0);
      FlatOne(t, cs[0], 0);
      EntriesSizeConcat([e], Flat(t, cs[1..], 0));
      assert [e][..0] == [];
      assert EntriesSize([e]) == EntriesSize([e][..0]) + CHILD_OVERHEAD + |e.key| + |e.value|;
    }
  }

  /** Leaves take no less than their entries in one node. */
  lemma {:induction false} LeavesSize(t: Tree, cs: seq<NodeDataChild>)
    requires AllLoadable(t, cs)
    ensures SizesBelow(t, cs) >= EntriesSize(Flat(t, cs, 1)) + if cs == [] then 0 else NODE_HEADER
    decreases |cs|
  {
    hide Flat, ChildrenSize;
    if cs == [] {
      FlatNone(t, 1);
    } else {
      var front, c := cs[..|cs| - 1], cs[|cs| - 1];
      LeavesSize(t, front);
      assert cs == front + [c];
      FlatConcat(t, front, [c], 1);
      FlatOne(t, c, 1);
      LeafEntriesSize(t, ChildNode(t, c).children);
      EntriesSizeConcat(Flat(t, front, 1), FlatChild(t, c, 1));
    }
  }

  lemma NotInLeaf(t: Tree, n: Node, key: Key)
    requires Sorted(Flat(t, n.children, 0)) && key !in TreeMap(t, n, 0)
    ensures !Has(n.children, key)
  {
    hide ToMap, Below, Less;
    MapFacts(Flat(t, n.children, 0));
    FlatLeafLength(t, n.children);
  }

  lemma PairEntries(t: Tree, a: Node, b: Node)
    requires a.children != [] && b.children != []
    ensures Flat(t, Whole(Two(a, b)).children, 1) == Flat(t, a.children + b.children, 0)
  {
    hide Flat;
    var x, y := Slot(a.children, a), Slot(b.children, b);
    FlatConcat(t, [x], [y], 1);
    FlatOne(t, x, 1);
    FlatOne(t, y, 1);
    FlatConcat(t, a.children, b.children, 0);
  }

  /** A new key in a tree of one leaf: the tree gets a level exactly if the leaf with the
      new entry is too big, and otherwise stays one leaf of just that size. */
  lemma RootLeafGrows(t: Tree, root: Node, key: Key, value: Value, r: Node, h': nat, m: nat)
    requires t.Valid() && WfRoot(t, root, 0) && Fits(t, NodeDataChild(key, value, None)) && key !in TreeMap(t, root, 0)
    requires Settles(t, root, 0, key, Put(value), r, h', m)
    ensures h' == if Msgsize(root) + CHILD_OVERHEAD + |key| + |value| > t.nodeMaximumSize then 1 else 0
    ensures h' == 0 ==> Msgsize(r) == Msgsize(root) + CHILD_OVERHEAD + |key| + |value|
  {
    hide Flat, ToMap, Below, ChildrenSize, LeafSlots, Edited, SizesBelow, Even, Tidy, DeepTidy, DeepRoomy, Gathered;
    NotInLeaf(t, root, key);
    InsertedLeaf(t, root, key, value);
    PiecesFilled(t, root, 0, key, value);
    var x := Edited(t, root, 0, key, Put(value));
    LeafStays(t, root, key, value);
    if x.Two? && Shrinks(t, root, 0, key, Put(value)) {
      var n :| Tidied(t, Whole(x), n, 1, m) &&
        if Collapsible(t, n) then h' + 1 == 1 && r == Node(h' == 0, Gathered(t, n.children), None) else h' == 1 && r == n;
      if Collapsible(t, n) {
        LeavesSize(t, n.children);
        PairEntries(t, x.left, x.right);
        LeafEntriesSize(t, x.left.children + x.right.children);
        InsertedTotal(root, key, value);
        FlatNone(t, 1);
      }
    }
  }

  lemma LeafStays(t: Tree, n: Node, key: Key, value: Value)
    requires n.leafy
    ensures var x := Edited(t, n, 0, key, Put(value)); x.One? ==> x.node.leafy
  {
    hide Below;
  }

  lemma InsertedTotal(n: Node, key: Key, value: Value)
    requires !Has(n.children, key)
    ensures ChildrenSize(LeafSlots(n.children, key, Put(value))) == ChildrenSize(n.children) + CHILD_OVERHEAD + |key| + |value|
  {
    hide Below, ChildrenSize;
    var i := Below(n.children, key);
    assert n.children == n.children[..i] + n.children[i..];
    InsertedSize(n.children[..i], NodeDataChild(key, value, None), n.children[i..]);
  }

  method Delete(root: Node, key: Key, st: Stack, ghost h: nat, ghost m: nat) returns (r: Node, ghost h': nat)
    requires st.Ready(root, h) && key in TreeMap(st.tree, root, h)
    requires h > 0 ==> |TreeMap(st.tree, root, h)| > 1
    modifies st
    ensures st.Ready(r, h')
    ensures TreeMap(st.tree, r, h') == TreeMap(st.tree, root, h) - {key}
    ensures Settles(st.tree, root, h, key, Remove, r, h', m)
  {
    hide WfChildren, Flat, Left, Right, Less, ToMap, Aimed, NodeAt, Below, Up, LeafSlots, Settles, Tended, Spliced;
    var found := Locate(st, key, root, h);
    ghost var p, n, cs, i := st.PathHere(), st.CurrentNode(), st.CurrentNode().children, st.Index();
    EditedSlots(st.tree, n, key, []);
    ghost var a, b := st.Before(h), FromAt(st.tree, p, cs, if found then i + 1 else i, h);
    if !found {
      KeysBeside(a, b, key);
    }
    MapAround(a, Entry(key, st.Child().value.value), b);
    SplicedContents(st.tree, p, cs, i, true, None, h);
    SplicedWf(st.tree, cs, i, true, None, 0);
    assert a + [] + b == a + b;
    assert ToMap(a + b) != map[] ==> a + b != [] by { EmptyMap(); }
    st.RewriteAtIndex(true, None, h);
    UpOne(st.tree, p, st.CurrentNode());
    ghost var whole, small := Whole(Up(st.tree, st.PathHere(), One(st.CurrentNode()))), st.smallCount > 0;
    r, h' := st.Commit(h, m);
    SettledBy(st.tree, p, n, root, h, key, Remove, small, whole, h, r, h', m);
  }

  lemma EmptyMap()
    ensures ToMap([]) == map[]
  {
  }

  // ----- neighbours of a key

  ghost predicate NoneAbove(s: seq<Entry>, key: Key) {
    forall i :: 0 <= i < |s| ==> !Less(key, s[i].key)
  }

  /** `r` is the least key of `m` above `key`. */
  ghost predicate IsNextKey(m: map<Key, Value>, key: Key, r: Option<Key>) {
    match r
    case None => forall k :: k in m ==> !Less(key, k)
    case Some(n) => n in m && Less(key, n) && forall k :: k in m && Less(key, k) ==> !Less(k, n)
  }

  /** `r` is the greatest key of `m` below `key`. */
  ghost predicate IsPrevKey(m: map<Key, Value>, key: Key, r: Option<Key>) {
    match r
    case None => forall k :: k in m ==> !Less(k, key)
    case Some(n) => n in m && Less(n, key) && forall k :: k in m && Less(k, key) ==> !Less(n, k)
  }

  /** The first slot of a leaf on is the first entry on. */
  lemma EntryAt(t: Tree, p: seq<Frame>, cs: seq<NodeDataChild>, i: nat, h: nat)
    requires WfPath(t, p, h) && |p| == h && i < |cs|
    ensures FromAt(t, p, cs, i, h) == [Entry(cs[i].key, cs[i].value)] + FromAt(t, p, cs, i + 1, h)
    ensures BeforeAt(t, p, cs, i + 1, h) == BeforeAt(t, p, cs, i, h) + [Entry(cs[i].key, cs[i].value)]
  {
    hide Left, Right;
    assert cs[i..] == [cs[i]] + cs[i + 1..];
    FlatConcat(t, [cs[i]], cs[i + 1..], 0);
    assert cs[..i + 1] == cs[..i] + [cs[i]];
    FlatConcat(t, cs[..i], [cs[i]], 0);
    FlatOne(t, cs[i], 0);
  }

  method SearchGreater(st: Stack, key: Key, ghost root: Node, ghost h: nat)
    requires st.Browsing(root, h)
    modifies st
    ensures st.smallCount == old(st.smallCount)
    ensures st.Browsing(root, h) && st.Valid(h) && 0 <= st.Index() <= |st.CurrentNode().children|
    ensures (st.top == h && st.Child().Some?) || (st.top == 0 && st.Index() == |st.CurrentNode().children|)
    ensures NoneAbove(st.Before(h), key)
    ensures var from := st.From(h);
            && AllAbove(from, key)
            && Flat(st.tree, root.children, h) == st.Before(h) + from
            && (st.Child().Some? ==> from != [] && from[0] == Entry(st.Child().value.key, st.Child().value.value))
            && (st.Child().None? ==> from == [])
  {
    hide WfChild, Flat, Left, Right, Less, Aimed, NodeAt, Below;
    var found := Locate(st, key, root, h);
    ghost var a, b := st.Before(h), FromAt(st.tree, st.PathHere(), st.CurrentNode().children,
                                           if found then st.Index() + 1 else st.Index(), h);
    BelowIsNotAbove(a, key);
    if st.Child().Some? {
      EntryAt(st.tree, st.PathHere(), st.CurrentNode().children, st.Index(), h);
    }
    if st.Child().None? || st.Child().value.key == key {
      LessIrreflexive(key);
      var _ := st.GoNextLeaf(root, h);
    }
    st.BrowsingIsValid(root, h);
    ghost var cs, i := st.CurrentNode().children, st.Index();
    BeforeAndFrom(st.tree, st.PathHere(), cs, i, h);
    if st.Child().Some? {
      EntryAt(st.tree, st.PathHere(), cs, i, h);
    } else {
      NothingFrom(st.tree, cs, h);
      assert st.PathHere() == [];
    }
    Cancel(st.Before(h), FromAt(st.tree, st.PathHere(), cs, i, h), b);
  }

  lemma Cancel<T>(x: seq<T>, a: seq<T>, b: seq<T>)
    requires x + a == x + b
    ensures a == b
  {
    assert a == (x + a)[|x|..] == (x + b)[|x|..] == b;
  }

  method SearchLesser(st: Stack, key: Key, ghost root: Node, ghost h: nat)
    requires st.Browsing(root, h)
    modifies st
    ensures st.smallCount == old(st.smallCount)
    ensures st.Browsing(root, h) && st.Valid(h) && -1 <= st.Index() < |st.CurrentNode().children|
    ensures (st.top == h && st.Child().Some?) || (st.top == 0 && st.Index() == -1)
    ensures AllBelow(st.UpTo(h), key)
    ensures st.UpTo(h) <= Flat(st.tree, root.children, h)
    ensures NoneBelow(Flat(st.tree, root.children, h)[|st.UpTo(h)|..], key)
    ensures st.Child().Some? ==>
              st.UpTo(h) != [] && st.UpTo(h)[|st.UpTo(h)| - 1] == Entry(st.Child().value.key, st.Child().value.value)
    ensures st.Child().None? ==> st.UpTo(h) == []
  {
    hide WfChild, Flat, Left, Right, Less, AllBelow, AllAbove, NoneBelow, WfPath, Sorted, BeforeAt, FromAt, Aimed, NodeAt, Below;
    var found := Locate(st, key, root, h);
    ghost var a, b := st.Before(h), FromAt(st.tree, st.PathHere(), st.CurrentNode().children,
                                           if found then st.Index() + 1 else st.Index(), h);
    ghost var rest := if found then [Entry(key, st.Child().value.value)] + b else b;
    assert Flat(st.tree, root.children, h) == a + rest;
    RestNotBelow(a, rest, b, key);
    if st.Child().None? || !Less(st.Child().value.key, key) {
      var _ := st.GoPreviousLeaf(root, h);
    }
    LastUpTo(st, root, h);
  }

  /** What is up to the cursor ends with the entry at the cursor. */
  lemma LastUpTo(st: Stack, root: Node, h: nat)
    requires st.Browsing(root, h) && st.Valid(h) && -1 <= st.Index() < |st.CurrentNode().children|
    requires (st.top == h && st.Child().Some?) || (st.top == 0 && st.Index() == -1)
    ensures st.Child().Some? ==>
              st.UpTo(h) != [] && st.UpTo(h)[|st.UpTo(h)| - 1] == Entry(st.Child().value.key, st.Child().value.value)
    ensures st.Child().None? ==> st.UpTo(h) == []
  {
    hide WfChild, Flat, Left, Right, Less, WfPath, Sorted;
    var cs, i := st.CurrentNode().children, st.Index();
    if st.Child().Some? {
      EntryAt(st.tree, st.PathHere(), cs, i, h);
    } else {
      NothingFrom(st.tree, cs, h);
      assert st.PathHere() == [];
    }
  }

  lemma RestNotBelow(a: seq<Entry>, rest: seq<Entry>, b: seq<Entry>, key: Key)
    requires AllAbove(b, key)
    requires rest == b || (rest != [] && rest[0].key == key && rest[1..] == b)
    ensures (a + rest)[|a|..] == rest && NoneBelow(rest, key)
  {
    hide Less;
    AboveIsNotBelow(b, key);
    LessIrreflexive(key);
    if rest != b {
      assert forall i :: 1 <= i < |rest| ==> rest[i] == b[i - 1];
    }
  }

  lemma AboveIsNotBelow(s: seq<Entry>, key: Key)
    requires AllAbove(s, key)
    ensures NoneBelow(s, key)
  {
    forall i | 0 <= i < |s| ensures !Less(s[i].key, key) {
      LessAsymmetric(key, s[i].key);
    }
  }

  method NextKey(root: Node, key: Key, st: Stack, ghost h: nat) returns (r: Option<Key>)
    requires st.Ready(root, h)
    modifies st
    ensures st.Ready(root, h)
    ensures IsNextKey(TreeMap(st.tree, root, h), key, r)
  {
    hide WfChild, Flat, Left, Right, Less, ToMap;
    SearchGreater(st, key, root, h);
    var c := st.Child();
    ghost var a, b := st.Before(h), st.From(h);
    FirstAbove(a, b, key);
    st.top := 0;
    r := if c.None? then None else Some(c.value.key);
  }

  method PrevKey(root: Node, key: Key, st: Stack, ghost h: nat) returns (r: Option<Key>)
    requires st.Ready(root, h)
    modifies st
    ensures st.Ready(root, h)
    ensures IsPrevKey(TreeMap(st.tree, root, h), key, r)
  {
    hide WfChild, Flat, Left, Right, Less, ToMap;
    SearchLesser(st, key, root, h);
    var c := st.Child();
    ghost var a, s := st.UpTo(h), Flat(st.tree, root.children, h);
    assert s == a + s[|a|..];
    LastBelow(a, s[|a|..], key);
    st.top := 0;
    r := if c.None? then None else Some(c.value.key);
  }

  lemma FirstAbove(a: seq<Entry>, b: seq<Entry>, key: Key)
    requires Sorted(a + b) && NoneAbove(a, key) && AllAbove(b, key)
    ensures IsNextKey(ToMap(a + b), key, if b == [] then None else Some(b[0].key))
  {
    hide ToMap, Less;
    var s := a + b;
    MapFacts(s);
    if b != [] {
      assert s[|a|] == b[0];
      forall k | k in ToMap(s) && Less(key, k) ensures !Less(k, b[0].key) {
        var i :| 0 <= i < |s| && s[i].key == k;
        assert i >= |a|;
        LessIrreflexive(k);
        if i > |a| {
          LessAsymmetric(s[|a|].key, s[i].key);
        }
      }
    } else {
      forall k | k in ToMap(s) ensures !Less(key, k) {
        var i :| 0 <= i < |s| && s[i].key == k;
        assert a[i] == s[i];
      }
    }
  }

  lemma LastBelow(a: seq<Entry>, b: seq<Entry>, key: Key)
    requires Sorted(a + b) && AllBelow(a, key) && NoneBelow(b, key)
    ensures IsPrevKey(ToMap(a + b), key, if a == [] then None else Some(a[|a| - 1].key))
  {
    hide ToMap, Less;
    var s := a + b;
    MapFacts(s);
    if a != [] {
      assert s[|a| - 1] == a[|a| - 1];
      forall k | k in ToMap(s) && Less(k, key) ensures !Less(a[|a| - 1].key, k) {
        var i :| 0 <= i < |s| && s[i].key == k;
        assert i < |a|;
        LessIrreflexive(k);
        if i < |a| - 1 {
          LessAsymmetric(s[i].key, s[|a| - 1].key);
        }
      }
    } else {
      forall k | k in ToMap(s) ensures !Less(k, key) {
        var i :| 0 <= i < |s| && s[i].key == k;
        assert b[i] == s[i];
      }
    }
  }

  lemma NothingFrom(t: Tree, cs: seq<NodeDataChild>, h: nat)
    ensures FromAt(t, [], cs, |cs|, h) == [] && BeforeAt(t, [], cs, 0, h) == []
  {
  }

  lemma BelowIsNotAbove(s: seq<Entry>, key: Key)
    requires AllBelow(s, key)
    ensures NoneAbove(s, key)
  {
    forall i | 0 <= i < |s| ensures !Less(key, s[i].key) {
      LessAsymmetric(s[i].key, key);
    }
  }

  // ----- removing a range

  /** Equal lists of slots, except for the one at `i`, if there is one. */
  ghost predicate SameBeside(a: seq<NodeDataChild>, b: seq<NodeDataChild>, i: int) {
    && |a| == |b|
    && (0 <= i <= |a| ==> a[..i] == b[..i])
    && (-1 <= i < |a| ==> a[i + 1..] == b[i + 1..])
  }

  /** A cursor at an entry is where a search for its key ends. */
  lemma CursorAimed(st: Stack, root: Node, h: nat)
    requires st.Browsing(root, h) && st.Valid(h) && st.top == h && st.Child().Some?
    ensures Aimed(st.tree, st.PathHere(), st.CurrentNode(), st.Child().value.key)
    ensures NodeAt(st.PathHere(), st.CurrentNode(), 0) == root
    ensures st.Index() == Below(st.CurrentNode().children, st.Child().value.key)
  {
    hide WfChild, WfChildren, Flat, Left, Right, Less, Sorted, WfPath, Aimed, Below, Within, Contents;
    CursorChained(st, root, h);
    st.SlotsAtCursor(h);
    BelowEntry(st.tree, st.CurrentNode().children, st.Index());
    PathIsAimed(st.tree, st.PathHere(), st.CurrentNode(), h, st.Child().value.key);
  }

  lemma CursorChained(st: Stack, root: Node, h: nat)
    requires st.Browsing(root, h)
    ensures Chained(st.tree, st.PathHere(), st.CurrentNode()) && NodeAt(st.PathHere(), st.CurrentNode(), 0) == root
    ensures Sorted(Flat(st.tree, root.children, h))
  {
    hide WfChild, WfChildren, Flat, Sorted;
    var p, n := st.PathHere(), st.CurrentNode();
    forall k | 0 <= k < |p|
      ensures 0 <= p[k].index < |p[k].node.children| && Loadable(st.tree, p[k].node.children[p[k].index])
      ensures NodeAt(p, n, k + 1) == ChildNode(st.tree, p[k].node.children[p[k].index])
    {
      assert LinkAt(st.tree, st.nodes, st.indexes, k);
    }
  }

  /** Drops everything left of the cursor in the nodes below level `unique`.  A leaf that
      becomes small by that is counted. */
  method TrimLeft(st: Stack, unique: nat, ghost b: Key, ghost h: nat)
    requires st.Valid(h) && unique <= st.top
    requires 0 <= st.Index() <= |st.CurrentNode().children|
    requires st.top > unique ==> st.Child().Some? && st.top == h
    requires st.top > unique ==> Aimed(st.tree, st.PathHere(), st.CurrentNode(), b)
                                 && st.Index() == Below(st.CurrentNode().children, b)
    modifies st
    ensures st.Valid(h) && st.top == unique && st.indexes == old(st.indexes)
    ensures st.PathHere() == old(st.PathHere())[..unique]
    ensures 0 <= st.Index() <= |st.CurrentNode().children|
    ensures st.From(h) == old(st.From(h))
    ensures var n := if old(st.top) > unique then old(st.PathHere())[unique].node else old(st.CurrentNode());
            && st.CurrentNode().leafy == n.leafy
            && SameBeside(st.CurrentNode().children, n.children, st.Index())
    ensures st.top == old(st.top) ==> unchanged(st)
    ensures st.top < old(st.top) ==>
              && CutLeft(st.tree, old(st.PathHere()), old(st.CurrentNode()), unique, h, b) == st.CurrentNode()
              && st.smallCount == old(st.smallCount) + LeftSmall(st.tree, old(st.CurrentNode()), old(st.Index()))
  {
    hide WfChild, WfChildren, Flat, Left, Right, Less, Aimed, CutLeft, LeftSmall, Below, TailFrom;
    while st.top > unique
      invariant unique <= st.top <= old(st.top)
      invariant st.Valid(h) && st.indexes == old(st.indexes)
      invariant st.PathHere() == old(st.PathHere())[..st.top]
      invariant 0 <= st.Index() <= |st.CurrentNode().children|
      invariant st.top > unique ==> st.Child().Some?
      invariant st.From(h) == old(st.From(h))
      invariant st.top < old(st.top) ==>
                  && CutLeft(st.tree, old(st.PathHere()), old(st.CurrentNode()), st.top, h, b) == st.CurrentNode()
                  && st.smallCount == old(st.smallCount) + LeftSmall(st.tree, old(st.CurrentNode()), old(st.Index()))
      invariant var n := if old(st.top) > st.top then old(st.PathHere())[st.top].node else old(st.CurrentNode());
                && st.CurrentNode().leafy == n.leafy
                && SameBeside(st.CurrentNode().children, n.children, st.Index())
      invariant st.top == old(st.top) ==> unchanged(st)
    {
      ghost var n, top := st.CurrentNode(), st.top;
      TailStep(st.tree, old(st.PathHere()), old(st.CurrentNode()), n, top, st.Index(), h, b);
      TrimLeftOnce(st, h);
    }
  }

  /** A node without the slots left of `i`. */
  ghost function Dropped(n: Node, i: nat): Node {
    if 0 < i <= |n.children| then Node(n.leafy, n.children[i..], None) else n
  }

  ghost function LeftSmall(t: Tree, n: Node, i: int): (r: nat)
    ensures r <= 1
  {
    if i > 0 && Msgsize(Dropped(n, i)) <= t.SmallSize() then 1 else 0
  }

  /** The node at level `k` with the one below it trimmed. */
  ghost function CutLeft(t: Tree, p: seq<Frame>, n: Node, k: nat, h: nat, b: Key): Node
    requires k < |p| <= h
  {
    if !(0 <= p[k].index < |p[k].node.children|) then n
    else Node(false, Plugged(p[k], TailFrom(t, NodeAt(p, n, k + 1), h - k - 1, b)), None)
  }

  /** Trimming the node at level `k` as well. */
  lemma TailStep(t: Tree, p: seq<Frame>, n: Node, m: Node, k: nat, i: int, h: nat, b: Key)
    requires |p| == h && Aimed(t, p, n, b) && 0 < k <= |p| && 0 <= i < |m.children|
    requires if k == |p| then m == n && i == Below(n.children, b) else
             m == CutLeft(t, p, n, k, h, b) && i == p[k].index && |m.children| == |p[k].node.children|
    ensures CutLeft(t, p, n, k - 1, h, b) == Node(false, Plugged(p[k - 1], Dropped(m, i)), None)
    ensures 0 <= p[k - 1].index < |p[k - 1].node.children|
    ensures k < |p| ==> !m.leafy
  {
    hide Aimed, Below, Toward;
    AimedAt(t, p, n, b, k - 1);
    if k < |p| {
      AimedAt(t, p, n, b, k);
      var cs, x := p[k].node.children, SlotOf(TailFrom(t, NodeAt(p, n, k + 1), h - k - 1, b));
      assert m.children == cs[..i] + x + cs[i + 1..];
      assert m.children[i..] == x + cs[i + 1..];
      assert i == 0 ==> m.children == m.children[i..];
    }
  }

  method TrimLeftOnce(st: Stack, ghost h: nat)
    requires st.Valid(h) && st.top > 0 && st.Child().Some?
    modifies st
    ensures st.Valid(h) && st.top == old(st.top) - 1 && st.indexes == old(st.indexes)
    ensures st.PathHere() == old(st.PathHere())[..st.top]
    ensures st.Child().Some?
    ensures st.From(h) == old(st.From(h))
    ensures var n := old(st.PathHere())[st.top].node;
            && st.CurrentNode().leafy == n.leafy
            && SameBeside(st.CurrentNode().children, n.children, st.Index())
    ensures 0 <= old(st.PathHere())[st.top].index < |old(st.PathHere())[st.top].node.children|
    ensures st.CurrentNode() == Node(false, Plugged(old(st.PathHere())[st.top], Dropped(old(st.CurrentNode()), old(st.Index()))), None)
    ensures st.smallCount == old(st.smallCount) +
              if old(st.CurrentNode().leafy) then LeftSmall(st.tree, old(st.CurrentNode()), old(st.Index())) else 0
  {
    hide WfChild, WfChildren, Flat, Left, Right, Less;
    var idx := st.Index();
    ghost var cs, p, f := st.CurrentNode().children, st.PathHere()[..st.top - 1], st.PathHere()[st.top - 1];
    assert st.PathHere() == p + [f];
    if idx > 0 {
      KeepSlots(st.tree, st.PathHere(), cs, idx, |cs|, h);
      assert cs[idx..|cs|] == cs[idx..];
      st.RewriteNodeChildren(st.CurrentNode().children[idx..], h);
    }
    assert st.CurrentNode().children == cs[idx..];
    assert WfNode(st.tree, f.node, h - |p|);
    PluggedEnds(st.tree, p, f, st.CurrentNode(), h);
    st.Pop(h);
    assert st.PathHere() == p;
  }

  /** Drops everything right of the cursor in the nodes below level `unique`. */
  method TrimRight(st: Stack, unique: nat, ghost a: Key, ghost h: nat)
    requires st.Valid(h) && unique <= st.top
    requires -1 <= st.Index() < |st.CurrentNode().children|
    requires st.top > unique ==> st.Child().Some? && st.top == h
    requires st.top > unique ==> Aimed(st.tree, st.PathHere(), st.CurrentNode(), a)
                                 && st.Index() == Below(st.CurrentNode().children, a)
    modifies st
    ensures st.Valid(h) && st.top == unique && st.indexes == old(st.indexes)
    ensures st.PathHere() == old(st.PathHere())[..unique]
    ensures -1 <= st.Index() < |st.CurrentNode().children|
    ensures st.UpTo(h) == old(st.UpTo(h))
    ensures var n := if old(st.top) > unique then old(st.PathHere())[unique].node else old(st.CurrentNode());
            SameBeside(st.CurrentNode().children, n.children, st.Index())
    ensures st.top == old(st.top) ==> unchanged(st)
    ensures st.top < old(st.top) ==>
              CutRight(st.tree, old(st.PathHere()), old(st.CurrentNode()), unique, h, a) == st.CurrentNode()
  {
    hide WfChild, WfChildren, Flat, Left, Right, Less, Aimed, CutRight, Below, HeadTo;
    while st.top > unique
      invariant unique <= st.top <= old(st.top)
      invariant st.Valid(h) && st.indexes == old(st.indexes)
      invariant st.top < old(st.top) ==>
                  CutRight(st.tree, old(st.PathHere()), old(st.CurrentNode()), st.top, h, a) == st.CurrentNode()
      invariant st.PathHere() == old(st.PathHere())[..st.top]
      invariant -1 <= st.Index() < |st.CurrentNode().children|
      invariant st.top > unique ==> st.Child().Some?
      invariant st.UpTo(h) == old(st.UpTo(h))
      invariant var n := if old(st.top) > st.top then old(st.PathHere())[st.top].node else old(st.CurrentNode());
                SameBeside(st.CurrentNode().children, n.children, st.Index())
      invariant st.top == old(st.top) ==> unchanged(st)
    {
      HeadStep(st.tree, old(st.PathHere()), old(st.CurrentNode()), st.CurrentNode(), st.top, st.Index(), h, a);
      TrimRightOnce(st, h);
    }
  }

  /** A node without the slots right of `i`. */
  ghost function Shortened(n: Node, i: nat): Node {
    if i + 1 < |n.children| then Node(n.leafy, n.children[..i + 1], None) else n
  }

  /** The node at level `k` with the one below it trimmed. */
  ghost function CutRight(t: Tree, p: seq<Frame>, n: Node, k: nat, h: nat, a: Key): Node
    requires k < |p| <= h
  {
    if !(0 <= p[k].index < |p[k].node.children|) then n
    else Node(false, Plugged(p[k], HeadTo(t, NodeAt(p, n, k + 1), h - k - 1, a)), None)
  }

  lemma HeadStep(t: Tree, p: seq<Frame>, n: Node, m: Node, k: nat, i: int, h: nat, a: Key)
    requires |p| == h && Aimed(t, p, n, a) && 0 < k <= |p| && 0 <= i < |m.children|
    requires if k == |p| then m == n && i == Below(n.children, a) else
             m == CutRight(t, p, n, k, h, a) && i == p[k].index && |m.children| == |p[k].node.children|
    ensures CutRight(t, p, n, k - 1, h, a) == Node(false, Plugged(p[k - 1], Shortened(m, i)), None)
    ensures 0 <= p[k - 1].index < |p[k - 1].node.children|
  {
    hide Aimed, Below, Toward;
    AimedAt(t, p, n, a, k - 1);
    if k < |p| {
      AimedAt(t, p, n, a, k);
      var cs, x := p[k].node.children, SlotOf(HeadTo(t, NodeAt(p, n, k + 1), h - k - 1, a));
      assert m.children == cs[..i] + x + cs[i + 1..];
      assert m.children[..i + 1] == cs[..i] + x;
      assert i + 1 == |cs| ==> m.children == m.children[..i + 1];
    }
  }

  method TrimRightOnce(st: Stack, ghost h: nat)
    requires st.Valid(h) && st.top > 0 && st.Child().Some?
    modifies st
    ensures st.Valid(h) && st.top == old(st.top) - 1 && st.indexes == old(st.indexes)
    ensures st.PathHere() == old(st.PathHere())[..st.top]
    ensures st.Child().Some?
    ensures st.UpTo(h) == old(st.UpTo(h))
    ensures SameBeside(st.CurrentNode().children, old(st.PathHere())[st.top].node.children, st.Index())
    ensures 0 <= old(st.PathHere())[st.top].index < |old(st.PathHere())[st.top].node.children|
    ensures st.CurrentNode() == Node(false, Plugged(old(st.PathHere())[st.top], Shortened(old(st.CurrentNode()), old(st.Index()))), None)
  {
    hide WfChild, WfChildren, Flat, Left, Right, Less;
    var cl, idx := st.CurrentNode().children, st.Index();
    ghost var p, f := st.PathHere()[..st.top - 1], st.PathHere()[st.top - 1];
    assert st.PathHere() == p + [f];
    if idx < |cl| - 1 {
      KeepSlots(st.tree, st.PathHere(), cl, 0, idx + 1, h);
      st.RewriteNodeChildren(cl[..idx + 1], h);
    }
    assert st.CurrentNode().children == cl[..idx + 1];
    assert WfNode(st.tree, f.node, h - |p|);
    PluggedEnds(st.tree, p, f, st.CurrentNode(), h);
    st.Pop(h);
    assert st.PathHere() == p;
  }

  /** Two cursors on one tree with equal indexes down to level `k` share the
      nodes down to there. */
  lemma {:induction false} SameNodes(t: Tree, ns: seq<Option<Node>>, ms: seq<Option<Node>>, idx: seq<int>, jdx: seq<int>, k: nat)
    requires k < |ns| == |ms| == |idx| == |jdx|
    requires ns[0] == ms[0] && idx[..k] == jdx[..k]
    requires LinkedFrom(t, ns, idx, 0, k) && LinkedFrom(t, ms, jdx, 0, k)
    ensures ns[..k + 1] == ms[..k + 1]
  {
    if k > 0 {
      assert idx[..k - 1] == idx[..k][..k - 1] == jdx[..k][..k - 1] == jdx[..k - 1];
      SameNodes(t, ns, ms, idx, jdx, k - 1);
      assert ns[k - 1] == ns[..k][k - 1] == ms[..k][k - 1] == ms[k - 1];
      assert idx[k - 1] == idx[..k][k - 1] == jdx[..k][k - 1] == jdx[k - 1];
      assert LinkAt(t, ns, idx, k - 1) && LinkAt(t, ms, jdx, k - 1);
      assert ns[..k + 1] == ns[..k] + [ns[k]];
      assert ms[..k + 1] == ms[..k] + [ms[k]];
    }
  }

  /** Where the kept left part ends and the kept right part starts, in the node
      in which the two cursors part. */
  lemma CutsInOrder(t: Tree, p: seq<Frame>, n: Node, c1: seq<NodeDataChild>, c2: seq<NodeDataChild>,
                    i1: int, i2: nat, h: nat)
    requires WfPath(t, p, h) && WfChildren(t, c1, h - |p|) && WfChildren(t, c2, h - |p|)
    requires -1 <= i1 < |c1| && i2 <= |c2|
    requires SameBeside(c1, n.children, i1) && SameBeside(c2, n.children, i2)
    requires |p| == h ==> c1 == n.children && c2 == n.children
    requires i1 == i2 ==> |p| == h
    ensures i2 <= i1 ==>
              |BeforeAt(t, p, c1, i1 + 1, h)| + |FromAt(t, p, c2, i2, h)| > |Contents(t, p, n.children, h)|
  {
    hide WfChild, WfChildren, Flat, Left, Right;
    if i2 <= i1 {
      var k := h - |p|;
      CutAt(t, c1, i1, k);
      CutAt(t, c2, i2, k);
      FlatCut(t, n.children, i2 + 1, k);
      if i1 == i2 {
        CutAt(t, n.children, i1, 0);
        FlatCut(t, n.children, i1, 0);
        LeafSlot(t, c1[i1]);
      } else {
        FlatCut(t, n.children[..i1], i2 + 1, k);
        assert n.children[..i1][..i2 + 1] == n.children[..i2 + 1];
      }
    }
  }

  lemma LeafSlot(t: Tree, c: NodeDataChild)
    ensures |FlatChild(t, c, 0)| == 1
  {
  }

  lemma CutAt(t: Tree, cs: seq<NodeDataChild>, i: nat, h: nat)
    requires WfChildren(t, cs, h) && i < |cs|
    ensures FlatChild(t, cs[i], h) != []
    ensures Flat(t, cs[..i + 1], h) == Flat(t, cs[..i], h) + FlatChild(t, cs[i], h)
    ensures Flat(t, cs[i..], h) == FlatChild(t, cs[i], h) + Flat(t, cs[i + 1..], h)
  {
    hide Flat, FlatChild, WfChild;
    assert cs[..i + 1] == cs[..i] + [cs[i]];
    FlatConcat(t, cs[..i], [cs[i]], h);
    assert cs[i..] == [cs[i]] + cs[i + 1..];
    FlatConcat(t, [cs[i]], cs[i + 1..], h);
    FlatOne(t, cs[i], h);
    FlatFirst(t, cs[i..], h);
  }

  /** `m` without the keys from `key1` to `key2`, both included. */
  function Without(m: map<Key, Value>, key1: Key, key2: Key): map<Key, Value> {
    map k | k in m && (Less(k, key1) || Less(key2, k)) :: m[k]
  }

  ghost predicate AllBetween(s: seq<Entry>, key1: Key, key2: Key) {
    NoneBelow(s, key1) && NoneAbove(s, key2)
  }

  lemma RangeRemoved(a: seq<Entry>, m: seq<Entry>, b: seq<Entry>, key1: Key, key2: Key)
    requires Sorted(a + m + b)
    requires AllBelow(a, key1) && AllBetween(m, key1, key2) && AllAbove(b, key2)
    ensures Sorted(a + b)
    ensures ToMap(a + b) == Without(ToMap(a + m + b), key1, key2)
  {
    hide ToMap, Less;
    SortedWithout(a, m, b);
    MapOfParts(a + m, b);
    MapOfParts(a, m);
    MapOfParts(a, b);
    MapFacts(a);
    MapFacts(m);
    MapFacts(b);
  }

  /** The part between what two searches keep. */
  lemma BetweenParts(s: seq<Entry>, a: seq<Entry>, b0: seq<Entry>, b: seq<Entry>, key1: Key, key2: Key)
    requires Sorted(s) && !Less(key2, key1)
    requires a <= s && AllBelow(a, key1) && NoneBelow(s[|a|..], key1)
    requires s == b0 + b && NoneAbove(b0, key2) && AllAbove(b, key2)
    ensures |a| <= |b0|
    ensures s == a + s[|a|..|b0|] + b && AllBetween(s[|a|..|b0|], key1, key2)
  {
    if |b0| < |a| {
      assert s[|b0|] == b[0] && s[|b0|] == a[|b0|];
      LessTransitive(key2, b[0].key, key1);
    }
    var m := s[|a|..|b0|];
    forall i | 0 <= i < |m| ensures !Less(m[i].key, key1) && !Less(key2, m[i].key) {
      assert m[i] == s[|a|..][i] == b0[|a| + i];
    }
  }

  /** What two searches say about the range between them. */
  lemma RangeFacts(s: seq<Entry>, head: seq<Entry>, front: seq<Entry>, tail: seq<Entry>, key1: Key, key2: Key)
    requires Sorted(s) && !Less(key2, key1)
    requires head <= s && AllBelow(head, key1) && NoneBelow(s[|head|..], key1)
    requires s == front + tail && NoneAbove(front, key2) && AllAbove(tail, key2)
    ensures |head| + |tail| <= |s| && Sorted(head + tail)
    ensures ToMap(head + tail) == Without(ToMap(s), key1, key2)
    ensures IsPrevKey(ToMap(s), key1, if head == [] then None else Some(head[|head| - 1].key))
    ensures IsNextKey(ToMap(s), key2, if tail == [] then None else Some(tail[0].key))
  {
    hide ToMap, Less, Without, IsPrevKey, IsNextKey, AllBelow, AllAbove, NoneBelow, NoneAbove, AllBetween, Sorted;
    BetweenParts(s, head, front, tail, key1, key2);
    RangeRemoved(head, s[|head|..|front|], tail, key1, key2);
    assert s == head + s[|head|..];
    LastBelow(head, s[|head|..], key1);
    FirstAbove(front, tail, key2);
  }

  /** How far down the two cursors go through the same slots. */
  method SharedLevels(st: Stack, st2: Stack, ghost root: Node, ghost h: nat) returns (unique: nat)
    requires st.tree == st2.tree && st.Browsing(root, h) && st2.Browsing(root, h)
    requires st.Valid(h) && st2.Valid(h)
    requires (st.top == h && st.Child().Some?) || (st.top == 0 && st.Index() == -1)
    requires (st2.top == h && st2.Child().Some?) || (st2.top == 0 && st2.Index() == |st2.CurrentNode().children|)
    ensures unique <= st.top && unique <= st2.top
    ensures st.PathHere()[..unique] == st2.PathHere()[..unique]
    ensures st.nodes[unique] == st2.nodes[unique]
    ensures st.indexes[unique] == st2.indexes[unique] ==> unique == h
  {
    unique := 0;
    var i := 0;
    while i < st.top && st.indexes[i] == st2.indexes[i]
      invariant 0 <= i <= st.top && i <= st2.top && unique == i
      invariant forall j :: 0 <= j < i ==> st.indexes[j] == st2.indexes[j]
    {
      assert st.PathHere()[i] == Frame(st.nodes[i].value, st.indexes[i]);
      i := i + 1;
      unique := i;
    }
    if st2.top > 0 {
      assert st2.PathHere()[0] == Frame(st2.nodes[0].value, st2.indexes[0]);
    }
    assert st.indexes[..i] == st2.indexes[..i];
    SameNodes(st.tree, st.nodes, st2.nodes, st.indexes, st2.indexes, i);
    assert forall j :: 0 <= j <= i ==> st.nodes[j] == st.nodes[..i + 1][j] == st2.nodes[..i + 1][j] == st2.nodes[j];
  }

  ghost function KeyAt(st: Stack): Option<Key>
    requires st.Shape()
    reads st
  {
    if st.Child().Some? then Some(st.Child().value.key) else None
  }

  /** What is kept of the node `n` in which the ways to `a` and `b` part, at the end of `p`. */
  ghost predicate CutParts(t: Tree, p: seq<Frame>, root: Node, n: Node, a: Option<Key>, b: Option<Key>, h: nat,
                           head: seq<NodeDataChild>, tail: seq<NodeDataChild>) {
    && |p| <= h && NodeAt(p, n, 0) == root && (p != [] ==> a.Some? && b.Some?)
    && (a.Some? ==> Aimed(t, p, n, a.value)) && (b.Some? ==> Aimed(t, p, n, b.value))
    && head == HeadSlots(t, n, h - |p|, a) && tail == TailSlots(t, n, h - |p|, b) && !Together(t, n, h - |p|, a, b)
  }

  /** The left part, from the way `q` to the leaf `m` that holds `a`. */
  lemma HeadPart(t: Tree, q: seq<Frame>, m: Node, k: nat, h: nat, a: Key, c: seq<NodeDataChild>, i: int)
    requires |q| == h && k <= h && Aimed(t, q, m, a) && -1 <= i < |c|
    requires if k == h then c == m.children && i == Below(m.children, a) else
             c == CutRight(t, q, m, k, h, a).children && i == q[k].index && |c| == |q[k].node.children|
    ensures HeadTo(t, NodeAt(q, m, k), h - k, a).children == c[..i + 1]
    ensures k < h ==> Leads(t, NodeAt(q, m, k), h - k, a) && Toward(NodeAt(q, m, k).children, a) == q[k].index
  {
    hide Aimed, Below, Toward;
    if k < h {
      AimedAt(t, q, m, a, k);
      var cs, x := q[k].node.children, SlotOf(HeadTo(t, NodeAt(q, m, k + 1), h - k - 1, a));
      assert c == cs[..i] + x + cs[i + 1..];
      assert c[..i + 1] == cs[..i] + x;
    }
  }

  lemma TailPart(t: Tree, q: seq<Frame>, m: Node, k: nat, h: nat, b: Key, c: seq<NodeDataChild>, i: int)
    requires |q| == h && k <= h && Aimed(t, q, m, b) && 0 <= i <= |c|
    requires if k == h then c == m.children && i == Below(m.children, b) else
             c == CutLeft(t, q, m, k, h, b).children && i == q[k].index && |c| == |q[k].node.children|
    ensures TailFrom(t, NodeAt(q, m, k), h - k, b).children == c[i..]
    ensures k < h ==> Leads(t, NodeAt(q, m, k), h - k, b) && Toward(NodeAt(q, m, k).children, b) == q[k].index
  {
    hide Aimed, Below, Toward;
    if k < h {
      AimedAt(t, q, m, b, k);
      var cs, x := q[k].node.children, SlotOf(TailFrom(t, NodeAt(q, m, k + 1), h - k - 1, b));
      assert c == cs[..i] + x + cs[i + 1..];
      assert c[i..] == x + cs[i + 1..];
    }
  }

  /** The left part is there, if there is one, and leaves `n` by slot `next`. */
  ghost predicate HasHead(t: Tree, p: seq<Frame>, root: Node, n: Node, a: Option<Key>, h: nat, head: seq<NodeDataChild>, next: int) {
    if a.None? then head == [] else
    && |p| <= h && Aimed(t, p, n, a.value) && NodeAt(p, n, 0) == root && head == HeadTo(t, n, h - |p|, a.value).children
    && (|p| < h ==> Toward(n.children, a.value) == next)
  }

  ghost predicate HasTail(t: Tree, p: seq<Frame>, root: Node, n: Node, b: Option<Key>, h: nat, tail: seq<NodeDataChild>, next: int,
                          m: Node, i: int) {
    if b.None? then tail == [] else
    && |p| <= h && Aimed(t, p, n, b.value) && NodeAt(p, n, 0) == root && tail == TailFrom(t, n, h - |p|, b.value).children
    && (|p| < h ==> Toward(n.children, b.value) == next)
    && m.leafy && LeafOf(t, n, h - |p|, b.value) == m && i == Below(m.children, b.value)
  }

  lemma HeadReady(t: Tree, q: seq<Frame>, m: Node, k: nat, h: nat, root: Node, a: Key, c: seq<NodeDataChild>, i: int)
    requires |q| == h && k <= h && Aimed(t, q, m, a) && -1 <= i < |c| && NodeAt(q, m, 0) == root
    requires if k == h then c == m.children && i == Below(m.children, a) else
             c == CutRight(t, q, m, k, h, a).children && i == q[k].index && |c| == |q[k].node.children|
    ensures HasHead(t, q[..k], root, NodeAt(q, m, k), Some(a), h, c[..i + 1], i)
  {
    hide Aimed, Below, Toward, HeadTo, CutRight;
    HeadPart(t, q, m, k, h, a, c, i);
    AimedPrefix(t, q, m, a, k);
  }

  lemma TailReady(t: Tree, q: seq<Frame>, m: Node, k: nat, h: nat, root: Node, b: Key, c: seq<NodeDataChild>, i: int, j: int)
    requires |q| == h && k <= h && Aimed(t, q, m, b) && 0 <= i <= |c| && NodeAt(q, m, 0) == root
    requires if k == h then c == m.children && i == Below(m.children, b) else
             c == CutLeft(t, q, m, k, h, b).children && i == q[k].index && |c| == |q[k].node.children|
    requires m.leafy && j == Below(m.children, b)
    ensures HasTail(t, q[..k], root, NodeAt(q, m, k), Some(b), h, c[i..], i, m, j)
  {
    hide Aimed, Below, Toward, TailFrom, CutLeft, LeafOf, Edited, Up, EditLeaf;
    TailPart(t, q, m, k, h, b, c, i);
    AimedPrefix(t, q, m, b, k);
    EditedFrom(t, q, m, k, h, b, Remove);
  }

  lemma PartsReady(t: Tree, p: seq<Frame>, root: Node, n: Node, a: Option<Key>, b: Option<Key>, h: nat, head: seq<NodeDataChild>,
                   tail: seq<NodeDataChild>, i: int, j: int, m: Node, x: int)
    requires HasHead(t, p, root, n, a, h, head, i) && HasTail(t, p, root, n, b, h, tail, j, m, x)
    requires |p| <= h && (p != [] ==> a.Some? && b.Some?) && (p == [] ==> n == root) && (i == j ==> |p| == h)
    requires n.leafy <==> |p| == h
    ensures CutParts(t, p, root, n, a, b, h, head, tail)
    ensures !n.leafy ==> (RangeShrinks(t, n, h - |p|, a, b) <==> b.Some? && LeftSmall(t, m, x) == 1)
  {
    hide Aimed, LeafOf, Below, Toward, HeadTo, TailFrom, Next;
  }

  lemma NoHead(t: Tree, p: seq<Frame>, root: Node, n: Node, h: nat, next: int)
    ensures HasHead(t, p, root, n, None, h, [], next)
  {
  }

  lemma NoTail(t: Tree, p: seq<Frame>, root: Node, n: Node, h: nat, next: int, m: Node, i: int)
    ensures HasTail(t, p, root, n, None, h, [], next, m, i)
  {
  }

  /** The path of a cursor, cut at level `k`. */
  lemma CursorPart(st: Stack, k: nat)
    requires st.Shape() && k <= st.top
    ensures PathOf(st.nodes, st.indexes, k) == st.PathHere()[..k]
    ensures NodeAt(st.PathHere(), st.CurrentNode(), k) == st.nodes[k].value
    ensures k < st.top ==> st.PathHere()[k] == Frame(st.nodes[k].value, st.indexes[k])
  {
  }

  /** Takes the right cursor up to level `unique`, dropping what lies left of it. */
  method TrimTail(st: Stack, unique: nat, ghost root: Node, ghost h: nat)
    requires st.Browsing(root, h) && st.Valid(h) && unique <= st.top
    requires 0 <= st.Index() <= |st.CurrentNode().children|
    requires (st.top == h && st.Child().Some?) || (st.top == 0 && st.Index() == |st.CurrentNode().children|)
    modifies st
    ensures st.Valid(h) && st.top == unique && st.indexes == old(st.indexes)
    ensures st.PathHere() == PathOf(old(st.nodes), st.indexes, unique)
    ensures 0 <= st.Index() <= |st.CurrentNode().children| && st.From(h) == old(st.From(h))
    ensures var n := old(st.nodes)[unique].value;
            && st.CurrentNode().leafy == n.leafy && SameBeside(st.CurrentNode().children, n.children, st.Index())
            && (old(st.top) == unique ==> st.CurrentNode() == n)
            && HasTail(st.tree, st.PathHere(), root, n, old(KeyAt(st)), h, st.CurrentNode().children[st.Index()..], st.Index(),
                       old(st.CurrentNode()), old(st.Index()))
    ensures st.top == old(st.top) ==> unchanged(st)
    ensures st.smallCount == old(st.smallCount) +
              (if unique < old(st.top) then LeftSmall(st.tree, old(st.CurrentNode()), old(st.Index())) else 0)
  {
    hide WfChild, WfChildren, Flat, Left, Right, Less, Sorted, BeforeAt, FromAt, WfPath, Contents, Aimed, Below, CutLeft,
      LeftSmall, HasTail, NodeAt;
    ghost var b, q, m, i := KeyAt(st), st.PathHere(), st.CurrentNode(), st.Index();
    CursorPart(st, unique);
    if b.Some? {
      CursorAimed(st, root, h);
    }
    TrimLeft(st, unique, if b.Some? then b.value else [], h);
    if b.Some? {
      TailReady(st.tree, q, m, unique, h, root, b.value, st.CurrentNode().children, st.Index(), i);
    } else {
      assert st.CurrentNode().children[st.Index()..] == [];
      NoTail(st.tree, q[..unique], root, old(st.nodes)[unique].value, h, st.Index(), m, i);
    }
  }

  /** Takes the left cursor up to level `unique`, dropping what lies right of it. */
  method TrimHead(st: Stack, unique: nat, ghost root: Node, ghost h: nat)
    requires st.Browsing(root, h) && st.Valid(h) && unique <= st.top
    requires -1 <= st.Index() < |st.CurrentNode().children|
    requires (st.top == h && st.Child().Some?) || (st.top == 0 && st.Index() == -1)
    modifies st
    ensures st.Valid(h) && st.top == unique && st.indexes == old(st.indexes)
    ensures st.PathHere() == PathOf(old(st.nodes), st.indexes, unique)
    ensures -1 <= st.Index() < |st.CurrentNode().children| && st.UpTo(h) == old(st.UpTo(h))
    ensures var n := old(st.nodes)[unique].value;
            && SameBeside(st.CurrentNode().children, n.children, st.Index())
            && (old(st.top) == unique ==> st.CurrentNode() == n)
            && HasHead(st.tree, st.PathHere(), root, n, old(KeyAt(st)), h, st.CurrentNode().children[..st.Index() + 1], st.Index())
  {
    hide WfChild, WfChildren, Flat, Left, Right, Less, Sorted, BeforeAt, FromAt, WfPath, Contents, Aimed, Below, CutRight,
      HasHead, NodeAt;
    ghost var a, q, m := KeyAt(st), st.PathHere(), st.CurrentNode();
    CursorPart(st, unique);
    if a.Some? {
      CursorAimed(st, root, h);
    }
    TrimRight(st, unique, if a.Some? then a.value else [], h);
    if a.Some? {
      HeadReady(st.tree, q, m, unique, h, root, a.value, st.CurrentNode().children, st.Index());
    } else {
      assert st.CurrentNode().children[..st.Index() + 1] == [];
      NoHead(st.tree, q[..unique], root, old(st.nodes)[unique].value, h, st.Index());
    }
  }

  /** Takes both cursors up to the node where they part, dropping what lies
      between them on the way. */
  method CutBetween(st: Stack, st2: Stack, ghost root: Node, ghost h: nat) returns (ghost n: Node)
    requires st != st2 && st.tree == st2.tree && st.Browsing(root, h) && st2.Browsing(root, h)
    requires st.Valid(h) && st2.Valid(h)
    requires -1 <= st.Index() < |st.CurrentNode().children|
    requires 0 <= st2.Index() <= |st2.CurrentNode().children|
    requires (st.top == h && st.Child().Some?) || (st.top == 0 && st.Index() == -1)
    requires (st2.top == h && st2.Child().Some?) || (st2.top == 0 && st2.Index() == |st2.CurrentNode().children|)
    requires |st.UpTo(h)| + |st2.From(h)| <= |Flat(st.tree, root.children, h)|
    modifies st, st2
    ensures st.Valid(h) && st2.Valid(h) && st.top == st2.top <= old(st2.top) && st.PathHere() == st2.PathHere()
    ensures -1 <= st.Index() < st2.Index() <= |st2.CurrentNode().children|
    ensures st.Index() < |st.CurrentNode().children|
    ensures st.UpTo(h) == old(st.UpTo(h)) && st2.From(h) == old(st2.From(h))
    ensures st.Index() >= 0 ==> st2.CurrentNode().children[..st.Index()] == st.CurrentNode().children[..st.Index()]
    ensures st2.top == old(st2.top) ==> unchanged(st2)
    ensures CutParts(st2.tree, st2.PathHere(), root, n, old(KeyAt(st)), old(KeyAt(st2)), h,
                     st.CurrentNode().children[..st.Index() + 1], st2.CurrentNode().children[st2.Index()..])
    ensures st2.CurrentNode().leafy == n.leafy
    ensures st2.smallCount == old(st2.smallCount) +
              (if !n.leafy && RangeShrinks(st2.tree, n, h - st2.top, old(KeyAt(st)), old(KeyAt(st2))) then 1 else 0)
  {
    hide WfChild, WfChildren, Flat, Left, Right, Less, Sorted, BeforeAt, FromAt, WfPath, Contents, CutParts, RangeShrinks,
      LeftSmall, HasHead, HasTail, SameBeside;
    var unique := SharedLevels(st, st2, root, h);
    ghost var p, a, b := PathOf(st2.nodes, st2.indexes, unique), KeyAt(st), KeyAt(st2);
    n := st2.nodes[unique].value;
    Along(st2.tree, st2.nodes, st2.indexes, root, h, unique);
    CursorPart(st, unique);
    CursorPart(st2, unique);
    ghost var m, i := st2.CurrentNode(), st2.Index();
    TrimTail(st2, unique, root, h);
    TrimHead(st, unique, root, h);
    PartsReady(st.tree, p, root, n, a, b, h, st.CurrentNode().children[..st.Index() + 1],
               st2.CurrentNode().children[st2.Index()..], st.Index(), st2.Index(), m, i);
    CutsInOrder(st.tree, p, n, st.CurrentNode().children, st2.CurrentNode().children, st.Index(), st2.Index(), h);
    SameStart(st2.CurrentNode().children, st.CurrentNode().children, n.children, st.Index(), st2.Index());
  }

  lemma SameStart(a: seq<NodeDataChild>, b: seq<NodeDataChild>, c: seq<NodeDataChild>, i: int, j: nat)
    requires SameBeside(a, c, j) && SameBeside(b, c, i) && i < j <= |a| && i < |b|
    ensures i >= 0 ==> a[..i] == b[..i]
  {
    if i >= 0 {
      assert a[..i] == a[..j][..i] == c[..j][..i] == c[..i];
    }
  }

  /** Putting the two kept parts of a node together. */
  lemma JoinSlots(t: Tree, c1: seq<NodeDataChild>, c2: seq<NodeDataChild>, i1: nat, i2: nat, k: nat)
    requires WfChildren(t, c1, k) && WfChildren(t, c2, k) && i1 <= |c1| && i2 <= |c2|
    ensures WfChildren(t, c1[..i1] + c2[i2..], k)
    ensures Flat(t, c1[..i1] + c2[i2..], k) == Flat(t, c1[..i1], k) + Flat(t, c2[i2..], k)
  {
    hide WfChild, WfChildren, Flat;
    var a, b := c1[..i1], c2[i2..];
    assert c1 == a + c1[i1..] && c2 == c2[..i2] + b;
    WfPieces(t, a, c1[i1..], k);
    WfPieces(t, c2[..i2], b, k);
    WfJoined(t, a, b, k);
    FlatConcat(t, a, b, k);
  }

  lemma JoinParts(t: Tree, p: seq<Frame>, c1: seq<NodeDataChild>, c2: seq<NodeDataChild>, i1: nat, i2: nat, h: nat)
    requires WfPath(t, p, h) && WfChildren(t, c1, h - |p|) && WfChildren(t, c2, h - |p|)
    requires i1 <= |c1| && i2 <= |c2|
    ensures WfChildren(t, c1[..i1] + c2[i2..], h - |p|)
    ensures Contents(t, p, c1[..i1] + c2[i2..], h) == BeforeAt(t, p, c1, i1, h) + FromAt(t, p, c2, i2, h)
  {
    hide WfChild, WfChildren, Flat, Left, Right;
    JoinSlots(t, c1, c2, i1, i2, h - |p|);
    Halves(Left(t, p, h), Flat(t, c1[..i1], h - |p|), Flat(t, c2[i2..], h - |p|), Right(t, p, h));
  }

  lemma Halves<T>(l: seq<T>, a: seq<T>, b: seq<T>, r: seq<T>)
    ensures l + (a + b) + r == (l + a) + (b + r)
  {
  }

  lemma StartOf(a: seq<NodeDataChild>, b: seq<NodeDataChild>, i: int)
    requires -1 <= i < |b| && i <= |a| && (i >= 0 ==> a[..i] == b[..i])
    ensures i < 0 ==> b[..i + 1] == []
    ensures i >= 0 ==> b[..i + 1] == a[..i] + [b[i]]
  {
  }

  /** Makes one node of what the two cursors keep of it. */
  method JoinCut(st: Stack, st2: Stack, ghost h: nat)
    requires st != st2 && st.tree == st2.tree && st.Valid(h) && st2.Valid(h)
    requires st.top == st2.top && st.PathHere() == st2.PathHere()
    requires -1 <= st.Index() < st2.Index() <= |st2.CurrentNode().children|
    requires st.Index() < |st.CurrentNode().children|
    requires st.Index() >= 0 ==> st2.CurrentNode().children[..st.Index()] == st.CurrentNode().children[..st.Index()]
    requires Sorted(st.UpTo(h) + st2.From(h))
    modifies st2
    ensures st2.Valid(h) && st2.All(h) == old(st.UpTo(h) + st2.From(h))
    ensures st2.top == old(st2.top) && st2.PathHere() == old(st2.PathHere())
    ensures st2.CurrentNode() == Node(old(st2.CurrentNode().leafy),
                                      old(st.CurrentNode().children[..st.Index() + 1] + st2.CurrentNode().children[st2.Index()..]), None)
    ensures st2.smallCount == old(st2.smallCount) +
              (if st2.CurrentNode().leafy && Msgsize(st2.CurrentNode()) <= st2.tree.SmallSize() then 1 else 0)
  {
    hide WfChild, WfChildren, Flat, Left, Right, Less;
    var cl, idx1, idx2 := st2.CurrentNode().children, st.indexes[st.top], st2.indexes[st.top];
    ghost var c1 := st.CurrentNode().children;
    JoinParts(st.tree, st2.PathHere(), c1, cl, idx1 + 1, idx2, h);
    StartOf(cl, c1, idx1);
    var ncl;
    if idx1 < 0 {
      ncl := cl[idx2..];
    } else {
      ncl := cl[..idx1] + [st.Child().value] + cl[idx2..];
    }
    assert ncl == c1[..idx1 + 1] + cl[idx2..];
    st2.RewriteNodeChildren(ncl, h);
  }

  /** Takes all entries from `key1` to `key2` out of the tree at the cursor. */
  method CutRange(key1: Key, key2: Key, st2: Stack, ghost root: Node, ghost h: nat)
    returns (ghost a: Option<Key>, ghost b: Option<Key>)
    requires st2.Ready(root, h) && !Less(key2, key1)
    modifies st2
    ensures st2.Valid(h)
    ensures ToMap(st2.All(h)) == Without(TreeMap(st2.tree, root, h), key1, key2)
    ensures h > 0 && st2.All(h) == [] ==> st2.smallCount == 0
    ensures IsPrevKey(TreeMap(st2.tree, root, h), key1, a) && IsNextKey(TreeMap(st2.tree, root, h), key2, b)
    ensures Up(st2.tree, st2.PathHere(), One(st2.CurrentNode())) == One(RangeCut(st2.tree, root, h, a, b))
    ensures st2.smallCount > 0 <==> RangeShrinks(st2.tree, root, h, a, b)
  {
    hide WfChild, WfChildren, Flat, Left, Right, Less, ToMap, Without, IsPrevKey, IsNextKey, Up, RangeCut, RangeShrinks, CutParts,
      AllBelow, AllAbove, NoneBelow, NoneAbove, BeforeAt, FromAt, WfPath, Sorted, Contents, ChildrenSize;
    var st := new Stack.Copy(st2);
    SearchLesser(st, key1, root, h);
    SearchGreater(st2, key2, root, h);
    ghost var s, head, front, tail := Flat(st.tree, root.children, h), st.UpTo(h), st2.Before(h), st2.From(h);
    RangeFacts(s, head, front, tail, key1, key2);
    a, b := KeyAt(st), KeyAt(st2);
    ghost var n := CutBetween(st, st2, root, h);
    assert tail == [] ==> st2.top == 0 && st2.smallCount == 0;
    ghost var hs, ts := st.CurrentNode().children[..st.Index() + 1], st2.CurrentNode().children[st2.Index()..];
    JoinCut(st, st2, h);
    CutIs(st2.tree, st2.PathHere(), root, n, a, b, h, hs, ts);
  }

  /** The two kept parts in one node, and that put back all the way up. */
  lemma CutIs(t: Tree, p: seq<Frame>, root: Node, n: Node, a: Option<Key>, b: Option<Key>, h: nat,
              head: seq<NodeDataChild>, tail: seq<NodeDataChild>)
    requires CutParts(t, p, root, n, a, b, h, head, tail)
    ensures Up(t, p, One(Node(n.leafy, head + tail, None))) == One(RangeCut(t, root, h, a, b))
    ensures n.leafy ==> (RangeShrinks(t, root, h, a, b) <==> Msgsize(Node(n.leafy, head + tail, None)) <= t.SmallSize())
    ensures RangeShrinks(t, root, h, a, b) <==> RangeShrinks(t, n, h - |p|, a, b)
  {
    hide Aimed, HeadSlots, TailSlots, LeafOf, Up;
    if p == [] {
      UpNone(t, One(Node(n.leafy, head + tail, None)));
    } else {
      RangeUp(t, p, n, 0, h, a.value, b.value);
      assert p[..0] == [];
      UpNone(t, One(RangeCut(t, root, h, a, b)));
    }
  }

  /** What removing a range leaves: the tree cut between the last key before the range and
      the first one after it, tended to if the leaf at the right end has become small. */
  ghost predicate RangeSettles(t: Tree, root: Node, h: nat, key1: Key, key2: Key, r: Node, h': nat, m: nat) {
    exists a, b :: IsPrevKey(TreeMap(t, root, h), key1, a) && IsNextKey(TreeMap(t, root, h), key2, b) &&
      var whole := RangeCut(t, root, h, a, b);
      if RangeShrinks(t, root, h, a, b) then Tended(t, whole, h, r, h', m) else r == whole && h' == h
  }

  /** Removes all keys from `key1` to `key2`.  The result is a well-formed tree
      unless an interior root loses all its children. */
  method DeleteRange(root: Node, key1: Key, key2: Key, st2: Stack, ghost h: nat, ghost m: nat) returns (r: Node, ghost h': nat)
    requires st2.Ready(root, h) && !Less(key2, key1)
    modifies st2
    ensures TreeMap(st2.tree, r, h') == Without(TreeMap(st2.tree, root, h), key1, key2)
    ensures st2.Ready(r, h') <==> h == 0 || Without(TreeMap(st2.tree, root, h), key1, key2) != map[]
    ensures RangeSettles(st2.tree, root, h, key1, key2, r, h', m)
  {
    hide WfChild, WfChildren, Flat, Left, Right, Less, ToMap, Without, IsPrevKey, IsNextKey, Up, RangeCut, RangeShrinks, Tended;
    ghost var a, b := CutRange(key1, key2, st2, root, h);
    MapIsEmpty(st2.All(h));
    r, h' := st2.Commit(h, m);
    assert IsPrevKey(TreeMap(st2.tree, root, h), key1, a) && IsNextKey(TreeMap(st2.tree, root, h), key2, b);
  }

  lemma MapIsEmpty(s: seq<Entry>)
    ensures ToMap(s) == map[] <==> s == []
  {
    if s != [] {
      assert s[|s| - 1].key in ToMap(s);
    }
  }

  /** A tree of two levels that is emptied by the range of its only key. */
  lemma OnlyKeyRange()
    ensures var t, e := Tree(512, map[]), NodeDataChild([1], [], None);
            var root := Node(false, [Slot([e], Node(true, [e], None))], None);
            WfRoot(t, root, 1) && Without(TreeMap(t, root, 1), [1], [1]) == map[]
  {
    var t, e := Tree(512, map[]), NodeDataChild([1], [], None);
    var leaf := Node(true, [e], None);
    var root := Node(false, [Slot([e], leaf)], None);
    assert WfChild(t, e, 0);
    assert WfChildren(t, [e], 0);
    SlotWf(t, leaf, 0);
    FlatOne(t, e, 0);
    FlatOne(t, Slot([e], leaf), 1);
    MapOne(Entry([1], []));
  }
}
