/** The difference of two trees, found by walking both with a cursor each and
    skipping what they share. */
module Delta {
  import opened Keys
  import opened BTree
  import opened Path
  import opened IbStack
  import IbTree

  /** One callback: `was` is absent for an insert, `now` for a delete. */
  datatype Change = Change(was: Option<Entry>, now: Option<Entry>) {
    function Key(): Key
      requires was.Some? || now.Some?
    {
      if was.Some? then was.value.key else now.value.key
    }
  }

  /** The changes that turn the sorted entries `s0` into `s`. */
  ghost function Changes(s0: seq<Entry>, s: seq<Entry>): seq<Change>
    decreases |s0| + |s|
  {
    if s0 == [] && s == [] then []
    else if s == [] || (s0 != [] && Less(s0[0].key, s[0].key)) then
      [Change(Some(s0[0]), None)] + Changes(s0[1..], s)
    else if s0 == [] || Less(s[0].key, s0[0].key) then
      [Change(None, Some(s[0]))] + Changes(s0, s[1..])
    else
      (if s0[0] == s[0] then [] else [Change(Some(s0[0]), Some(s[0]))]) + Changes(s0[1..], s[1..])
  }

  ghost function Lookup(m: map<Key, Value>, k: Key): Option<Entry> {
    if k in m then Some(Entry(k, m[k])) else None
  }

  /** `out` lists, in increasing order and once each, exactly the keys on which
      `m0` and `m` differ, with what each of them holds there. */
  ghost predicate IsDelta(out: seq<Change>, m0: map<Key, Value>, m: map<Key, Value>) {
    && (forall i :: 0 <= i < |out| ==> out[i].was.Some? || out[i].now.Some?)
    && (forall i, j :: 0 <= i < j < |out| ==> Less(out[i].Key(), out[j].Key()))
    && (forall i :: 0 <= i < |out| ==>
          && out[i].was == Lookup(m0, out[i].Key())
          && out[i].now == Lookup(m, out[i].Key())
          && out[i].was != out[i].now)
    && (forall k :: Lookup(m0, k) != Lookup(m, k) ==> exists i :: 0 <= i < |out| && out[i].Key() == k)
  }

  // ----- the reference list of changes is the delta

  ghost predicate AllKeysAbove(out: seq<Change>, k: Key) {
    forall i :: 0 <= i < |out| ==> (out[i].was.Some? || out[i].now.Some?) && Less(k, out[i].Key())
  }

  lemma {:induction false} ChangesAbove(s0: seq<Entry>, s: seq<Entry>, k: Key)
    requires AllAbove(s0, k) && AllAbove(s, k)
    ensures AllKeysAbove(Changes(s0, s), k)
    decreases |s0| + |s|
  {
    if s0 == [] && s == [] {
    } else if s == [] || (s0 != [] && Less(s0[0].key, s[0].key)) {
      ChangesAbove(s0[1..], s, k);
    } else if s0 == [] || Less(s[0].key, s0[0].key) {
      ChangesAbove(s0, s[1..], k);
    } else {
      ChangesAbove(s0[1..], s[1..], k);
    }
  }

  lemma HeadAndTail(s: seq<Entry>)
    requires Sorted(s) && s != []
    ensures Sorted(s[1..]) && AllAbove(s[1..], s[0].key)
    ensures s[0].key !in ToMap(s[1..])
    ensures ToMap(s) == ToMap(s[1..])[s[0].key := s[0].value]
  {
    assert s == [] + [s[0]] + s[1..] && [] + s[1..] == s[1..];
    IbTree.MapAround([], s[0], s[1..]);
    forall i | 0 <= i < |s[1..]| ensures Less(s[0].key, s[1..][i].key) {
      assert s[1..][i] == s[i + 1];
    }
  }

  lemma NotBelow(s: seq<Entry>, k: Key)
    requires Sorted(s) && (s == [] || Less(k, s[0].key))
    ensures AllAbove(s, k) && k !in ToMap(s)
  {
    forall i | 0 <= i < |s| ensures Less(k, s[i].key) {
      if i > 0 {
        LessTransitive(k, s[0].key, s[i].key);
      }
    }
    assert [] + s == s;
    IbTree.KeysBeside([], s, k);
  }

  /** Adding one change in front, for a key below all others. */
  lemma DeltaStep(c: seq<Change>, out: seq<Change>, k: Key, m0: map<Key, Value>, m: map<Key, Value>,
                  n0: map<Key, Value>, n: map<Key, Value>)
    requires IsDelta(out, n0, n) && AllKeysAbove(out, k)
    requires k !in n0 && k !in n
    requires forall x :: x != k ==> Lookup(m0, x) == Lookup(n0, x) && Lookup(m, x) == Lookup(n, x)
    requires c == if Lookup(m0, k) == Lookup(m, k) then [] else [Change(Lookup(m0, k), Lookup(m, k))]
    ensures IsDelta(c + out, m0, m)
  {
    hide Less, Lookup;
    LookupKey(m0, k);
    LookupKey(m, k);
    var r := c + out;
    StepOrder(c, out, k);
    forall i | 0 <= i < |r|
      ensures r[i].was == Lookup(m0, r[i].Key()) && r[i].now == Lookup(m, r[i].Key()) && r[i].was != r[i].now
    {
      if i >= |c| {
        assert r[i] == out[i - |c|];
        LessIrreflexive(k);
      }
    }
    forall x | Lookup(m0, x) != Lookup(m, x) ensures exists i :: 0 <= i < |r| && r[i].Key() == x {
      if x == k {
        assert r[0].Key() == k;
      } else {
        var i :| 0 <= i < |out| && out[i].Key() == x;
        assert r[|c| + i] == out[i];
      }
    }
  }

  lemma LookupKey(m: map<Key, Value>, k: Key)
    ensures Lookup(m, k).Some? ==> Lookup(m, k).value.key == k
  {
  }

  lemma StepOrder(c: seq<Change>, out: seq<Change>, k: Key)
    requires |c| <= 1 && (forall i :: 0 <= i < |c| ==> (c[i].was.Some? || c[i].now.Some?) && c[i].Key() == k)
    requires AllKeysAbove(out, k)
    requires forall i, j :: 0 <= i < j < |out| ==> Less(out[i].Key(), out[j].Key())
    ensures var r := c + out;
            && (forall i :: 0 <= i < |r| ==> r[i].was.Some? || r[i].now.Some?)
            && (forall i, j :: 0 <= i < j < |r| ==> Less(r[i].Key(), r[j].Key()))
  {
    hide Less;
    var r := c + out;
    forall i, j | 0 <= i < j < |r| ensures Less(r[i].Key(), r[j].Key()) {
      assert r[j] == out[j - |c|];
      if i >= |c| {
        assert r[i] == out[i - |c|];
      }
    }
  }

  lemma {:induction false} ChangesAreDelta(s0: seq<Entry>, s: seq<Entry>)
    requires Sorted(s0) && Sorted(s)
    ensures IsDelta(Changes(s0, s), ToMap(s0), ToMap(s))
    decreases |s0| + |s|
  {
    hide ToMap, Less, IsDelta;
    if s0 == [] && s == [] {
      EmptyDelta();
    } else if s == [] || (s0 != [] && Less(s0[0].key, s[0].key)) {
      var k := s0[0].key;
      HeadAndTail(s0);
      NotBelow(s, k);
      ChangesAreDelta(s0[1..], s);
      ChangesAbove(s0[1..], s, k);
      DeltaStep([Change(Some(s0[0]), None)], Changes(s0[1..], s), k, ToMap(s0), ToMap(s), ToMap(s0[1..]), ToMap(s));
    } else if s0 == [] || Less(s[0].key, s0[0].key) {
      var k := s[0].key;
      HeadAndTail(s);
      NotBelow(s0, k);
      ChangesAreDelta(s0, s[1..]);
      ChangesAbove(s0, s[1..], k);
      DeltaStep([Change(None, Some(s[0]))], Changes(s0, s[1..]), k, ToMap(s0), ToMap(s), ToMap(s0), ToMap(s[1..]));
    } else {
      var k := s[0].key;
      LessTotal(s0[0].key, k);
      HeadAndTail(s0);
      HeadAndTail(s);
      ChangesAreDelta(s0[1..], s[1..]);
      ChangesAbove(s0[1..], s[1..], k);
      DeltaStep(if s0[0] == s[0] then [] else [Change(Some(s0[0]), Some(s[0]))], Changes(s0[1..], s[1..]), k,
                ToMap(s0), ToMap(s), ToMap(s0[1..]), ToMap(s[1..]));
    }
  }

  lemma EmptyDelta()
    ensures IsDelta(Changes([], []), ToMap([]), ToMap([]))
  {
  }

  /** Equal entries in front make no change. */
  lemma {:induction false} SharedFront(x: seq<Entry>, s0: seq<Entry>, s: seq<Entry>)
    ensures Changes(x + s0, x + s) == Changes(s0, s)
  {
    if x == [] {
      assert x + s0 == s0 && x + s == s;
    } else {
      LessIrreflexive(x[0].key);
      assert (x + s0)[1..] == x[1..] + s0 && (x + s)[1..] == x[1..] + s;
      SharedFront(x[1..], s0, s);
    }
  }

  // ----- the walk

  /** A slot is well formed at one height only. */
  lemma {:induction false} HeightUnique(t: Tree, c: NodeDataChild, h: nat, k: nat)
    requires WfChild(t, c, h) && WfChild(t, c, k) && h > 0 && k > 0
    ensures h == k
    decreases h
  {
    var n := ChildNode(t, c);
    if h > 1 && k > 1 {
      HeightUnique(t, n.children[0], h - 1, k - 1);
    }
  }

  ghost predicate Walking(st: Stack, root: Node, h: nat)
    reads st
  {
    st.Browsing(root, h) && st.Valid(h) && 0 <= st.Index() <= |st.CurrentNode().children|
  }

  /** The nodes in front of the cursor. */
  ghost function NodesAhead(st: Stack, h: nat): nat
    requires st.Valid(h) && 0 <= st.Index() <= |st.CurrentNode().children|
    reads st
  {
    PathAhead(st.tree, st.PathHere(), h) + CountNodes(st.tree, st.CurrentNode().children[st.Index()..], h - st.top)
  }

  /** Back up from the end of a node, to the slot after it. */
  method Up(st: Stack, ghost root: Node, ghost h: nat)
    requires Walking(st, root, h) && st.top > 0 && st.Child().None?
    modifies st
    ensures Walking(st, root, h) && st.top == old(st.top) - 1
    ensures st.From(h) == old(st.From(h)) && NodesAhead(st, h) < old(NodesAhead(st, h))
  {
    hide WfChild, WfChildren, Flat, Left, Right, PathAhead, CountNodes, PathNodes;
    ghost var p, f := st.PathHere()[..st.top - 1], st.PathHere()[st.top - 1];
    assert st.PathHere() == p + [f];
    EndsInParent(st.tree, p, f, h);
    CountSnoc(st.tree, p, f, h);
    assert LinkAt(st.tree, st.nodes, st.indexes, st.top - 1);
    var _ := st.PopNode();
    assert st.PathHere() == p;
    st.GoTo(st.Index() + 1, root, h);
    st.BrowsingIsValid(root, h);
  }

  /** Down into the slot at the cursor. */
  method Down(st: Stack, ghost root: Node, ghost h: nat)
    requires Walking(st, root, h) && st.Child().Some? && !st.CurrentNode().leafy
    modifies st
    ensures Walking(st, root, h) && st.top == old(st.top) + 1
    ensures st.From(h) == old(st.From(h)) && NodesAhead(st, h) == old(NodesAhead(st, h))
  {
    hide WfChild, WfChildren, Flat, Left, Right, PathAhead, CountNodes, PathNodes;
    ghost var p, f := st.PathHere(), Frame(st.CurrentNode(), st.Index());
    PathSnoc(st.tree, p, f, h);
    EndsInParent(st.tree, p, f, h);
    DescendCount(st.tree, p, f, h);
    st.PushIndex(st.Index(), root, h);
    assert LinkAt(st.tree, st.nodes, st.indexes, st.top - 1);
    st.BrowsingIsValid(root, h);
    assert st.PathHere()[st.top - 1] == f;
    assert st.CurrentNode().children[0..] == st.CurrentNode().children;
  }

  /** Past the slot at the cursor and all that is under it. */
  method Next(st: Stack, ghost root: Node, ghost h: nat)
    requires Walking(st, root, h) && st.Child().Some?
    modifies st
    ensures Walking(st, root, h)
    ensures old(st.From(h)) == FlatChild(st.tree, old(st.Child().value), h - old(st.top)) + st.From(h)
    ensures |st.From(h)| < |old(st.From(h))|
  {
    hide WfChild, WfChildren, Flat, Left, Right, FlatChild;
    IbTree.CutAt(st.tree, st.CurrentNode().children, st.Index(), h - st.top);
    st.GoTo(st.Index() + 1, root, h);
    st.BrowsingIsValid(root, h);
  }

  /** What is at the cursor is what comes first. */
  lemma HeadHere(st: Stack, root: Node, h: nat)
    requires Walking(st, root, h)
    ensures Sorted(st.From(h))
    ensures st.Child().Some? ==> st.From(h) != [] && st.From(h)[0].key == st.Child().value.key
                                 && WfChild(st.tree, st.Child().value, h - st.top)
    ensures st.Child().Some? && st.CurrentNode().leafy ==>
              && st.Child().value.childNode.None?
              && FlatChild(st.tree, st.Child().value, h - st.top) == [Entry(st.Child().value.key, st.Child().value.value)]
    ensures st.Child().None? && st.top == 0 ==> st.From(h) == []
  {
    hide Flat, Left, Right;
    BeforeAndFrom(st.tree, st.PathHere(), st.CurrentNode().children, st.Index(), h);
    SortedParts(st.Before(h), st.From(h));
    if st.Child().Some? {
      FlatFirst(st.tree, st.CurrentNode().children[st.Index()..], h - st.top);
    } else if st.top == 0 {
      IbTree.NothingFrom(st.tree, st.CurrentNode().children, h);
      assert st.PathHere() == [];
    }
  }

  /** At the start of the walk everything is still to come. */
  lemma AtStart(st: Stack, root: Node, h: nat)
    requires st.Ready(root, h) && st.Index() == 0
    ensures Walking(st, root, h) && st.From(h) == Flat(st.tree, root.children, h)
  {
    hide WfChild, Flat, Left, Right;
    st.BrowsingIsValid(root, h);
    BeforeAndFrom(st.tree, st.PathHere(), st.CurrentNode().children, 0, h);
    IbTree.NothingFrom(st.tree, st.CurrentNode().children, h);
    assert st.PathHere() == [];
  }

  /** Both cursors are at a slot or at the very end. */
  ghost predicate Settled(st: Stack, root: Node, h: nat)
    reads st
  {
    Walking(st, root, h) && (st.Child().None? ==> st.top == 0)
  }

  /** Slots that are the same: both cursors go past them. */
  method PassSame(st0: Stack, st: Stack, ghost r0: Node, ghost r: Node, ghost h0: nat, ghost h: nat)
    requires st0 != st && st0.tree == st.tree && Walking(st0, r0, h0) && Walking(st, r, h)
    requires st0.Child().Some? && st.Child() == st0.Child() && st.CurrentNode().leafy == st0.CurrentNode().leafy
    modifies st0, st
    ensures Walking(st0, r0, h0) && Walking(st, r, h)
    ensures |st0.From(h0)| < |old(st0.From(h0))| && |st.From(h)| < |old(st.From(h))|
    ensures Changes(st0.From(h0), st.From(h)) == old(Changes(st0.From(h0), st.From(h)))
  {
    hide WfChildren, Flat, Left, Right, Less, FlatChild, Changes;
    HeadHere(st0, r0, h0);
    HeadHere(st, r, h);
    if !st.CurrentNode().leafy {
      HeightUnique(st.tree, st.Child().value, h - st.top, h0 - st0.top);
    }
    ghost var x := FlatChild(st.tree, st.Child().value, h - st.top);
    Next(st0, r0, h0);
    Next(st, r, h);
    SharedFront(x, st0.From(h0), st.From(h));
  }

  /** A slot of the original whose key the other tree has nothing at or below. */
  method PassOld(st0: Stack, st: Stack, ghost r0: Node, ghost r: Node, ghost h0: nat, ghost h: nat) returns (c: Change)
    requires st0 != st && st0.tree == st.tree && Walking(st0, r0, h0) && Settled(st, r, h)
    requires st0.Child().Some? && st0.CurrentNode().leafy
    requires st.Child().Some? ==> Less(st0.Child().value.key, st.Child().value.key)
    modifies st0
    ensures Walking(st0, r0, h0) && |st0.From(h0)| < |old(st0.From(h0))|
    ensures old(Changes(st0.From(h0), st.From(h))) == [c] + Changes(st0.From(h0), st.From(h))
  {
    hide WfChild, Flat, Left, Right, Less, FlatChild;
    HeadHere(st0, r0, h0);
    HeadHere(st, r, h);
    c := Change(Some(Entry(st0.Child().value.key, st0.Child().value.value)), None);
    ghost var s0 := st0.From(h0);
    Next(st0, r0, h0);
    assert s0[1..] == st0.From(h0);
  }

  /** A slot of the new tree whose key the original has nothing at or below. */
  method PassNew(st0: Stack, st: Stack, ghost r0: Node, ghost r: Node, ghost h0: nat, ghost h: nat) returns (c: Change)
    requires st0 != st && st0.tree == st.tree && Settled(st0, r0, h0) && Walking(st, r, h)
    requires st.Child().Some? && st.CurrentNode().leafy
    requires st0.Child().Some? ==> Less(st.Child().value.key, st0.Child().value.key)
    modifies st
    ensures Walking(st, r, h) && |st.From(h)| < |old(st.From(h))|
    ensures old(Changes(st0.From(h0), st.From(h))) == [c] + Changes(st0.From(h0), st.From(h))
  {
    hide WfChild, Flat, Left, Right, Less, FlatChild;
    HeadHere(st0, r0, h0);
    HeadHere(st, r, h);
    if st0.Child().Some? {
      LessAsymmetric(st.Child().value.key, st0.Child().value.key);
    }
    c := Change(None, Some(Entry(st.Child().value.key, st.Child().value.value)));
    ghost var s := st.From(h);
    Next(st, r, h);
    assert s[1..] == st.From(h);
  }

  /** Two leaf slots with one key and different values. */
  method PassBoth(st0: Stack, st: Stack, ghost r0: Node, ghost r: Node, ghost h0: nat, ghost h: nat) returns (c: Change)
    requires st0 != st && st0.tree == st.tree && Walking(st0, r0, h0) && Walking(st, r, h)
    requires st0.Child().Some? && st.Child().Some? && st0.CurrentNode().leafy && st.CurrentNode().leafy
    requires st.Child().value.key == st0.Child().value.key && st.Child() != st0.Child()
    modifies st0, st
    ensures Walking(st0, r0, h0) && Walking(st, r, h)
    ensures |st0.From(h0)| < |old(st0.From(h0))| && |st.From(h)| < |old(st.From(h))|
    ensures old(Changes(st0.From(h0), st.From(h))) == [c] + Changes(st0.From(h0), st.From(h))
  {
    hide WfChildren, Flat, Left, Right, Less, FlatChild;
    HeadHere(st0, r0, h0);
    HeadHere(st, r, h);
    LessIrreflexive(st.Child().value.key);
    c := Change(Some(Entry(st0.Child().value.key, st0.Child().value.value)),
                Some(Entry(st.Child().value.key, st.Child().value.value)));
    ghost var s0, s := st0.From(h0), st.From(h);
    Next(st0, r0, h0);
    Next(st, r, h);
    assert s0[1..] == st0.From(h0) && s[1..] == st.From(h);
  }

  /** The entries and levels the two cursors still have in front of them. */
  ghost function EntriesAhead(st0: Stack, st: Stack, h0: nat, h: nat): nat
    requires st0.Valid(h0) && 0 <= st0.Index() <= |st0.CurrentNode().children|
    requires st.Valid(h) && 0 <= st.Index() <= |st.CurrentNode().children|
    reads st0, st
  {
    |st0.From(h0)| + |st.From(h)|
  }

  ghost function LevelsBelow(st0: Stack, st: Stack, h0: nat, h: nat): nat
    requires st0.Valid(h0) && st.Valid(h)
    reads st0, st
  {
    h0 - st0.top + (h - st.top)
  }

  /** Different keys: deeper into the tree with the lower one, or past it. */
  method StepLower(st0: Stack, st: Stack, ghost r0: Node, ghost r: Node, ghost h0: nat, ghost h: nat)
    returns (cs: seq<Change>)
    requires st0 != st && st0.tree == st.tree && Settled(st0, r0, h0) && Settled(st, r, h)
    requires st.Child().Some? || st0.Child().Some?
    requires st.Child().Some? && st0.Child().Some? ==> st.Child().value.key != st0.Child().value.key
    modifies st0, st
    ensures Walking(st0, r0, h0) && Walking(st, r, h)
    ensures old(Changes(st0.From(h0), st.From(h))) == cs + Changes(st0.From(h0), st.From(h))
    ensures EntriesAhead(st0, st, h0, h) < old(EntriesAhead(st0, st, h0, h))
            || (EntriesAhead(st0, st, h0, h) == old(EntriesAhead(st0, st, h0, h))
                && NodesAhead(st0, h0) + NodesAhead(st, h) == old(NodesAhead(st0, h0) + NodesAhead(st, h))
                && LevelsBelow(st0, st, h0, h) < old(LevelsBelow(st0, st, h0, h)))
  {
    hide WfChild, WfChildren, Flat, Left, Right, Less, PathAhead, CountNodes, FlatChild, Changes;
    var c, c0 := st.Child(), st0.Child();
    cs := [];
    if c.None? || (c0.Some? && Less(c0.value.key, c.value.key)) {
      if !st0.CurrentNode().leafy {
        Down(st0, r0, h0);
        return;
      }
      var ch := PassOld(st0, st, r0, r, h0, h);
      cs := [ch];
    } else {
      if !st.CurrentNode().leafy {
        Down(st, r, h);
        return;
      }
      if c0.Some? {
        LessTotal(c.value.key, c0.value.key);
      }
      var ch := PassNew(st0, st, r0, r, h0, h);
      cs := [ch];
    }
  }

  /** Equal keys: past both if they are leaf slots, otherwise deeper. */
  method StepEqual(st0: Stack, st: Stack, ghost r0: Node, ghost r: Node, ghost h0: nat, ghost h: nat)
    returns (cs: seq<Change>)
    requires st0 != st && st0.tree == st.tree && Walking(st0, r0, h0) && Walking(st, r, h)
    requires st.Child().Some? && st0.Child().Some? && st.Child().value.key == st0.Child().value.key
    requires st0.CurrentNode().leafy && st.CurrentNode().leafy ==> st.Child() != st0.Child()
    modifies st0, st
    ensures Walking(st0, r0, h0) && Walking(st, r, h)
    ensures old(Changes(st0.From(h0), st.From(h))) == cs + Changes(st0.From(h0), st.From(h))
    ensures EntriesAhead(st0, st, h0, h) < old(EntriesAhead(st0, st, h0, h))
            || (EntriesAhead(st0, st, h0, h) == old(EntriesAhead(st0, st, h0, h))
                && NodesAhead(st0, h0) + NodesAhead(st, h) == old(NodesAhead(st0, h0) + NodesAhead(st, h))
                && LevelsBelow(st0, st, h0, h) < old(LevelsBelow(st0, st, h0, h)))
  {
    hide WfChild, WfChildren, Flat, Left, Right, Less, PathAhead, CountNodes, FlatChild, Changes;
    cs := [];
    var push0, push := !st0.CurrentNode().leafy, !st.CurrentNode().leafy;
    if push0 || push {
      if push0 {
        Down(st0, r0, h0);
      }
      if push {
        Down(st, r, h);
      }
      return;
    }
    var ch := PassBoth(st0, st, r0, r, h0, h);
    cs := [ch];
  }

  /** Reports the differences between `original` and `self`. */
  method IterateDelta(t: Tree, self: Node, original: Node, ghost h: nat, ghost h0: nat) returns (out: seq<Change>)
    requires t.Valid() && WfRoot(t, self, h) && WfRoot(t, original, h0)
    requires h < MAXIMUM_TREE_DEPTH && h0 < MAXIMUM_TREE_DEPTH
    ensures IsDelta(out, TreeMap(t, original, h0), TreeMap(t, self, h))
  {
    hide WfChild, WfChildren, Flat, Left, Right, Less, ToMap, IsDelta, PathAhead, CountNodes, FlatChild, Changes,
      WfPath, WfNode, LinkedFrom, Sorted, Contents;
    var st0 := new Stack(t, original, h0);
    var st := new Stack(t, self, h);
    AtStart(st0, original, h0);
    AtStart(st, self, h);
    ghost var d := Changes(st0.From(h0), st.From(h));
    ChangesAreDelta(st0.From(h0), st.From(h));
    out := [];
    while true
      invariant st != st0
      invariant Walking(st, self, h) && Walking(st0, original, h0)
      invariant d == out + Changes(st0.From(h0), st.From(h))
      decreases EntriesAhead(st0, st, h0, h), NodesAhead(st0, h0) + NodesAhead(st, h), LevelsBelow(st0, st, h0, h)
    {
      var c0 := st0.Child();
      if c0.None? && st0.top > 0 {
        Up(st0, original, h0);
        continue;
      }
      var c := st.Child();
      if c.None? && st.top > 0 {
        Up(st, self, h);
        continue;
      }
      HeadHere(st0, original, h0);
      HeadHere(st, self, h);
      if c.None? && c0.None? {
        NoChanges();
        assert out + [] == out;
        return;
      }
      var n, n0 := st.CurrentNode(), st0.CurrentNode();
      // A struct comparison: two nodes in memory are the same only if they are
      // the same object, which equal contents do not decide.
      var same := n.leafy == n0.leafy && c.Some? && c0.Some? && c == c0;
      if same && c.value.childNode.Some? {
        same := *;
      }
      var cs := [];
      if same {
        PassSame(st0, st, original, self, h0, h);
      } else if c.None? || c0.None? || c.value.key != c0.value.key {
        cs := StepLower(st0, st, original, self, h0, h);
      } else {
        cs := StepEqual(st0, st, original, self, h0, h);
      }
      out := out + cs;
    }
  }

  lemma NoChanges()
    ensures Changes([], []) == []
  {
  }
}
