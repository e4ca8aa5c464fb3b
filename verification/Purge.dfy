/** Which nodes of an old tree a new one no longer needs. */
module Purge {
  import opened Keys
  import opened BTree
  import opened CommitTo

  /** A node that is stored, with at least one slot, `h` levels above its leaves. */
  ghost predicate WfStored(t: Tree, id: BlockId, h: nat) {
    && id in t.backend && WfNode(t, FromData(t.backend[id], id), h) && t.backend[id].children != []
  }

  ghost function Slots(t: Tree, id: BlockId): seq<NodeDataChild>
    requires id in t.backend
  {
    FromData(t.backend[id], id).children
  }

  lemma ChildStored(t: Tree, id: BlockId, h: nat, i: nat)
    requires WfStored(t, id, h) && h > 0 && i < |t.backend[id].children|
    ensures WfStored(t, t.backend[id].children[i].value, h - 1)
    ensures FlatChild(t, Slots(t, id)[i], h)
         == Flat(t, Slots(t, t.backend[id].children[i].value), h - 1)
  {
    assert WfChild(t, Slots(t, id)[i], h);
  }

  /** Which child a node is reached through. */
  lemma {:induction false} ReachThrough(b: NodeStore, es: seq<Entry>, h: nat, x: BlockId) returns (i: nat)
    requires h > 0 && x in ReachAll(b, es, h)
    ensures i < |es| && x in Reach(b, es[i].value, h - 1)
    decreases |es|
  {
    if x in Reach(b, es[|es| - 1].value, h - 1) {
      i := |es| - 1;
    } else {
      i := ReachThrough(b, es[..|es| - 1], h, x);
    }
  }

  /** The node is well formed, at its own height. */
  lemma {:induction false} ReachedHeight(t: Tree, id: BlockId, h: nat, x: BlockId) returns (k: nat)
    requires WfStored(t, id, h) && x in Reach(t.backend, id, h)
    ensures k <= h && WfStored(t, x, k) && (x != id ==> k < h) && (x == id ==> k == h)
    ensures Reach(t.backend, x, k) <= Reach(t.backend, id, h)
    decreases h
  {
    if x == id {
      k := h;
    } else {
      var es := t.backend[id].children;
      var i := ReachThrough(t.backend, es, h, x);
      ChildStored(t, id, h, i);
      k := ReachedHeight(t, es[i].value, h - 1, x);
      ReachAllHas(t.backend, es, h, i);
    }
  }

  lemma {:induction false} StoredHeight(t: Tree, id: BlockId, h: nat, k: nat)
    requires WfStored(t, id, h) && WfStored(t, id, k)
    ensures h == k
    decreases h
  {
    if h > 0 && k > 0 {
      ChildStored(t, id, h, 0);
      ChildStored(t, id, k, 0);
      StoredHeight(t, t.backend[id].children[0].value, h - 1, k - 1);
    }
  }

  ghost predicate HasKey(s: seq<Entry>, k: Key) {
    exists i :: 0 <= i < |s| && s[i].key == k
  }

  lemma HasKeyWithin(a: seq<Entry>, b: seq<Entry>, c: seq<Entry>, k: Key)
    requires HasKey(b, k)
    ensures HasKey(a + b + c, k)
  {
    var i :| 0 <= i < |b| && b[i].key == k;
    assert (a + b + c)[|a| + i] == b[i];
  }

  /** The first key of a node is among the entries of every tree it is in. */
  lemma {:induction false} ReachedKey(t: Tree, id: BlockId, h: nat, x: BlockId)
    requires WfStored(t, id, h) && x in Reach(t.backend, id, h)
    ensures x in t.backend && t.backend[x].children != []
    ensures HasKey(Flat(t, Slots(t, id), h), t.backend[x].children[0].key)
    decreases h
  {
    if x == id {
      FlatFirst(t, Slots(t, id), h);
      assert Flat(t, Slots(t, id), h)[0].key == t.backend[x].children[0].key;
    } else {
      var es := t.backend[id].children;
      var i := ReachThrough(t.backend, es, h, x);
      ChildStored(t, id, h, i);
      ReachedKey(t, es[i].value, h - 1, x);
      FlatSplit(t, Slots(t, id), i, h);
      HasKeyWithin(Flat(t, Slots(t, id)[..i], h), FlatChild(t, Slots(t, id)[i], h), Flat(t, Slots(t, id)[i + 1..], h),
                   t.backend[x].children[0].key);
    }
  }

  /** In a sorted tree no node is below two slots of the same node. */
  lemma ReachedOnce(t: Tree, id: BlockId, h: nat, i: nat, j: nat, x: BlockId)
    requires WfStored(t, id, h) && h > 0 && Sorted(Flat(t, Slots(t, id), h)) && i < j < |t.backend[id].children|
    ensures x in Reach(t.backend, t.backend[id].children[i].value, h - 1) ==>
            x !in Reach(t.backend, t.backend[id].children[j].value, h - 1)
  {
    var es, cs := t.backend[id].children, Slots(t, id);
    if x in Reach(t.backend, es[i].value, h - 1) && x in Reach(t.backend, es[j].value, h - 1) {
      ChildStored(t, id, h, i);
      ChildStored(t, id, h, j);
      ReachedKey(t, es[i].value, h - 1, x);
      ReachedKey(t, es[j].value, h - 1, x);
      var k := t.backend[x].children[0].key;
      FlatCut(t, cs, j, h);
      SortedParts(Flat(t, cs[..j], h), Flat(t, cs[j..], h));
      FlatSplit(t, cs[..j], i, h);
      assert cs[..j][i] == cs[i] && cs[j..][0] == cs[j];
      HasKeyWithin(Flat(t, cs[..j][..i], h), FlatChild(t, cs[i], h), Flat(t, cs[..j][i + 1..], h), k);
      FlatSplit(t, cs[j..], 0, h);
      HasKeyWithin(Flat(t, cs[j..][..0], h), FlatChild(t, cs[j], h), Flat(t, cs[j..][1..], h), k);
      LessIrreflexive(k);
      assert false;
    }
  }

  /** Sorted trees have sorted children. */
  lemma ChildSorted(t: Tree, id: BlockId, h: nat, i: nat)
    requires WfStored(t, id, h) && h > 0 && i < |t.backend[id].children| && Sorted(Flat(t, Slots(t, id), h))
    ensures WfStored(t, t.backend[id].children[i].value, h - 1)
    ensures Sorted(Flat(t, Slots(t, t.backend[id].children[i].value), h - 1))
  {
    ChildStored(t, id, h, i);
    var cs := Slots(t, id);
    FlatSplit(t, cs, i, h);
    SortedParts(Flat(t, cs[..i], h) + FlatChild(t, cs[i], h), Flat(t, cs[i + 1..], h));
    SortedParts(Flat(t, cs[..i], h), FlatChild(t, cs[i], h));
  }

  // ----- what is purged

  /** The nodes met on the way down from a node, children first, that stops at
      nodes of `c`. */
  ghost function Purged(b: NodeStore, c: set<BlockId>, id: BlockId, h: nat): seq<BlockId>
    decreases h, 1, 0
  {
    if id in c then [] else (if h > 0 && id in b then PurgedAll(b, c, b[id].children, h) else []) + [id]
  }

  ghost function PurgedAll(b: NodeStore, c: set<BlockId>, es: seq<Entry>, h: nat): seq<BlockId>
    requires h > 0
    decreases h, 0, |es|
  {
    if es == [] then [] else PurgedAll(b, c, es[..|es| - 1], h) + Purged(b, c, es[|es| - 1].value, h - 1)
  }

  lemma {:induction false} PurgedReach(b: NodeStore, c: set<BlockId>, id: BlockId, h: nat, x: BlockId)
    requires x in Purged(b, c, id, h)
    ensures x in Reach(b, id, h)
    decreases h, 1, 0
  {
    if x != id {
      PurgedAllReach(b, c, b[id].children, h, x);
    }
  }

  lemma {:induction false} PurgedAllReach(b: NodeStore, c: set<BlockId>, es: seq<Entry>, h: nat, x: BlockId)
    requires h > 0 && x in PurgedAll(b, c, es, h)
    ensures x in ReachAll(b, es, h)
    decreases h, 0, |es|
  {
    if x in PurgedAll(b, c, es[..|es| - 1], h) {
      PurgedAllReach(b, c, es[..|es| - 1], h, x);
    } else {
      PurgedReach(b, c, es[|es| - 1].value, h - 1, x);
    }
  }

  ghost predicate Distinct(s: seq<BlockId>) {
    forall i, j :: 0 <= i < j < |s| ==> s[i] != s[j]
  }

  lemma DistinctConcat(a: seq<BlockId>, b: seq<BlockId>)
    requires Distinct(a) && Distinct(b) && forall x :: x in a ==> x !in b
    ensures Distinct(a + b)
  {
    var s := a + b;
    forall i, j | 0 <= i < j < |s| ensures s[i] != s[j] {
      if i < |a| <= j {
        assert s[i] in a && s[j] == b[j - |a|];
      } else if |a| <= i {
        assert s[i] == b[i - |a|] && s[j] == b[j - |a|];
      }
    }
  }

  /** No node is purged twice. */
  lemma {:induction false} PurgedDistinct(t: Tree, c: set<BlockId>, id: BlockId, h: nat)
    requires WfStored(t, id, h) && Sorted(Flat(t, Slots(t, id), h))
    ensures Distinct(Purged(t.backend, c, id, h))
    decreases h, 1, 0
  {
    hide WfNode, Flat, Sorted, Distinct;
    var b := t.backend;
    if id in c || h == 0 {
      DistinctFew(b, c, id, h);
    } else {
      PurgedAllDistinct(t, c, id, h, |b[id].children|);
      assert b[id].children[..|b[id].children|] == b[id].children;
      forall x | x in PurgedAll(b, c, b[id].children, h) ensures x != id {
        PurgedAllReach(b, c, b[id].children, h, x);
        NotBelowItself(t, id, h, x);
      }
      DistinctFew(b, {}, id, 0);
      DistinctConcat(PurgedAll(b, c, b[id].children, h), [id]);
    }
  }

  lemma DistinctFew(b: NodeStore, c: set<BlockId>, id: BlockId, h: nat)
    ensures id in c || h == 0 ==> Distinct(Purged(b, c, id, h))
    ensures Distinct([id]) && Distinct([])
  {
  }

  lemma NotBelowItself(t: Tree, id: BlockId, h: nat, x: BlockId)
    requires WfStored(t, id, h) && h > 0 && x in ReachAll(t.backend, t.backend[id].children, h)
    ensures x != id
  {
    hide WfNode;
    var es := t.backend[id].children;
    var i := ReachThrough(t.backend, es, h, x);
    ChildStored(t, id, h, i);
    var k := ReachedHeight(t, es[i].value, h - 1, x);
    if x == id {
      StoredHeight(t, id, h, k);
    }
  }

  lemma {:induction false} PurgedAllDistinct(t: Tree, c: set<BlockId>, id: BlockId, h: nat, n: nat)
    requires WfStored(t, id, h) && h > 0 && Sorted(Flat(t, Slots(t, id), h)) && n <= |t.backend[id].children|
    ensures Distinct(PurgedAll(t.backend, c, t.backend[id].children[..n], h))
    decreases h, 0, n
  {
    hide WfNode, Flat, Sorted, Distinct;
    var b, es := t.backend, t.backend[id].children[..n];
    if n == 0 {
      DistinctFew(b, c, id, 0);
    } else {
      assert es[..n - 1] == t.backend[id].children[..n - 1];
      PurgedAllDistinct(t, c, id, h, n - 1);
      ChildSorted(t, id, h, n - 1);
      PurgedDistinct(t, c, es[n - 1].value, h - 1);
      var before, here := PurgedAll(b, c, es[..n - 1], h), Purged(b, c, es[n - 1].value, h - 1);
      forall x | x in before ensures x !in here {
        PurgedAllReach(b, c, es[..n - 1], h, x);
        var i := ReachThrough(b, es[..n - 1], h, x);
        ReachedOnce(t, id, h, i, n - 1, x);
        if x in here {
          PurgedReach(b, c, es[n - 1].value, h - 1, x);
        }
      }
      DistinctConcat(before, here);
    }
  }

  /** Nothing below a current node is purged. */
  lemma {:induction false} PurgedMisses(t: Tree, c: set<BlockId>, id: BlockId, h: nat, a: BlockId, k: nat, x: BlockId)
    requires WfStored(t, id, h) && Sorted(Flat(t, Slots(t, id), h))
    requires a in c && a in Reach(t.backend, id, h) && WfStored(t, a, k) && x in Reach(t.backend, a, k)
    ensures x !in Purged(t.backend, c, id, h)
    decreases h
  {
    hide WfNode, Flat, Sorted, Distinct;
    var b := t.backend;
    if id in c {
      return;
    }
    var es := b[id].children;
    var i := ReachThrough(b, es, h, a);
    ChildSorted(t, id, h, i);
    var k' := ReachedHeight(t, es[i].value, h - 1, a);
    StoredHeight(t, a, k, k');
    assert x in Reach(b, es[i].value, h - 1);
    ReachAllHas(b, es, h, i);
    NotBelowItself(t, id, h, x);
    PurgedMisses(t, c, es[i].value, h - 1, a, k, x);
    if x in PurgedAll(b, c, es, h) {
      var j := PurgedThrough(b, c, es, h, x);
      PurgedReach(b, c, es[j].value, h - 1, x);
      if i < j {
        ReachedOnce(t, id, h, i, j, x);
      } else if j < i {
        ReachedOnce(t, id, h, j, i, x);
      }
      assert false;
    }
  }

  lemma {:induction false} PurgedThrough(b: NodeStore, c: set<BlockId>, es: seq<Entry>, h: nat, x: BlockId) returns (i: nat)
    requires h > 0 && x in PurgedAll(b, c, es, h)
    ensures i < |es| && x in Purged(b, c, es[i].value, h - 1)
    decreases |es|
  {
    if x in Purged(b, c, es[|es| - 1].value, h - 1) {
      i := |es| - 1;
    } else {
      i := PurgedThrough(b, c, es[..|es| - 1], h, x);
    }
  }

  lemma {:induction false} PurgedAllHas(b: NodeStore, c: set<BlockId>, es: seq<Entry>, h: nat, i: nat, x: BlockId)
    requires h > 0 && i < |es| && x in Purged(b, c, es[i].value, h - 1)
    ensures x in PurgedAll(b, c, es, h)
    decreases |es|
  {
    if i < |es| - 1 {
      PurgedAllHas(b, c, es[..|es| - 1], h, i, x);
    }
  }

  /** A node that is not below a current one is purged. */
  lemma {:induction false} PurgedHits(t: Tree, c: set<BlockId>, id: BlockId, h: nat, x: BlockId)
    requires WfStored(t, id, h) && x in Reach(t.backend, id, h)
    requires forall a, k :: a in c && WfStored(t, a, k) ==> x !in Reach(t.backend, a, k)
    ensures x in Purged(t.backend, c, id, h)
    decreases h
  {
    hide WfNode;
    assert id !in c;
    if x != id {
      var es := t.backend[id].children;
      var i := ReachThrough(t.backend, es, h, x);
      ChildStored(t, id, h, i);
      PurgedHits(t, c, es[i].value, h - 1, x);
      PurgedAllHas(t.backend, c, es, h, i, x);
    }
  }

  // ----- the old tree and the new one

  /** A saved tree: its nodes are all that is stored. */
  ghost predicate Rooted(t: Tree, id: BlockId, h: nat) {
    && t.Valid() && id in t.backend && WfRoot(t, FromData(t.backend[id], id), h)
    && t.backend.Keys == Reach(t.backend, id, h)
  }

  /** The nodes of a saved tree are well formed, but an empty root. */
  lemma RootedNode(t: Tree, id: BlockId, h: nat, x: BlockId) returns (k: nat)
    requires Rooted(t, id, h) && x in t.backend && t.backend[x].children != []
    ensures WfStored(t, x, k)
  {
    hide Sorted, Flat, WfChildren;
    assert t.backend[id].children != [] by {
      if h == 0 {
        assert x == id;
      }
    }
    k := ReachedHeight(t, id, h, x);
  }

  lemma {:induction false} StoredGrown(t: Tree, u: Tree, id: BlockId, h: nat)
    requires Grown(t, u) && WfStored(t, id, h)
    ensures WfStored(u, id, h) && Reach(u.backend, id, h) == Reach(t.backend, id, h)
    decreases h, 1, 0
  {
    GrownChildren(t, u, Slots(t, id), h);
    if h > 0 {
      AllGrown(t, u, id, h, |t.backend[id].children|);
      assert t.backend[id].children[..|t.backend[id].children|] == t.backend[id].children;
    }
  }

  lemma {:induction false} AllGrown(t: Tree, u: Tree, id: BlockId, h: nat, n: nat)
    requires Grown(t, u) && WfStored(t, id, h) && h > 0 && n <= |t.backend[id].children|
    ensures ReachAll(u.backend, t.backend[id].children[..n], h) == ReachAll(t.backend, t.backend[id].children[..n], h)
    decreases h, 0, n
  {
    if n > 0 {
      var es := t.backend[id].children[..n];
      assert es[..n - 1] == t.backend[id].children[..n - 1];
      AllGrown(t, u, id, h, n - 1);
      ChildStored(t, id, h, n - 1);
      StoredGrown(t, u, es[n - 1].value, h - 1);
    }
  }

  /** Coming down from a new node, an old node is below a current old one. */
  lemma {:induction false} Border(t: Tree, u: Tree, o: BlockId, ho: nat, c: set<BlockId>, r: set<BlockId>, y: BlockId, h: nat,
                                  x: BlockId) returns (a: BlockId, k: nat)
    requires Rooted(t, o, ho) && Grown(t, u) && Tracked(t.backend, u.backend, {}, c, r)
    requires WfStored(u, y, h) && y !in t.backend && x in Reach(u.backend, y, h) && x in t.backend
    ensures a in c && WfStored(t, a, k) && x in Reach(t.backend, a, k)
    decreases h
  {
    hide WfNode, Rooted;
    var es := u.backend[y].children;
    var i := ReachThrough(u.backend, es, h, x);
    ChildStored(u, y, h, i);
    var v := es[i].value;
    assert !u.backend[y].leafy by {
      StoredLeafy(u, y, h);
    }
    assert v in c;
    if v in t.backend {
      a := v;
      k := RootedNode(t, o, ho, v);
      StoredGrown(t, u, v, k);
      StoredHeight(u, v, k, h - 1);
    } else {
      a, k := Border(t, u, o, ho, c, r, v, h - 1, x);
    }
  }

  lemma StoredLeafy(t: Tree, id: BlockId, h: nat)
    requires WfStored(t, id, h)
    ensures t.backend[id].leafy == (h == 0)
  {
  }

  /** What a commit of a changed tree leaves: the old nodes are still stored, and
      the new ones are known. */
  ghost predicate Committed(t: Tree, o: BlockId, ho: nat, u: Tree, n: BlockId, hn: nat, c: set<BlockId>) {
    && Rooted(t, o, ho) && Grown(t, u)
    && n in u.backend && n !in t.backend && WfRoot(u, FromData(u.backend[n], n), hn)
    && Tracked(t.backend, u.backend, {}, c, Reach(u.backend, n, hn))
  }

  lemma RootReach(u: Tree, n: BlockId, h: nat)
    requires n in u.backend && WfRoot(u, FromData(u.backend[n], n), h)
    ensures u.backend[n].children == [] ==> h == 0 && Reach(u.backend, n, h) == {n}
    ensures u.backend[n].children != [] ==> WfStored(u, n, h) && Sorted(Flat(u, Slots(u, n), h))
  {
    hide Sorted, Flat, WfChildren;
  }

  lemma RootGrown(t: Tree, u: Tree, o: BlockId, h: nat)
    requires Rooted(t, o, h) && Grown(t, u)
    ensures o in u.backend && u.backend[o] == t.backend[o] && Reach(u.backend, o, h) == t.backend.Keys
    ensures u.backend[o].children == [] ==> t.backend.Keys == {o} && h == 0
    ensures u.backend[o].children != [] ==> WfStored(u, o, h) && Sorted(Flat(u, Slots(u, o), h))
  {
    hide Sorted, Flat, WfChildren;
    RootReach(t, o, h);
    if u.backend[o].children != [] {
      StoredGrown(t, u, o, h);
      GrownChildren(t, u, Slots(t, o), h);
    }
  }

  lemma PurgedIsOld(t: Tree, o: BlockId, ho: nat, u: Tree, n: BlockId, hn: nat, c: set<BlockId>, x: BlockId)
    requires Committed(t, o, ho, u, n, hn, c) && x in Purged(u.backend, c, o, ho)
    ensures x in t.backend && x !in Reach(u.backend, n, hn)
  {
    hide WfRoot, Rooted, Tracked, Reach, Sorted, Flat, WfNode;
    PurgedReach(u.backend, c, o, ho, x);
    RootGrown(t, u, o, ho);
    RootReach(u, n, hn);
    if x in Reach(u.backend, n, hn) {
      var a, k := Border(t, u, o, ho, c, Reach(u.backend, n, hn), n, hn, x);
      StoredGrown(t, u, a, k);
      PurgedMisses(u, c, o, ho, a, k, x);
    }
  }

  lemma OldIsPurged(t: Tree, o: BlockId, ho: nat, u: Tree, n: BlockId, hn: nat, c: set<BlockId>, x: BlockId)
    requires Committed(t, o, ho, u, n, hn, c) && x in t.backend && x !in Reach(u.backend, n, hn)
    ensures x in Purged(u.backend, c, o, ho)
  {
    RootGrown(t, u, o, ho);
    RootReach(u, n, hn);
    assert c <= Reach(u.backend, n, hn);
    hide WfRoot, Rooted, Tracked, Reach, Sorted, Flat, WfNode, Grown;
    if u.backend[o].children == [] {
      assert x == o;
    } else {
      forall a, k | a in c && WfStored(u, a, k) ensures x !in Reach(u.backend, a, k) {
        var k' := ReachedHeight(u, n, hn, a);
        StoredHeight(u, a, k, k');
      }
      PurgedHits(u, c, o, ho, x);
    }
  }

  /** Exactly the nodes of the old tree that the new one does not have are purged,
      each of them once. */
  lemma PurgeExact(t: Tree, o: BlockId, ho: nat, u: Tree, n: BlockId, hn: nat, c: set<BlockId>)
    requires Committed(t, o, ho, u, n, hn, c)
    ensures Distinct(Purged(u.backend, c, o, ho))
    ensures forall x :: x in Purged(u.backend, c, o, ho) <==> x in t.backend && x !in Reach(u.backend, n, hn)
  {
    hide Committed, Reach;
    forall x ensures x in Purged(u.backend, c, o, ho) <==> x in t.backend && x !in Reach(u.backend, n, hn) {
      if x in Purged(u.backend, c, o, ho) {
        PurgedIsOld(t, o, ho, u, n, hn, c, x);
      } else if x in t.backend && x !in Reach(u.backend, n, hn) {
        OldIsPurged(t, o, ho, u, n, hn, c, x);
      }
    }
    PurgeDistinct(t, o, ho, u, n, hn, c);
  }

  lemma PurgeDistinct(t: Tree, o: BlockId, ho: nat, u: Tree, n: BlockId, hn: nat, c: set<BlockId>)
    requires Committed(t, o, ho, u, n, hn, c)
    ensures Distinct(Purged(u.backend, c, o, ho))
  {
    hide WfRoot, Rooted, Tracked, Sorted, Flat, WfNode, Grown;
    RootGrown(t, u, o, ho);
    if u.backend[o].children != [] {
      PurgedDistinct(u, c, o, ho);
    } else {
      DistinctFew(u.backend, c, o, ho);
    }
  }

  // ----- forgetting what is not reached

  /** The nodes of a saved tree alone. */
  function Kept(b: NodeStore, ids: set<BlockId>): NodeStore {
    map id | id in b && id in ids :: b[id]
  }

  /** Dropping nodes that a tree does not reach leaves it as it was. */
  lemma {:induction false} ShrunkStored(v: Tree, u: Tree, id: BlockId, h: nat)
    requires Grown(v, u) && WfStored(u, id, h) && Reach(u.backend, id, h) <= v.backend.Keys
    ensures WfStored(v, id, h)
    decreases h
  {
    var cs := Slots(u, id);
    forall i | 0 <= i < |cs| ensures WfChild(v, cs[i], h) {
      if h > 0 {
        ChildStored(u, id, h, i);
        ReachAllHas(u.backend, u.backend[id].children, h, i);
        ShrunkStored(v, u, u.backend[id].children[i].value, h - 1);
      }
      assert WfChild(u, cs[i], h);
    }
    assert Slots(v, id) == cs;
  }

  lemma {:induction false} ReachStored(u: Tree, id: BlockId, h: nat)
    requires WfStored(u, id, h)
    ensures Reach(u.backend, id, h) <= u.backend.Keys
  {
    forall x | x in Reach(u.backend, id, h) ensures x in u.backend {
      ReachedKey(u, id, h, x);
    }
  }

  /** The new tree is a saved tree of its own, with the same contents. */
  lemma KeptRooted(u: Tree, n: BlockId, h: nat)
    requires u.Valid() && n in u.backend && WfRoot(u, FromData(u.backend[n], n), h)
    ensures var v := Tree(u.nodeMaximumSize, Kept(u.backend, Reach(u.backend, n, h)));
            && n in v.backend && v.backend[n] == u.backend[n] && Rooted(v, n, h)
            && TreeMap(v, FromData(v.backend[n], n), h) == TreeMap(u, FromData(u.backend[n], n), h)
  {
    hide Sorted, Flat, WfNode;
    var v := Tree(u.nodeMaximumSize, Kept(u.backend, Reach(u.backend, n, h)));
    assert Grown(v, u);
    RootReach(u, n, h);
    if u.backend[n].children == [] {
      KeptEmpty(u, v, n);
    } else {
      ReachStored(u, n, h);
      ShrunkStored(v, u, n, h);
      StoredGrown(v, u, n, h);
      KeptFlat(v, u, n, h);
    }
  }

  lemma KeptFlat(v: Tree, u: Tree, n: BlockId, h: nat)
    requires Grown(v, u) && WfStored(v, n, h)
    ensures Flat(v, Slots(v, n), h) == Flat(u, Slots(u, n), h)
  {
    GrownChildren(v, u, Slots(v, n), h);
  }

  lemma KeptEmpty(u: Tree, v: Tree, n: BlockId)
    requires n in u.backend && u.backend[n].children == [] && WfNode(u, FromData(u.backend[n], n), 0)
    requires n in v.backend && v.backend[n] == u.backend[n]
    ensures WfNode(v, FromData(v.backend[n], n), 0)
    ensures Flat(v, FromData(v.backend[n], n).children, 0) == Flat(u, FromData(u.backend[n], n).children, 0) == []
    ensures Sorted([])
  {
  }
}
