/** A transaction keeps one cursor through many operations; subtrees are the
    keys of a transaction that share a prefix. */
module IbTransaction {
  import opened Keys
  import opened BTree
  import opened Edits
  import opened IbStack
  import IbTree

  /** Because the cursor's cached nodes always agree with the tree, each
      operation gives what a fresh cursor would: it depends on the map alone. */
  class Transaction {
    const stack: Stack
    ghost var height: nat

    ghost predicate Valid()
      reads this, stack
    {
      stack.Shape() && stack.Ready(stack.nodes[0].value, height)
    }

    function Root(): Node
      requires Valid()
      reads this, stack
    {
      stack.CurrentNode()
    }

    ghost function Map(): map<Key, Value>
      requires Valid()
      reads this, stack
    {
      TreeMap(stack.tree, Root(), height)
    }

    /** Whether an entry may be set: the key is not empty, it and the value are
        small, and the tree may still grow by a level. */
    ghost predicate MaySet(key: Key, value: Value)
      reads this
    {
      key != [] && Fits(stack.tree, NodeDataChild(key, value, None)) && height + 1 < MAXIMUM_TREE_DEPTH
    }

    constructor (tree: Tree, root: Node, ghost h: nat)
      requires tree.Valid() && WfRoot(tree, root, h) && h < MAXIMUM_TREE_DEPTH
      ensures Valid() && fresh(stack) && stack.tree == tree && Root() == root && height == h
    {
      stack := new Stack(tree, root, h);
      height := h;
    }

    method Get(key: Key) returns (r: Option<Value>)
      requires Valid()
      modifies stack
      ensures Valid() && Root() == old(Root())
      ensures r == if key in Map() then Some(Map()[key]) else None
    {
      r := IbTree.Get(Root(), key, stack, height);
    }

    method NextKey(key: Key) returns (r: Option<Key>)
      requires Valid()
      modifies stack
      ensures Valid() && Root() == old(Root())
      ensures IbTree.IsNextKey(Map(), key, r)
    {
      r := IbTree.NextKey(Root(), key, stack, height);
    }

    method PrevKey(key: Key) returns (r: Option<Key>)
      requires Valid()
      modifies stack
      ensures Valid() && Root() == old(Root())
      ensures IbTree.IsPrevKey(Map(), key, r)
    {
      r := IbTree.PrevKey(Root(), key, stack, height);
    }

    method Set(key: Key, value: Value, ghost m: nat := 0)
      requires Valid() && MaySet(key, value)
      modifies this, stack
      ensures Valid() && Map() == old(Map())[key := value]
      ensures IbTree.Settles(stack.tree, old(Root()), old(height), key, Put(value), Root(), height, m)
    {
      var _, h := IbTree.Set(Root(), key, value, stack, height, m);
      height := h;
    }

    method Delete(key: Key, ghost m: nat := 0)
      requires Valid() && key in Map() && (height > 0 ==> |Map()| > 1)
      modifies this, stack
      ensures Valid() && Map() == old(Map()) - {key}
      ensures IbTree.Settles(stack.tree, old(Root()), old(height), key, Remove, Root(), height, m)
    {
      var _, h := IbTree.Delete(Root(), key, stack, height, m);
      height := h;
    }

    method DeleteRange(key1: Key, key2: Key, ghost m: nat := 0)
      requires Valid() && !Less(key2, key1)
      requires height > 0 ==> IbTree.Without(Map(), key1, key2) != map[]
      modifies this, stack
      ensures Valid() && Map() == IbTree.Without(old(Map()), key1, key2)
      ensures IbTree.RangeSettles(stack.tree, old(Root()), old(height), key1, key2, Root(), height, m)
    {
      var _, h := IbTree.DeleteRange(Root(), key1, key2, stack, height, m);
      height := h;
    }
  }

  // ----- subtrees

  function AddTreePrefix(prefix: Key, key: Key): Key {
    prefix + key
  }

  /** The key without the prefix, if it has it. */
  function StripTreePrefix(prefix: Key, key: Option<Key>): (r: Option<Key>)
    ensures r.Some? <==> key.Some? && prefix <= key.value
    ensures r.Some? ==> AddTreePrefix(prefix, r.value) == key.value
  {
    if key.None? || |key.value| < |prefix| || key.value[..|prefix|] != prefix then None
    else Some(key.value[|prefix|..])
  }

  /** What lies between two keys with a common prefix has it too. */
  lemma {:induction false} BetweenHasPrefix(p: Key, a: Key, n: Key, b: Key)
    requires Less(p + a, n) && !Less(p + b, n)
    ensures p <= n
  {
    if p != [] {
      LessTotal(n, p + b);
      LessTotalHead(p + a, n);
      assert (p + a)[0] == p[0] && (p + b)[0] == p[0];
      assert (p + a)[1..] == p[1..] + a && (p + b)[1..] == p[1..] + b;
      BetweenHasPrefix(p[1..], a, n[1..], b);
      assert n == [n[0]] + n[1..];
    }
  }

  lemma LessTotalHead(a: Key, b: Key)
    requires Less(a, b) && a != []
    ensures b != [] && a[0] <= b[0]
  {
  }

  /** `r` is the least key above `key` among those with the prefix. */
  ghost predicate IsNextIn(m: map<Key, Value>, prefix: Key, key: Key, r: Option<Key>) {
    match r
    case None => forall k :: AddTreePrefix(prefix, k) in m ==> !Less(key, k)
    case Some(n) => AddTreePrefix(prefix, n) in m && Less(key, n)
                    && forall k :: AddTreePrefix(prefix, k) in m && Less(key, k) ==> !Less(k, n)
  }

  /** Asking the whole tree and dropping the prefix is asking the subtree. */
  lemma NextInSubTree(m: map<Key, Value>, prefix: Key, key: Key, n: Option<Key>)
    requires IbTree.IsNextKey(m, AddTreePrefix(prefix, key), n)
    ensures IsNextIn(m, prefix, key, StripTreePrefix(prefix, n))
  {
    var r := StripTreePrefix(prefix, n);
    if r.Some? {
      LessPrefix(prefix, key, r.value);
    }
    forall k | AddTreePrefix(prefix, k) in m && Less(key, k)
      ensures r.Some? && !Less(k, r.value)
    {
      var x := AddTreePrefix(prefix, k);
      LessPrefix(prefix, key, k);
      BetweenHasPrefix(prefix, key, n.value, k);
      LessPrefix(prefix, k, r.value);
    }
  }

  /** `r` is the greatest key below `key` among those with the prefix. */
  ghost predicate IsPrevIn(m: map<Key, Value>, prefix: Key, key: Key, r: Option<Key>) {
    match r
    case None => forall k :: AddTreePrefix(prefix, k) in m ==> !Less(k, key)
    case Some(n) => AddTreePrefix(prefix, n) in m && Less(n, key)
                    && forall k :: AddTreePrefix(prefix, k) in m && Less(k, key) ==> !Less(n, k)
  }

  lemma PrevInSubTree(m: map<Key, Value>, prefix: Key, key: Key, n: Option<Key>)
    requires IbTree.IsPrevKey(m, AddTreePrefix(prefix, key), n)
    ensures IsPrevIn(m, prefix, key, StripTreePrefix(prefix, n))
  {
    var r := StripTreePrefix(prefix, n);
    if r.Some? {
      LessPrefix(prefix, r.value, key);
    }
    forall k | AddTreePrefix(prefix, k) in m && Less(k, key)
      ensures r.Some? && !Less(r.value, k)
    {
      var x := AddTreePrefix(prefix, k);
      LessPrefix(prefix, k, key);
      LessTotal(x, n.value);
      if x != n.value {
        LessAsymmetric(n.value, prefix + key);
        BetweenHasPrefix(prefix, k, n.value, key);
      }
      LessPrefix(prefix, r.value, k);
    }
  }

  /** Deleting a range of a subtree takes exactly its keys in that range. */
  lemma RangeInSubTree(m: map<Key, Value>, prefix: Key, key1: Key, key2: Key, k: Key)
    requires k in m
    ensures k !in IbTree.Without(m, AddTreePrefix(prefix, key1), AddTreePrefix(prefix, key2)) <==>
            prefix <= k && !Less(k[|prefix|..], key1) && !Less(key2, k[|prefix|..])
  {
    var a, b := AddTreePrefix(prefix, key1), AddTreePrefix(prefix, key2);
    if prefix <= k {
      var x := k[|prefix|..];
      assert k == prefix + x;
      LessPrefix(prefix, x, key1);
      LessPrefix(prefix, key2, x);
    } else if !Less(k, a) && !Less(b, k) {
      LessTotal(k, a);
      BetweenHasPrefix(prefix, key1, k, key2);
    }
  }
}
