/** Optimistic transactions on a shared tree root.

    Each method is one atomic step: what the code does under a lock or with one
    atomic operation on the root.  Steps of any number of users may come in any
    order that the guards allow. */
module Hugger {
  import opened Keys
  import opened BTree
  import M = Merge

  type Contents = map<Key, Value>

  type Edit = Contents -> Contents

  /** A root as an object: two are equal only if they are the same allocation, which is
      what `version` tells. */
  datatype Root = Root(version: nat, contents: Contents)

  /** Where the contents of a transaction come from. */
  datatype Origin = Edited(edits: seq<Edit>) | Merged(src: Contents, dst: Contents)

  /** `edited` tells whether it has a root node of its own. */
  datatype Transaction = Transaction(root: Root, contents: Contents, origin: Origin, edited: bool)

  function Run(edits: seq<Edit>, c: Contents): Contents {
    if edits == [] then c else edits[|edits| - 1](Run(edits[..|edits| - 1], c))
  }

  lemma RunNext(edits: seq<Edit>, f: Edit, c: Contents)
    ensures Run(edits + [f], c) == f(Run(edits, c))
  {
    assert (edits + [f])[..|edits|] == edits;
  }

  /** Why a root came after another one. */
  datatype Cause = Committed(origin: Origin) | Flushed

  type Merge = (Contents, Contents, Contents) -> Contents

  /** What one commit makes of the contents it began on. */
  function Effect(merge: Merge, c: Contents, origin: Origin): Contents {
    match origin
    case Edited(edits) => Run(edits, c)
    case Merged(src, dst) => merge(c, src, dst)
  }

  /** A root is the one before it after exactly one commit of edits, or of one
      merge, that began on it, or is that root, stored again. */
  ghost predicate Explained(merge: Merge, before: Root, cause: Cause, after: Root) {
    match cause
    case Committed(origin) => after.contents == Effect(merge, before.contents, origin)
    case Flushed => after.contents == before.contents
  }

  class Hugger {
    /** The merge callback: into a tree, the changes from one tree to another. */
    const merge: Merge
    var root: Root
    var transactions: map<nat, Transaction>
    var nextId: nat
    var flushing: bool
    var reading: Option<Root>       // the root that a flush is about to store again
    ghost var history: seq<Root>
    ghost var causes: seq<Cause>

    /** What a transaction has is its edits, or one merge, applied to its root. */
    ghost predicate Derived(tr: Transaction)
      reads `history
    {
      && tr.contents == Effect(merge, tr.root.contents, tr.origin)
      && (!tr.edited ==> tr.contents == tr.root.contents)
      && tr.root.version < |history| && tr.root == history[tr.root.version]
    }

    ghost predicate Valid()
      reads this
    {
      && |history| > 0 && |causes| == |history| - 1 && root == history[|history| - 1]
      && (forall i :: 0 <= i < |history| ==> history[i].version == i)
      && (forall i :: 0 <= i < |causes| ==> Explained(merge, history[i], causes[i], history[i + 1]))
      && (forall id :: id in transactions ==> id < nextId && Derived(transactions[id]))
      && (reading.Some? ==> flushing && transactions == map[] && reading.value == root)
    }

    constructor (merge: Merge, contents: Contents)
      ensures Valid() && root.contents == contents && transactions == map[] && this.merge == merge
    {
      this.merge := merge;
      root, transactions, nextId, flushing, reading := Root(0, contents), map[], 0, false, None;
      history, causes := [Root(0, contents)], [];
    }

    /** Begins a transaction on the current root.  A flush holds the lock that this
        takes while it stores the root, and only nested ones begin while it waits. */
    method Begin(nested: bool) returns (id: nat)
      requires Valid() && reading.None? && (nested || !flushing)
      modifies `transactions, `nextId
      ensures Valid() && id !in old(transactions) && nextId == old(nextId) + 1
      ensures transactions == old(transactions)[id := Transaction(root, root.contents, Edited([]), false)]
    {
      id := nextId;
      nextId := nextId + 1;
      transactions := transactions[id := Transaction(root, root.contents, Edited([]), false)];
    }

    /** A callback changes what its transaction has. */
    method Change(id: nat, f: Edit)
      requires Valid() && id in transactions && transactions[id].origin.Edited?
      modifies `transactions
      ensures Valid() && transactions.Keys == old(transactions).Keys
      ensures transactions[id].contents == f(old(transactions)[id].contents) && transactions[id].edited
      ensures transactions[id].root == old(transactions)[id].root
      ensures transactions[id].origin == Edited(old(transactions)[id].origin.edits + [f])
      ensures forall x :: x in transactions && x != id ==> transactions[x] == old(transactions)[x]
    {
      hide Explained;
      var tr := transactions[id];
      var edits := tr.origin.edits + [f];
      RunNext(tr.origin.edits, f, tr.root.contents);
      hide Run, Effect;
      assert Derived(tr);
      transactions := transactions[id := tr.(contents := f(tr.contents), origin := Edited(edits), edited := true)];
    }

    /** Makes the contents of a transaction the root, if that is still the one it
        began on. */
    method TryCommit(id: nat) returns (ok: bool)
      requires Valid() && id in transactions
      modifies `root, `history, `causes
      ensures Valid() && old(history) <= history
      ensures ok <==> !transactions[id].edited || old(root) == transactions[id].root
      ensures ok && transactions[id].edited ==>
                root.contents == old(transactions[id].contents) && |history| == old(|history|) + 1
                && causes == old(causes) + [Committed(transactions[id].origin)]
      ensures !ok || !transactions[id].edited ==> root == old(root) && history == old(history)
    {
      var tr := transactions[id];
      if !tr.edited {
        return true;
      }
      if root.version != tr.root.version {
        return false;
      }
      root := Root(root.version + 1, tr.contents);
      history, causes := history + [root], causes + [Committed(tr.origin)];
      ok := true;
    }

    /** After a failed commit: a nested transaction on the root as it is now, with
        the changes of the failed one merged in. */
    method Retry(id: nat) returns (next: nat)
      requires Valid() && id in transactions && reading.None?
      modifies `transactions, `nextId
      ensures Valid() && next !in old(transactions)
      ensures var tr := old(transactions)[id];
              next in transactions && transactions == old(transactions)[next := transactions[next]]
              && transactions[next].root == root && transactions[next].origin == Merged(tr.root.contents, tr.contents)
              && transactions[next].contents == merge(root.contents, tr.root.contents, tr.contents)
    {
      hide Explained, Run;
      var tr := transactions[id];
      next := Begin(true);
      var merged := merge(root.contents, tr.root.contents, tr.contents);
      var edited: bool := *;
      var nested := Transaction(root, merged, Merged(tr.root.contents, tr.contents), edited || merged != root.contents);
      assert Derived(nested);
      ghost var before := transactions;
      transactions := transactions[next := nested];
      forall x | x in transactions ensures x < nextId && Derived(transactions[x]) {
        assert x != next ==> transactions[x] == before[x];
      }
    }

    method Close(id: nat)
      requires Valid() && id in transactions
      modifies `transactions
      ensures Valid() && transactions == old(transactions) - {id}
    {
      transactions := transactions - {id};
    }

    method FlushStart()
      requires Valid()
      modifies `flushing
      ensures Valid() && flushing
    {
      flushing := true;
    }

    /** With no transaction open, a flush takes the root that it will store. */
    method FlushRead()
      requires Valid() && flushing && transactions == map[] && reading.None?
      modifies `reading
      ensures Valid() && reading == Some(root)
    {
      reading := Some(root);
    }

    /** Stores the root again, now with its nodes saved.  It does not look whether
        the root is still the one taken: nobody could have changed it, so no commit
        is lost. */
    method FlushStore()
      requires Valid() && reading.Some?
      modifies `root, `reading, `flushing, `history, `causes
      ensures Valid() && !flushing && reading.None? && old(history) <= history
      ensures root.contents == old(root.contents) && root.version == old(root.version) + 1
      ensures causes == old(causes) + [Flushed]
    {
      root := Root(root.version + 1, reading.value.contents);
      history, causes := history + [root], causes + [Flushed];
      reading, flushing := None, false;
    }

    /** A flush of a root that has been stored before leaves it alone. */
    method FlushSkip()
      requires Valid() && reading.Some?
      modifies `reading, `flushing
      ensures Valid() && !flushing && reading.None?
    {
      reading, flushing := None, false;
    }
  }

  /** All commits so far, one after the other; flushes change nothing. */
  ghost function Serial(merge: Merge, c: Contents, causes: seq<Cause>): Contents {
    if causes == [] then c else
    var before := Serial(merge, c, causes[..|causes| - 1]);
    match causes[|causes| - 1]
    case Committed(origin) => Effect(merge, before, origin)
    case Flushed => before
  }

  /** Whatever the interleaving, the root is what the commits give when they are
      made one at a time in the order of their compare-and-swap. */
  lemma {:induction false} Serializable(merge: Merge, history: seq<Root>, causes: seq<Cause>, n: nat)
    requires |history| > 0 && |causes| == |history| - 1 && n <= |causes|
    requires forall i :: 0 <= i < |causes| ==> Explained(merge, history[i], causes[i], history[i + 1])
    ensures history[n].contents == Serial(merge, history[0].contents, causes[..n])
  {
    if n > 0 {
      Serializable(merge, history, causes, n - 1);
      assert causes[..n][..n - 1] == causes[..n - 1];
      assert Explained(merge, history[n - 1], causes[n - 1], history[n]);
    }
  }

  // ----- retried commits of a file system

  /** The merge is the three-way merge in local mode. */
  ghost predicate MergesLocally(merge: Merge, dec: Value -> M.InodeMeta) {
    forall cur, src, dst, k :: M.MergeCase(cur, src, dst, dec, true).Valid() ==>
      M.Look(merge(cur, src, dst), k) == M.MergeCase(cur, src, dst, dec, true).Result(k)
  }

  lemma LocalMerge(dec: Value -> M.InodeMeta)
    ensures MergesLocally((cur, src, dst) => M.Outcome(M.MergeCase(cur, src, dst, dec, true)), dec)
  {
    forall cur, src, dst, k ensures
      M.Look(M.Outcome(M.MergeCase(cur, src, dst, dec, true)), k) == M.MergeCase(cur, src, dst, dec, true).Result(k) {
      M.OutcomeIs(M.MergeCase(cur, src, dst, dec, true), k);
    }
  }

  /** Whatever happened since its transaction began, a commit that had to be retried has
      its own value in every key that it changed, if that wins, and keeps what all other
      commits have left in every other key and where it does not win. */
  lemma RetriedCommit(merge: Merge, dec: Value -> M.InodeMeta, before: Root, src: Contents, dst: Contents, after: Root, k: Key)
    requires MergesLocally(merge, dec) && Explained(merge, before, Committed(Merged(src, dst)), after)
    requires M.MergeCase(before.contents, src, dst, dec, true).Valid()
    ensures var c := M.MergeCase(before.contents, src, dst, dec, true);
            && M.Look(after.contents, k) == (if c.Changed(k) && M.Wins(c, k) then M.Look(dst, k) else M.Look(before.contents, k))
            && (c.Changed(k) ==> (M.Look(after.contents, k) == M.Look(dst, k) <==> M.Wins(c, k)))
  {
    hide M.Wins, M.Look;
    M.LocalOwn(M.MergeCase(before.contents, src, dst, dec, true), k);
  }
}
