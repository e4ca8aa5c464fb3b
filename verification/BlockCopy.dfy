/** Copying a block, with all it refers to, from one server to another. */
module BlockCopy {
  import opened Keys

  type Id = Bytes

  type Graph = map<Id, seq<Id>>

  function Refs(g: Graph, b: Id): seq<Id> {
    if b in g then g[b] else []
  }

  ghost predicate Acyclic(g: Graph, rank: Id -> nat) {
    forall b, i :: b in g && 0 <= i < |g[b]| ==> rank(g[b][i]) < rank(b)
  }

  datatype Status = NORMAL | WEAK

  /** What the server says of a block: `missing` lists references of a weak block
      that the server does not have. */
  datatype Answer = Absent | Present(status: Status, missing: seq<Id>)

  /** A block and all that is below it. */
  ghost predicate Reaches(g: Graph, rank: Id -> nat, a: Id, b: Id)
    requires Acyclic(g, rank)
    decreases rank(a)
  {
    a == b || exists i :: 0 <= i < |Refs(g, a)| && Below(g, rank, a, i, b)
  }

  ghost predicate Below(g: Graph, rank: Id -> nat, a: Id, i: nat, b: Id)
    requires Acyclic(g, rank) && i < |Refs(g, a)|
    decreases rank(a), 0
  {
    rank(Refs(g, a)[i]) < rank(a) && Reaches(g, rank, Refs(g, a)[i], b)
  }

  /** The server side of the copy. */
  class Server {
    const graph: Graph
    var blocks: map<Id, Status>

    constructor (g: Graph, bs: map<Id, Status>)
      ensures graph == g && blocks == bs
    {
      graph, blocks := g, bs;
    }

    method GetBlock(id: Id, wantMissing: bool) returns (r: Answer)
      ensures r.Absent? <==> id !in blocks
      ensures id in blocks ==> r.status == blocks[id]
      ensures r.Present? ==> r.missing == if wantMissing && blocks[id].WEAK? then Missing(blocks, Refs(graph, id)) else []
    {
      if id !in blocks {
        return Absent;
      }
      var missing := [];
      if wantMissing && blocks[id].WEAK? {
        var rs := Refs(graph, id);
        for i := 0 to |rs|
          invariant missing == Missing(blocks, rs[..i])
        {
          assert rs[..i + 1][..i] == rs[..i];
          if rs[i] !in blocks {
            missing := missing + [rs[i]];
          }
        }
        assert rs[..|rs|] == rs;
      }
      r := Present(blocks[id], missing);
    }

    /** A block that is there already stays as it is. */
    method StoreBlock(id: Id, status: Status) returns (r: Answer)
      modifies this
      ensures blocks == if id in old(blocks) then old(blocks) else old(blocks)[id := status]
      ensures r.Present? && r.status == blocks[id]
      ensures r.missing == if blocks[id].WEAK? then Missing(blocks, Refs(graph, id)) else []
    {
      if id !in blocks {
        blocks := blocks[id := status];
      }
      r := GetBlock(id, true);
    }

    /** A weak block becomes a normal one if all it refers to is there. */
    method UpgradeBlockNonWeak(id: Id) returns (r: Answer)
      modifies this
      ensures id !in old(blocks) ==> blocks == old(blocks) && r.Absent?
      ensures id in old(blocks) ==>
                && blocks == (if old(blocks)[id].WEAK? && Missing(old(blocks), Refs(graph, id)) == []
                              then old(blocks)[id := NORMAL] else old(blocks))
                && r == Present(blocks[id], if blocks[id].WEAK? then Missing(blocks, Refs(graph, id)) else [])
    {
      if id in blocks && blocks[id].WEAK? {
        var rs := Refs(graph, id);
        var possible := true;
        for i := 0 to |rs|
          invariant possible <==> Missing(blocks, rs[..i]) == []
          invariant blocks == old(blocks)
        {
          assert rs[..i + 1][..i] == rs[..i];
          if rs[i] !in blocks {
            possible := false;
          }
        }
        assert rs[..|rs|] == rs;
        if possible {
          blocks := blocks[id := NORMAL];
        }
      }
      r := GetBlock(id, true);
    }
  }

  function Missing(blocks: map<Id, Status>, rs: seq<Id>): seq<Id> {
    if rs == [] then [] else
    Missing(blocks, rs[..|rs| - 1]) + if rs[|rs| - 1] in blocks then [] else [rs[|rs| - 1]]
  }

  lemma {:induction false} MissingIn(blocks: map<Id, Status>, rs: seq<Id>)
    ensures forall x :: x in Missing(blocks, rs) <==> x in rs && x !in blocks
  {
    if rs != [] {
      MissingIn(blocks, rs[..|rs| - 1]);
      assert rs == rs[..|rs| - 1] + [rs[|rs| - 1]];
    }
  }

  // ----- what a copy keeps and gives

  /** Exactly the blocks that are being copied are weak, and what the others refer
      to is there and is not weak. */
  ghost predicate Sound(g: Graph, blocks: map<Id, Status>, pending: set<Id>) {
    && (forall b :: b in blocks ==> (blocks[b].WEAK? <==> b in pending))
    && (forall b, r :: b in blocks && blocks[b].NORMAL? && r in Refs(g, b) ==> r in blocks && blocks[r].NORMAL?)
  }

  /** Blocks are added, and keep their status. */
  ghost predicate Grown(blocks: map<Id, Status>, blocks': map<Id, Status>) {
    forall b :: b in blocks ==> b in blocks' && blocks'[b] == blocks[b]
  }

  /** The block is on the target, or the source has it and all that it refers to can
      be had in the same way. */
  ghost predicate Obtainable(g: Graph, rank: Id -> nat, source: set<Id>, target: set<Id>, b: Id)
    requires Acyclic(g, rank)
    decreases rank(b), 1
  {
    b in target || (b in source && forall i :: 0 <= i < |Refs(g, b)| ==> RefObtainable(g, rank, source, target, b, i))
  }

  ghost predicate RefObtainable(g: Graph, rank: Id -> nat, source: set<Id>, target: set<Id>, b: Id, i: nat)
    requires Acyclic(g, rank) && i < |Refs(g, b)|
    decreases rank(b), 0
  {
    rank(Refs(g, b)[i]) < rank(b) && Obtainable(g, rank, source, target, Refs(g, b)[i])
  }

  /** What can be had does not change when more of it has been had. */
  lemma {:induction false} ObtainableSame(g: Graph, rank: Id -> nat, source: set<Id>, t: set<Id>, t': set<Id>, b: Id)
    requires Acyclic(g, rank) && t <= t' && forall x :: x in t' ==> Obtainable(g, rank, source, t, x)
    ensures Obtainable(g, rank, source, t, b) <==> Obtainable(g, rank, source, t', b)
    decreases rank(b)
  {
    forall i | 0 <= i < |Refs(g, b)|
      ensures RefObtainable(g, rank, source, t, b, i) <==> RefObtainable(g, rank, source, t', b, i)
    {
      assert rank(Refs(g, b)[i]) < rank(b);
      ObtainableSame(g, rank, source, t, t', Refs(g, b)[i]);
    }
  }

  /** A sound target with no copy going on holds all that a block of it reaches. */
  lemma {:induction false} Closure(g: Graph, rank: Id -> nat, blocks: map<Id, Status>, a: Id, b: Id)
    requires Acyclic(g, rank) && Sound(g, blocks, {}) && a in blocks && Reaches(g, rank, a, b)
    ensures b in blocks && blocks[b].NORMAL?
    decreases rank(a)
  {
    if a != b {
      var i :| 0 <= i < |Refs(g, a)| && Below(g, rank, a, i, b);
      Closure(g, rank, blocks, Refs(g, a)[i], b);
    }
  }

  /** A block does not matter for what can be had of blocks below it. */
  lemma {:induction false} ObtainableBelow(g: Graph, rank: Id -> nat, source: set<Id>, t: set<Id>, a: Id, b: Id)
    requires Acyclic(g, rank) && rank(b) < rank(a)
    ensures Obtainable(g, rank, source, t + {a}, b) <==> Obtainable(g, rank, source, t, b)
    decreases rank(b)
  {
    forall i | 0 <= i < |Refs(g, b)|
      ensures RefObtainable(g, rank, source, t + {a}, b, i) <==> RefObtainable(g, rank, source, t, b, i)
    {
      assert rank(Refs(g, b)[i]) < rank(b);
      ObtainableBelow(g, rank, source, t, a, Refs(g, b)[i]);
    }
  }

  ghost predicate AllObtainable(g: Graph, rank: Id -> nat, source: set<Id>, target: set<Id>, ids: seq<Id>)
    requires Acyclic(g, rank)
  {
    forall x :: x in ids ==> Obtainable(g, rank, source, target, x)
  }

  /** What a successful copy of some blocks has done. */
  ghost predicate Copied(g: Graph, rank: Id -> nat, source: set<Id>, t: map<Id, Status>, t': map<Id, Status>, pending: set<Id>,
                         ids: seq<Id>)
    requires Acyclic(g, rank)
  {
    && Sound(g, t', pending) && Grown(t, t')
    && (forall x :: x in t' ==> Obtainable(g, rank, source, t.Keys, x))
    && (forall x :: x in ids ==> x in t' && t'[x].NORMAL?)
  }

  lemma CopiedNothing(g: Graph, rank: Id -> nat, source: set<Id>, t: map<Id, Status>, pending: set<Id>)
    requires Acyclic(g, rank) && Sound(g, t, pending)
    ensures Copied(g, rank, source, t, t, pending, [])
  {
  }

  lemma CopiedMore(g: Graph, rank: Id -> nat, source: set<Id>, t: map<Id, Status>, t1: map<Id, Status>, t2: map<Id, Status>,
                   pending: set<Id>, ids: seq<Id>, x: Id)
    requires Acyclic(g, rank) && Copied(g, rank, source, t, t1, pending, ids) && Copied(g, rank, source, t1, t2, pending, [x])
    ensures Copied(g, rank, source, t, t2, pending, ids + [x])
  {
    forall y | y in t2 ensures Obtainable(g, rank, source, t.Keys, y) {
      ObtainableSame(g, rank, source, t.Keys, t1.Keys, y);
    }
    assert x in [x];
  }

  /** Makes the target hold a block, non-weak, with all that it refers to.  Blocks
      in `pending` are being copied further up. */
  method CopyBlockTo(source: Server, target: Server, bid: Id, ghost rank: Id -> nat, ghost pending: set<Id>)
    returns (ok: bool)
    requires source != target && source.graph == target.graph && Acyclic(target.graph, rank)
    requires forall p :: p in pending ==> rank(p) > rank(bid)
    modifies target
    ensures old(target.blocks).Keys <= target.blocks.Keys && (ok ==> bid in target.blocks)
    ensures Sound(target.graph, old(target.blocks), pending) ==>
              && (ok <==> Obtainable(target.graph, rank, source.blocks.Keys, old(target.blocks).Keys, bid))
              && (ok ==> Copied(target.graph, rank, source.blocks.Keys, old(target.blocks), target.blocks, pending, [bid]))
    decreases rank(bid), 2
  {
    hide Obtainable, Sound;
    ghost var g, s, t := target.graph, source.blocks.Keys, target.blocks;
    var b := target.GetBlock(bid, true);
    if b.Absent? {
      var fb := source.GetBlock(bid, false);
      if fb.Absent? {
        NotObtainable(g, rank, s, t.Keys, bid);
        return false;
      }
      b := target.StoreBlock(bid, WEAK);
      ghost var t1 := target.blocks;
      ok := UpgradeBlock(source, target, bid, b, rank, pending);
      if Sound(g, t, pending) {
        StoredWeak(g, rank, s, t, t1, target.blocks, pending, bid, ok);
      }
    } else {
      ok := UpgradeBlock(source, target, bid, b, rank, pending);
      if Sound(g, t, pending) {
        AlreadyThere(g, rank, s, t, pending, bid);
      }
    }
  }

  lemma NotObtainable(g: Graph, rank: Id -> nat, source: set<Id>, target: set<Id>, b: Id)
    requires Acyclic(g, rank) && b !in source && b !in target
    ensures !Obtainable(g, rank, source, target, b)
  {
  }

  /** Copies what a weak block misses until it can be upgraded. */
  method UpgradeBlock(source: Server, target: Server, bid: Id, b0: Answer, ghost rank: Id -> nat, ghost pending: set<Id>)
    returns (ok: bool)
    requires source != target && source.graph == target.graph && Acyclic(target.graph, rank)
    requires forall p :: p in pending ==> rank(p) > rank(bid)
    requires bid in target.blocks
    requires b0 == Present(target.blocks[bid], if target.blocks[bid].WEAK? then Missing(target.blocks, Refs(target.graph, bid)) else [])
    modifies target
    ensures old(target.blocks).Keys <= target.blocks.Keys
    ensures old(target.blocks)[bid].NORMAL? ==> ok && target.blocks == old(target.blocks)
    ensures old(target.blocks)[bid].WEAK? && Sound(target.graph, old(target.blocks), pending + {bid}) ==>
              Upgraded(target.graph, rank, source.blocks.Keys, old(target.blocks), target.blocks, pending, bid, ok)
    decreases rank(bid), 1
  {
    hide Obtainable, Sound;
    var b, done := b0, false;
    ok := true;
    while !done
      invariant ok && (!done ==> b == b0 && target.blocks == old(target.blocks))
      invariant old(target.blocks).Keys <= target.blocks.Keys
      invariant done && old(target.blocks)[bid].NORMAL? ==> target.blocks == old(target.blocks)
      invariant done && old(target.blocks)[bid].WEAK? && Sound(target.graph, old(target.blocks), pending + {bid}) ==>
                  Upgraded(target.graph, rank, source.blocks.Keys, old(target.blocks), target.blocks, pending, bid, true)
      decreases !done
    {
      ghost var t := target.blocks;
      MissingIn(t, Refs(target.graph, bid));
      ok := CopyMissing(source, target, bid, b.missing, rank, pending);
      if !ok {
        if Sound(target.graph, t, pending + {bid}) {
          UpgradeFails(target.graph, rank, source.blocks.Keys, t, target.blocks, pending, bid);
        }
        return;
      }
      ghost var t1 := target.blocks;
      if t[bid].WEAK? {
        NoneMissing(t, t1, Refs(target.graph, bid));
      }
      b := target.UpgradeBlockNonWeak(bid);
      if t[bid].WEAK? && Sound(target.graph, t, pending + {bid}) {
        UpgradeWorks(target.graph, rank, source.blocks.Keys, t, t1, target.blocks, pending, bid);
      }
      if b.missing == [] {
        done := true;
      }
    }
  }

  /** Copies some references of a block; all of them are tried. */
  method CopyMissing(source: Server, target: Server, bid: Id, missing: seq<Id>, ghost rank: Id -> nat, ghost pending: set<Id>)
    returns (ok: bool)
    requires source != target && source.graph == target.graph && Acyclic(target.graph, rank)
    requires (forall p :: p in pending ==> rank(p) > rank(bid)) && forall m :: m in missing ==> m in Refs(target.graph, bid)
    modifies target
    ensures old(target.blocks).Keys <= target.blocks.Keys && (ok ==> forall m :: m in missing ==> m in target.blocks)
    ensures missing == [] ==> ok && target.blocks == old(target.blocks)
    ensures Sound(target.graph, old(target.blocks), pending + {bid}) ==>
              && (ok <==> AllObtainable(target.graph, rank, source.blocks.Keys, old(target.blocks).Keys, missing))
              && (ok ==> Copied(target.graph, rank, source.blocks.Keys, old(target.blocks), target.blocks, pending + {bid}, missing))
    decreases rank(bid), 0
  {
    hide Obtainable, Sound, Copied;
    ghost var g, s, t := target.graph, source.blocks.Keys, target.blocks;
    ghost var sound := Sound(g, t, pending + {bid});
    ok := true;
    if sound {
      CopiedNothing(g, rank, s, t, pending + {bid});
    }
    assert missing[..|missing|] == missing;
    for i := 0 to |missing|
      invariant t.Keys <= target.blocks.Keys && (ok ==> forall j :: 0 <= j < i ==> missing[j] in target.blocks)
      invariant i == 0 ==> ok && target.blocks == t
      invariant sound ==> (ok <==> AllObtainable(g, rank, s, t.Keys, missing[..i]))
      invariant sound && ok ==> Copied(g, rank, s, t, target.blocks, pending + {bid}, missing[..i])
    {
      ghost var t1 := target.blocks;
      RefBelow(g, rank, bid, missing[i]);
      var one := CopyBlockTo(source, target, missing[i], rank, pending + {bid});
      if sound && ok {
        CopyNext(g, rank, s, t, t1, target.blocks, pending + {bid}, missing, i, one);
      }
      NextObtainable(g, rank, s, t.Keys, missing, i);
      ok := ok && one;
    }
  }

  lemma RefBelow(g: Graph, rank: Id -> nat, b: Id, r: Id)
    requires Acyclic(g, rank) && r in Refs(g, b)
    ensures rank(r) < rank(b)
  {
  }

  lemma NextObtainable(g: Graph, rank: Id -> nat, source: set<Id>, target: set<Id>, ids: seq<Id>, i: nat)
    requires Acyclic(g, rank) && i < |ids|
    ensures AllObtainable(g, rank, source, target, ids[..i + 1])
       <==> AllObtainable(g, rank, source, target, ids[..i]) && Obtainable(g, rank, source, target, ids[i])
  {
    hide Obtainable;
    assert ids[..i + 1] == ids[..i] + [ids[i]];
  }

  lemma CopyNext(g: Graph, rank: Id -> nat, source: set<Id>, t: map<Id, Status>, t1: map<Id, Status>, t2: map<Id, Status>,
                 pending: set<Id>, ids: seq<Id>, i: nat, one: bool)
    requires Acyclic(g, rank) && i < |ids| && Copied(g, rank, source, t, t1, pending, ids[..i])
    requires Sound(g, t1, pending) ==>
               && (one <==> Obtainable(g, rank, source, t1.Keys, ids[i]))
               && (one ==> Copied(g, rank, source, t1, t2, pending, [ids[i]]))
    ensures one <==> Obtainable(g, rank, source, t.Keys, ids[i])
    ensures one ==> Copied(g, rank, source, t, t2, pending, ids[..i + 1])
  {
    hide Obtainable, Sound;
    assert t.Keys <= t1.Keys;
    ObtainableSame(g, rank, source, t.Keys, t1.Keys, ids[i]);
    if one {
      CopiedMore(g, rank, source, t, t1, t2, pending, ids[..i], ids[i]);
      assert ids[..i + 1] == ids[..i] + [ids[i]];
    }
  }

  lemma NoneMissing(t: map<Id, Status>, t1: map<Id, Status>, rs: seq<Id>)
    requires t.Keys <= t1.Keys && forall m :: m in Missing(t, rs) ==> m in t1
    ensures Missing(t1, rs) == []
  {
    hide Missing;
    MissingIn(t, rs);
    MissingIn(t1, rs);
    assert Missing(t1, rs) != [] ==> Missing(t1, rs)[0] in Missing(t1, rs);
  }

  /** What an upgrade of a weak block has done. */
  ghost predicate Upgraded(g: Graph, rank: Id -> nat, source: set<Id>, t: map<Id, Status>, t': map<Id, Status>,
                           pending: set<Id>, bid: Id, ok: bool)
    requires Acyclic(g, rank)
  {
    && (ok <==> AllObtainable(g, rank, source, t.Keys, Refs(g, bid)))
    && (ok ==>
          && Sound(g, t', pending) && bid in t' && t'[bid].NORMAL?
          && (forall x :: x in t && x != bid ==> x in t' && t'[x] == t[x])
          && forall x :: x in t' ==> Obtainable(g, rank, source, t.Keys, x))
  }

  lemma UpgradeFails(g: Graph, rank: Id -> nat, source: set<Id>, t: map<Id, Status>, t': map<Id, Status>, pending: set<Id>,
                     bid: Id)
    requires Acyclic(g, rank) && !AllObtainable(g, rank, source, t.Keys, Missing(t, Refs(g, bid)))
    ensures Upgraded(g, rank, source, t, t', pending, bid, false)
  {
    hide Obtainable, Missing;
    MissingIn(t, Refs(g, bid));
  }

  lemma UpgradeWorks(g: Graph, rank: Id -> nat, source: set<Id>, t: map<Id, Status>, t1: map<Id, Status>,
                     t2: map<Id, Status>, pending: set<Id>, bid: Id)
    requires Acyclic(g, rank) && bid in t && t[bid].WEAK? && (forall p :: p in pending ==> rank(p) > rank(bid))
    requires Sound(g, t, pending + {bid})
    requires AllObtainable(g, rank, source, t.Keys, Missing(t, Refs(g, bid)))
    requires Copied(g, rank, source, t, t1, pending + {bid}, Missing(t, Refs(g, bid))) && t2 == t1[bid := NORMAL]
    ensures Upgraded(g, rank, source, t, t2, pending, bid, true)
  {
    hide Obtainable, Missing;
    MissingIn(t, Refs(g, bid));
    forall r | r in Refs(g, bid) ensures Obtainable(g, rank, source, t.Keys, r) && r in t1 && t1[r].NORMAL? {
      RefBelow(g, rank, bid, r);
      if r in t {
        ThereIsObtainable(g, rank, source, t.Keys, r);
      }
    }
  }

  lemma ThereIsObtainable(g: Graph, rank: Id -> nat, source: set<Id>, target: set<Id>, b: Id)
    requires Acyclic(g, rank) && b in target
    ensures Obtainable(g, rank, source, target, b)
  {
  }

  lemma AlreadyThere(g: Graph, rank: Id -> nat, source: set<Id>, t: map<Id, Status>, pending: set<Id>, bid: Id)
    requires Acyclic(g, rank) && Sound(g, t, pending) && bid in t && (forall p :: p in pending ==> rank(p) > rank(bid))
    ensures t[bid].NORMAL? && Obtainable(g, rank, source, t.Keys, bid)
    ensures Copied(g, rank, source, t, t, pending, [bid])
  {
  }

  lemma StoredWeak(g: Graph, rank: Id -> nat, source: set<Id>, t: map<Id, Status>, t1: map<Id, Status>, t2: map<Id, Status>,
                   pending: set<Id>, bid: Id, ok: bool)
    requires Acyclic(g, rank) && Sound(g, t, pending) && bid !in t && bid in source && t1 == t[bid := WEAK]
    requires forall p :: p in pending ==> rank(p) > rank(bid)
    requires Sound(g, t1, pending + {bid}) ==> Upgraded(g, rank, source, t1, t2, pending, bid, ok)
    ensures ok <==> Obtainable(g, rank, source, t.Keys, bid)
    ensures ok ==> Copied(g, rank, source, t, t2, pending, [bid])
  {
    assert Sound(g, t1, pending + {bid});
    assert t1.Keys == t.Keys + {bid};
    StoredObtainable(g, rank, source, t.Keys, bid);
    hide Obtainable;
    if ok {
      forall x | x in t1.Keys ensures Obtainable(g, rank, source, t.Keys, x) {
        if x != bid {
          ThereIsObtainable(g, rank, source, t.Keys, x);
        }
      }
      forall x | x in t2 ensures Obtainable(g, rank, source, t.Keys, x) {
        ObtainableSame(g, rank, source, t.Keys, t1.Keys, x);
      }
    }
  }

  lemma StoredObtainable(g: Graph, rank: Id -> nat, source: set<Id>, target: set<Id>, bid: Id)
    requires Acyclic(g, rank) && bid !in target && bid in source
    ensures Obtainable(g, rank, source, target, bid) <==> AllObtainable(g, rank, source, target + {bid}, Refs(g, bid))
  {
    var rs := Refs(g, bid);
    forall i | 0 <= i < |rs|
      ensures RefObtainable(g, rank, source, target, bid, i) <==> Obtainable(g, rank, source, target + {bid}, rs[i])
    {
      RefBelow(g, rank, bid, rs[i]);
      ObtainableBelow(g, rank, source, target, bid, rs[i]);
    }
  }

  /** The copy as it is asked for: it succeeds exactly when all that the target does
      not have can be had from the source, and then the target holds the block and
      everything below it, non-weak. */
  method CopyRoot(source: Server, target: Server, bid: Id, ghost rank: Id -> nat) returns (ok: bool)
    requires source != target && source.graph == target.graph && Acyclic(target.graph, rank)
    requires Sound(target.graph, target.blocks, {})
    modifies target
    ensures ok <==> Obtainable(target.graph, rank, source.blocks.Keys, old(target.blocks).Keys, bid)
    ensures ok ==> Sound(target.graph, target.blocks, {}) && Grown(old(target.blocks), target.blocks)
    ensures ok ==> forall x :: Reaches(target.graph, rank, bid, x) ==> x in target.blocks && target.blocks[x].NORMAL?
  {
    hide Obtainable, Reaches, Sound;
    ok := CopyBlockTo(source, target, bid, rank, {});
    if ok {
      forall x | Reaches(target.graph, rank, bid, x) ensures x in target.blocks && target.blocks[x].NORMAL? {
        Closure(target.graph, rank, target.blocks, bid, x);
      }
    }
  }
}
