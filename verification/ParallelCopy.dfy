/** Copying blocks between servers in parallel: all missing references of a block
    are copied at the same time.

    A step is what one copy does in one request, or in one part of a request that
    storage handles at once.  Steps of all the copies under way may come in any
    order that their guards allow. */
module ParallelCopy {
  import opened Keys
  import opened BlockCopy

  /** Where a copy is: it looks for the block at the target, fetches it from the
      source, stores it as weak, asks what is missing, and waits for the copies of
      that, which have the numbers below `to` that start with `from`. */
  datatype Phase = Look | Fetch | Store | Ask | Wait(from: nat, to: nat) | Done | Failed

  datatype Task = Task(bid: Id, parent: Option<nat>, phase: Phase)

  type Tasks = map<nat, Task>

  predicate Finished(p: Phase) {
    p.Done? || p.Failed?
  }

  /** Whether a copy has not heard yet what is missing. */
  predicate Early(p: Phase) {
    p.Look? || p.Fetch? || p.Store? || p.Ask?
  }

  /** All that is fixed when a copy starts: `first` is what the target has then. */
  datatype Copying = Copying(graph: Graph, source: set<Id>, first: map<Id, Status>)

  /** What the target has, and the copies under way or finished. */
  datatype State = State(blocks: map<Id, Status>, tasks: Tasks, nextId: nat)

  function Start(c: Copying, bid: Id): State {
    State(c.first, map[0 := Task(bid, None, Look)], 1)
  }

  function Enter(ts: Tasks, id: nat, p: Phase): Tasks
    requires id in ts
  {
    ts[id := ts[id].(phase := p)]
  }

  // ----- the steps

  /** Looks whether the target has the block. */
  function LookUp(s: State, id: nat): State
    requires id in s.tasks && s.tasks[id].phase.Look?
  {
    s.(tasks := Enter(s.tasks, id, if s.tasks[id].bid in s.blocks then Ask else Fetch))
  }

  /** Asks the source for the block. */
  function FetchBlock(c: Copying, s: State, id: nat): State
    requires id in s.tasks && s.tasks[id].phase.Fetch?
  {
    s.(tasks := Enter(s.tasks, id, if s.tasks[id].bid in c.source then Store else Failed))
  }

  /** Stores the block as weak, unless another copy has been faster. */
  function StoreBlock(s: State, id: nat): State
    requires id in s.tasks && s.tasks[id].phase.Store?
  {
    var b := s.tasks[id].bid;
    s.(blocks := if b in s.blocks then s.blocks else s.blocks[b := WEAK], tasks := Enter(s.tasks, id, Ask))
  }

  /** The answer of the target lists references of the block.  It may be out of date: a
      reference in it may be there by now, but one that is not there is in it.  Only a
      block that was found weak has an answer that is not empty. */
  ghost predicate MayAnswer(c: Copying, s: State, id: nat, ms: seq<Id>)
    requires id in s.tasks
  {
    var b := s.tasks[id].bid;
    && |ms| <= |Refs(c.graph, b)| && (forall m :: m in ms ==> m in Refs(c.graph, b))
    && (b in s.blocks && s.blocks[b].WEAK? ==> forall r :: r in Refs(c.graph, b) && r !in s.blocks ==> r in ms)
    && (ms != [] ==> b !in c.first)
  }

  /** Copies of `ms`, started by `id`, with numbers that start with `n`. */
  function Add(ts: Tasks, n: nat, id: nat, ms: seq<Id>): Tasks {
    if ms == [] then ts
    else Add(ts, n, id, ms[..|ms| - 1])[n + |ms| - 1 := Task(ms[|ms| - 1], Some(id), Look)]
  }

  /** Starts a copy of everything in the answer, and waits. */
  function Spawn(s: State, id: nat, ms: seq<Id>): State
    requires id in s.tasks && s.tasks[id].phase.Ask?
  {
    s.(tasks := Add(Enter(s.tasks, id, Wait(s.nextId, s.nextId + |ms|)), s.nextId, id, ms), nextId := s.nextId + |ms|)
  }

  predicate AllFinished(ts: Tasks, from: nat, to: nat) {
    forall x :: from <= x < to ==> x in ts && Finished(ts[x].phase)
  }

  predicate AnyFailed(ts: Tasks, from: nat, to: nat) {
    exists x :: from <= x < to && x in ts && ts[x].phase.Failed?
  }

  predicate HasAll(c: Copying, s: State, b: Id) {
    forall i :: 0 <= i < |Refs(c.graph, b)| ==> Refs(c.graph, b)[i] in s.blocks
  }

  /** Once all these copies are finished, makes the block a normal one, which works
      if what it refers to is there; otherwise asks again. */
  function Upgrade(c: Copying, s: State, id: nat): State
    requires id in s.tasks && s.tasks[id].phase.Wait?
  {
    var b := s.tasks[id].bid;
    if AnyFailed(s.tasks, s.tasks[id].phase.from, s.tasks[id].phase.to) then s.(tasks := Enter(s.tasks, id, Failed))
    else if HasAll(c, s, b) then s.(blocks := s.blocks[b := NORMAL], tasks := Enter(s.tasks, id, Done))
    else s.(tasks := Enter(s.tasks, id, Ask))
  }

  /** One step of copy `id`. */
  ghost predicate Step(c: Copying, s: State, id: nat, s': State) {
    && id in s.tasks
    && match s.tasks[id].phase
       case Look => s' == LookUp(s, id)
       case Fetch => s' == FetchBlock(c, s, id)
       case Store => s' == StoreBlock(s, id)
       case Ask => exists ms :: MayAnswer(c, s, id, ms) && s' == Spawn(s, id, ms)
       case Wait(from, to) => AllFinished(s.tasks, from, to) && s' == Upgrade(c, s, id)
       case _ => false
  }

  // ----- what every step keeps

  /** A copy was started by another one for a reference of its block, and that one
      ends after it. */
  ghost predicate Started(c: Copying, ts: Tasks, id: nat)
    requires id in ts
  {
    && ts[id].parent.Some? && ts[id].parent.value in ts && ts[id].parent.value < id
    && var p := ts[ts[id].parent.value];
       && ts[id].bid in Refs(c.graph, p.bid) && p.bid !in c.first && !Early(p.phase)
       && (p.phase.Done? ==> ts[id].phase.Done?)
       && (p.phase.Wait? ==> p.phase.from <= id < p.phase.to)
  }

  ghost predicate Parents(c: Copying, s: State) {
    && 0 in s.tasks && s.tasks[0].parent.None? && s.nextId > 0
    && (forall id :: id in s.tasks ==> id < s.nextId)
    && forall id {:trigger Started(c, s.tasks, id)} :: id in s.tasks && id != 0 ==> Started(c, s.tasks, id)
  }

  /** Every reference is there, or a copy of it has been started. */
  ghost predicate Covered(c: Copying, s: State, id: nat, from: nat, to: nat)
    requires id in s.tasks
  {
    && id < from <= to && (forall x :: from <= x < to ==> x in s.tasks && s.tasks[x].bid in Refs(c.graph, s.tasks[id].bid))
    && forall r :: r in Refs(c.graph, s.tasks[id].bid) ==> r in s.blocks || CopyOf(s.tasks, from, to, r)
  }

  ghost predicate CopyOf(ts: Tasks, from: nat, to: nat, r: Id) {
    exists x :: from <= x < to && x in ts && ts[x].bid == r
  }

  /** What the phase of a copy says about its block. */
  ghost predicate Sane(c: Copying, rank: Id -> nat, s: State, id: nat)
    requires id in s.tasks && Acyclic(c.graph, rank)
  {
    var k := s.tasks[id];
    match k.phase
    case Look => true
    case Fetch => k.bid !in c.first
    case Store => k.bid !in c.first && k.bid in c.source
    case Ask => k.bid in s.blocks
    case Wait(from, to) => k.bid in s.blocks && Covered(c, s, id, from, to) && (from < to ==> k.bid !in c.first)
    case Done => k.bid in s.blocks && s.blocks[k.bid].NORMAL?
    case Failed => !Obtainable(c.graph, rank, c.source, c.first.Keys, k.bid)
  }

  /** A weak block is being copied, or could not be. */
  ghost predicate Pending(ts: Tasks, b: Id) {
    exists id :: id in ts && ts[id].bid == b && (ts[id].phase.Ask? || ts[id].phase.Wait? || ts[id].phase.Failed?)
  }

  ghost predicate Target(c: Copying, s: State) {
    && s.blocks.Keys <= c.first.Keys + c.source
    && (forall b :: b in c.first ==> b in s.blocks && s.blocks[b].NORMAL?)
    && (forall b, r :: b in s.blocks && s.blocks[b].NORMAL? && r in Refs(c.graph, b) ==> r in s.blocks)
    && (forall b :: b in s.blocks && s.blocks[b].WEAK? ==> Pending(s.tasks, b))
  }

  ghost predicate AllSane(c: Copying, rank: Id -> nat, s: State)
    requires Acyclic(c.graph, rank)
  {
    forall id {:trigger Sane(c, rank, s, id)} :: id in s.tasks ==> Sane(c, rank, s, id)
  }

  ghost predicate Valid(c: Copying, rank: Id -> nat, s: State) {
    && Acyclic(c.graph, rank) && Sound(c.graph, c.first, {})
    && Parents(c, s) && Target(c, s) && AllSane(c, rank, s)
  }

  lemma StartValid(c: Copying, rank: Id -> nat, bid: Id)
    requires Acyclic(c.graph, rank) && Sound(c.graph, c.first, {})
    ensures Valid(c, rank, Start(c, bid))
  {
  }

  // ----- a copy enters another phase

  /** Blocks and copies are added; normal blocks stay normal. */
  ghost predicate Later(s: State, s': State) {
    && (forall b :: b in s.blocks ==> b in s'.blocks && (s.blocks[b].NORMAL? ==> s'.blocks[b].NORMAL?))
    && (forall x :: x in s.tasks ==> x in s'.tasks && s'.tasks[x].bid == s.tasks[x].bid)
  }

  lemma SaneKept(c: Copying, rank: Id -> nat, s: State, s': State, x: nat)
    requires Acyclic(c.graph, rank) && Later(s, s') && x in s.tasks && Sane(c, rank, s, x)
    requires s'.tasks[x] == s.tasks[x]
    ensures Sane(c, rank, s', x)
  {
    hide Obtainable;
    if s.tasks[x].phase.Wait? {
      var from, to := s.tasks[x].phase.from, s.tasks[x].phase.to;
      forall r | r in Refs(c.graph, s.tasks[x].bid) ensures r in s'.blocks || CopyOf(s'.tasks, from, to, r) {
        if r !in s.blocks {
          assert CopyOf(s.tasks, from, to, r);
          var y :| from <= y < to && y in s.tasks && s.tasks[y].bid == r;
          assert y in s'.tasks && s'.tasks[y].bid == r;
        }
      }
    }
  }

  /** All copies but one are as they were. */
  lemma AllSaneKept(c: Copying, rank: Id -> nat, s: State, s': State, id: nat)
    requires Acyclic(c.graph, rank) && AllSane(c, rank, s) && Later(s, s') && id in s.tasks && s'.tasks.Keys == s.tasks.Keys
    requires forall x :: x in s.tasks && x != id ==> s'.tasks[x] == s.tasks[x]
    requires Sane(c, rank, s', id)
    ensures AllSane(c, rank, s')
  {
    hide Sane, Later;
    forall x | x in s'.tasks ensures Sane(c, rank, s', x) {
      if x != id {
        assert Sane(c, rank, s, x);
        SaneKept(c, rank, s, s', x);
      }
    }
  }

  /** A copy goes on to another early phase, or ends, once those that it started have
      ended well or it has failed. */
  lemma ParentsEnter(c: Copying, s: State, id: nat, p: Phase)
    requires Parents(c, s) && id in s.tasks && !Finished(s.tasks[id].phase)
    requires if Early(s.tasks[id].phase) then Early(p) || p.Failed? else Finished(p)
    requires p.Done? ==> forall x :: x in s.tasks && s.tasks[x].parent == Some(id) ==> s.tasks[x].phase.Done?
    ensures Parents(c, s.(tasks := Enter(s.tasks, id, p)))
  {
    var ts' := Enter(s.tasks, id, p);
    forall x | x in ts' && x != 0 ensures Started(c, ts', x) {
      assert Started(c, s.tasks, x);
    }
  }

  lemma PendingKept(c: Copying, s: State, id: nat, p: Phase)
    requires Target(c, s) && id in s.tasks
    requires s.tasks[id].phase.Ask? || s.tasks[id].phase.Wait? ==> p.Ask? || p.Wait? || p.Failed?
    requires !s.tasks[id].phase.Failed?
    ensures Target(c, s.(tasks := Enter(s.tasks, id, p)))
  {
    var ts' := Enter(s.tasks, id, p);
    forall b | b in s.blocks && s.blocks[b].WEAK? ensures Pending(ts', b) {
      assert Pending(s.tasks, b);
      var x :| x in s.tasks && s.tasks[x].bid == b
               && (s.tasks[x].phase.Ask? || s.tasks[x].phase.Wait? || s.tasks[x].phase.Failed?);
      assert x in ts' && ts'[x].bid == b;
    }
  }

  lemma LookKeeps(c: Copying, rank: Id -> nat, s: State, id: nat)
    requires Valid(c, rank, s) && id in s.tasks && s.tasks[id].phase.Look?
    ensures Valid(c, rank, LookUp(s, id))
  {
    hide Started, Parents, Acyclic, Sound;
    var p := if s.tasks[id].bid in s.blocks then Ask else Fetch;
    ParentsEnter(c, s, id, p);
    PendingKept(c, s, id, p);
    AllSaneKept(c, rank, s, LookUp(s, id), id);
  }

  lemma FetchKeeps(c: Copying, rank: Id -> nat, s: State, id: nat)
    requires Valid(c, rank, s) && id in s.tasks && s.tasks[id].phase.Fetch?
    ensures Valid(c, rank, FetchBlock(c, s, id))
  {
    hide Started, Parents, Acyclic, Sound, Obtainable;
    var b := s.tasks[id].bid;
    assert Sane(c, rank, s, id);
    var p := if b in c.source then Store else Failed;
    if b !in c.source {
      NotObtainable(c.graph, rank, c.source, c.first.Keys, b);
    }
    ParentsEnter(c, s, id, p);
    PendingKept(c, s, id, p);
    AllSaneKept(c, rank, s, FetchBlock(c, s, id), id);
  }

  lemma StoreKeeps(c: Copying, rank: Id -> nat, s: State, id: nat)
    requires Valid(c, rank, s) && id in s.tasks && s.tasks[id].phase.Store?
    ensures Valid(c, rank, StoreBlock(s, id))
  {
    hide Started, Parents, Acyclic, Sound, Obtainable;
    var s' := StoreBlock(s, id);
    assert Sane(c, rank, s, id);
    ParentsEnter(c, s, id, Ask);
    ParentsSame(c, s.(tasks := Enter(s.tasks, id, Ask)), s');
    PendingKept(c, s, id, Ask);
    assert s'.tasks[id].bid == s.tasks[id].bid;
    assert Pending(s'.tasks, s.tasks[id].bid);
    AllSaneKept(c, rank, s, s', id);
  }

  lemma ParentsSame(c: Copying, s: State, s': State)
    requires Parents(c, s) && s'.tasks == s.tasks && s'.nextId == s.nextId
    ensures Parents(c, s')
  {
  }

  // ----- starting copies

  lemma {:induction false} AddAt(ts: Tasks, n: nat, id: nat, ms: seq<Id>)
    requires forall x :: x in ts ==> x < n
    ensures var ts' := Add(ts, n, id, ms);
            && (forall x :: x in ts' <==> x in ts || n <= x < n + |ms|)
            && (forall x :: x in ts ==> ts'[x] == ts[x])
            && forall x :: n <= x < n + |ms| ==> ts'[x] == Task(ms[x - n], Some(id), Look)
    decreases |ms|
  {
    if ms != [] {
      AddAt(ts, n, id, ms[..|ms| - 1]);
    }
  }

  lemma SpawnParents(c: Copying, s: State, id: nat, ms: seq<Id>)
    requires Parents(c, s) && id in s.tasks && s.tasks[id].phase.Ask? && MayAnswer(c, s, id, ms)
    ensures Parents(c, Spawn(s, id, ms))
  {
    hide Add;
    var n := s.nextId;
    var ts := Enter(s.tasks, id, Wait(n, n + |ms|));
    var s' := Spawn(s, id, ms);
    AddAt(ts, n, id, ms);
    forall x | x in s'.tasks && x != 0 ensures Started(c, s'.tasks, x) {
      if x in ts {
        assert Started(c, s.tasks, x);
      }
    }
  }

  lemma SpawnTarget(c: Copying, s: State, id: nat, ms: seq<Id>)
    requires Parents(c, s) && Target(c, s) && id in s.tasks && s.tasks[id].phase.Ask?
    ensures Target(c, Spawn(s, id, ms))
  {
    hide Add, Started;
    var n := s.nextId;
    var ts := Enter(s.tasks, id, Wait(n, n + |ms|));
    AddAt(ts, n, id, ms);
    PendingKept(c, s, id, Wait(n, n + |ms|));
    var s' := Spawn(s, id, ms);
    forall b | b in s.blocks && s.blocks[b].WEAK? ensures Pending(s'.tasks, b) {
      assert Pending(ts, b);
      var x :| x in ts && ts[x].bid == b && (ts[x].phase.Ask? || ts[x].phase.Wait? || ts[x].phase.Failed?);
      assert x in s'.tasks && s'.tasks[x] == ts[x];
    }
  }

  lemma SpawnCovered(c: Copying, s: State, id: nat, ms: seq<Id>)
    requires Parents(c, s) && Target(c, s) && id in s.tasks && s.tasks[id].phase.Ask? && s.tasks[id].bid in s.blocks
    requires MayAnswer(c, s, id, ms)
    ensures id in Spawn(s, id, ms).tasks && Covered(c, Spawn(s, id, ms), id, s.nextId, s.nextId + |ms|)
    ensures Spawn(s, id, ms).tasks[id] == s.tasks[id].(phase := Wait(s.nextId, s.nextId + |ms|))
  {
    hide Add, Started;
    var n := s.nextId;
    AddAt(Enter(s.tasks, id, Wait(n, n + |ms|)), n, id, ms);
    var s' := Spawn(s, id, ms);
    var b := s.tasks[id].bid;
    forall r | r in Refs(c.graph, b) && r !in s.blocks ensures CopyOf(s'.tasks, n, n + |ms|, r) {
      assert r in ms;
      var i :| 0 <= i < |ms| && ms[i] == r;
      assert n + i in s'.tasks && s'.tasks[n + i].bid == r;
    }
  }

  lemma SpawnKeeps(c: Copying, rank: Id -> nat, s: State, id: nat, ms: seq<Id>)
    requires Valid(c, rank, s) && id in s.tasks && s.tasks[id].phase.Ask? && MayAnswer(c, s, id, ms)
    ensures Valid(c, rank, Spawn(s, id, ms))
  {
    hide Started, Acyclic, Sound, Obtainable, Add, Target, Covered;
    var n, s' := s.nextId, Spawn(s, id, ms);
    assert Sane(c, rank, s, id);
    SpawnParents(c, s, id, ms);
    SpawnTarget(c, s, id, ms);
    SpawnCovered(c, s, id, ms);
    AddAt(Enter(s.tasks, id, Wait(n, n + |ms|)), n, id, ms);
    hide MayAnswer, Parents;
    forall x | x in s'.tasks ensures Sane(c, rank, s', x) {
      if x in s.tasks && x != id {
        assert Sane(c, rank, s, x);
        SaneKept(c, rank, s, s', x);
      }
    }
  }

  // ----- making a block normal

  /** Once the copies that a copy waits for are done, all references are there. */
  lemma AllThere(c: Copying, rank: Id -> nat, s: State, id: nat)
    requires Valid(c, rank, s) && id in s.tasks && s.tasks[id].phase.Wait?
    requires var p := s.tasks[id].phase; AllFinished(s.tasks, p.from, p.to) && !AnyFailed(s.tasks, p.from, p.to)
    ensures HasAll(c, s, s.tasks[id].bid)
  {
    hide Started, Acyclic, Sound, Obtainable, Target, Parents;
    var p, b := s.tasks[id].phase, s.tasks[id].bid;
    assert Sane(c, rank, s, id);
    forall r | r in Refs(c.graph, b) ensures r in s.blocks {
      if CopyOf(s.tasks, p.from, p.to, r) {
        var x :| p.from <= x < p.to && x in s.tasks && s.tasks[x].bid == r;
        assert Sane(c, rank, s, x);
      }
    }
  }

  /** A block cannot be obtained if a reference of it cannot. */
  lemma RefNotObtainable(g: Graph, rank: Id -> nat, source: set<Id>, target: set<Id>, b: Id, r: Id)
    requires Acyclic(g, rank) && b !in target && r in Refs(g, b) && !Obtainable(g, rank, source, target, r)
    ensures !Obtainable(g, rank, source, target, b)
  {
    var i :| 0 <= i < |Refs(g, b)| && Refs(g, b)[i] == r;
    assert !RefObtainable(g, rank, source, target, b, i);
  }

  lemma FailKeeps(c: Copying, rank: Id -> nat, s: State, id: nat)
    requires Valid(c, rank, s) && id in s.tasks && s.tasks[id].phase.Wait?
    requires AnyFailed(s.tasks, s.tasks[id].phase.from, s.tasks[id].phase.to)
    ensures Valid(c, rank, s.(tasks := Enter(s.tasks, id, Failed)))
  {
    hide Started, Acyclic, Sound, Obtainable, Target, Parents;
    var p, b := s.tasks[id].phase, s.tasks[id].bid;
    assert Sane(c, rank, s, id);
    var x :| p.from <= x < p.to && x in s.tasks && s.tasks[x].phase.Failed?;
    assert Sane(c, rank, s, x);
    RefNotObtainable(c.graph, rank, c.source, c.first.Keys, b, s.tasks[x].bid);
    ParentsEnter(c, s, id, Failed);
    PendingKept(c, s, id, Failed);
    AllSaneKept(c, rank, s, s.(tasks := Enter(s.tasks, id, Failed)), id);
  }

  lemma DoneTarget(c: Copying, s: State, id: nat)
    requires Target(c, s) && id in s.tasks && s.tasks[id].phase.Wait? && s.tasks[id].bid in s.blocks
    requires HasAll(c, s, s.tasks[id].bid)
    ensures Target(c, s.(blocks := s.blocks[s.tasks[id].bid := NORMAL], tasks := Enter(s.tasks, id, Done)))
  {
    var b := s.tasks[id].bid;
    var s' := s.(blocks := s.blocks[b := NORMAL], tasks := Enter(s.tasks, id, Done));
    forall y | y in s'.blocks && s'.blocks[y].WEAK? ensures Pending(s'.tasks, y) {
      assert Pending(s.tasks, y);
      var x :| x in s.tasks && s.tasks[x].bid == y
               && (s.tasks[x].phase.Ask? || s.tasks[x].phase.Wait? || s.tasks[x].phase.Failed?);
      assert x in s'.tasks && s'.tasks[x] == s.tasks[x];
    }
  }

  /** The copies that a copy has started are those that it waits for. */
  lemma ChildrenDone(c: Copying, s: State, id: nat)
    requires Parents(c, s) && id in s.tasks && s.tasks[id].phase.Wait?
    requires var p := s.tasks[id].phase; AllFinished(s.tasks, p.from, p.to) && !AnyFailed(s.tasks, p.from, p.to)
    ensures forall x :: x in s.tasks && s.tasks[x].parent == Some(id) ==> s.tasks[x].phase.Done?
  {
    forall x | x in s.tasks && s.tasks[x].parent == Some(id) ensures s.tasks[x].phase.Done? {
      assert Started(c, s.tasks, x);
    }
  }

  lemma DoneKeeps(c: Copying, rank: Id -> nat, s: State, id: nat)
    requires Valid(c, rank, s) && id in s.tasks && s.tasks[id].phase.Wait?
    requires var p := s.tasks[id].phase; AllFinished(s.tasks, p.from, p.to) && !AnyFailed(s.tasks, p.from, p.to)
    ensures HasAll(c, s, s.tasks[id].bid)
    ensures Valid(c, rank, s.(blocks := s.blocks[s.tasks[id].bid := NORMAL], tasks := Enter(s.tasks, id, Done)))
  {
    hide Started, Acyclic, Sound, Obtainable, Target, Parents, HasAll, AllFinished, AnyFailed;
    assert Sane(c, rank, s, id);
    AllThere(c, rank, s, id);
    ChildrenDone(c, s, id);
    ParentsEnter(c, s, id, Done);
    var s' := s.(blocks := s.blocks[s.tasks[id].bid := NORMAL], tasks := Enter(s.tasks, id, Done));
    ParentsSame(c, s.(tasks := Enter(s.tasks, id, Done)), s');
    DoneTarget(c, s, id);
    AllSaneKept(c, rank, s, s', id);
  }

  /** Every step keeps the invariant. */
  lemma StepKeeps(c: Copying, rank: Id -> nat, s: State, id: nat, s': State)
    requires Valid(c, rank, s) && Step(c, s, id, s')
    ensures Valid(c, rank, s')
  {
    hide Valid, LookUp, FetchBlock, StoreBlock, Spawn, AnyFailed, AllFinished, HasAll;
    match s.tasks[id].phase
    case Look => LookKeeps(c, rank, s, id);
    case Fetch => FetchKeeps(c, rank, s, id);
    case Store => StoreKeeps(c, rank, s, id);
    case Ask =>
      var ms :| MayAnswer(c, s, id, ms) && s' == Spawn(s, id, ms);
      SpawnKeeps(c, rank, s, id, ms);
    case Wait(from, to) =>
      if AnyFailed(s.tasks, from, to) {
        FailKeeps(c, rank, s, id);
      } else {
        DoneKeeps(c, rank, s, id);
      }
    case _ =>
  }

  // ----- whole runs

  /** A run, with the copy that makes each step. */
  ghost predicate IsRun(c: Copying, bid: Id, run: seq<State>, ids: seq<nat>) {
    && |run| == |ids| + 1 && run[0] == Start(c, bid)
    && forall i :: 0 <= i < |ids| ==> Step(c, run[i], ids[i], run[i + 1])
  }

  lemma {:induction false} RunValid(c: Copying, rank: Id -> nat, bid: Id, run: seq<State>, ids: seq<nat>, n: nat)
    requires Acyclic(c.graph, rank) && Sound(c.graph, c.first, {}) && IsRun(c, bid, run, ids) && n < |run|
    ensures Valid(c, rank, run[n]) && run[n].tasks[0].bid == bid
  {
    hide Valid, Step, Acyclic, Sound;
    if n == 0 {
      StartValid(c, rank, bid);
    } else {
      RunValid(c, rank, bid, run, ids, n - 1);
      StepKeeps(c, rank, run[n - 1], ids[n - 1], run[n]);
      StepBid(c, rank, run[n - 1], ids[n - 1], run[n]);
    }
  }

  lemma StepBid(c: Copying, rank: Id -> nat, s: State, id: nat, s': State)
    requires Valid(c, rank, s) && Step(c, s, id, s') && Valid(c, rank, s')
    ensures s'.tasks[0].bid == s.tasks[0].bid
  {
    hide Started, Acyclic, Sound, Obtainable, Target, AllSane, Add;
    if s.tasks[id].phase.Ask? {
      var ms :| MayAnswer(c, s, id, ms) && s' == Spawn(s, id, ms);
      AddAt(Enter(s.tasks, id, Wait(s.nextId, s.nextId + |ms|)), s.nextId, id, ms);
    }
  }

  // ----- how a run ends

  /** Once the first copy is done, all are. */
  lemma {:induction false} AllDone(c: Copying, s: State, id: nat)
    requires Parents(c, s) && s.tasks[0].phase.Done? && id in s.tasks
    ensures s.tasks[id].phase.Done?
    decreases id
  {
    if id != 0 {
      assert Started(c, s.tasks, id);
      AllDone(c, s, s.tasks[id].parent.value);
    }
  }

  lemma DoneSound(c: Copying, rank: Id -> nat, s: State)
    requires Valid(c, rank, s) && s.tasks[0].phase.Done?
    ensures Sound(c.graph, s.blocks, {})
  {
    hide Acyclic, Obtainable, Started, AllSane;
    forall b | b in s.blocks ensures s.blocks[b].NORMAL? {
      if s.blocks[b].WEAK? {
        assert Pending(s.tasks, b);
        var x :| x in s.tasks && s.tasks[x].bid == b
                 && (s.tasks[x].phase.Ask? || s.tasks[x].phase.Wait? || s.tasks[x].phase.Failed?);
        AllDone(c, s, x);
        assert false;
      }
    }
  }

  /** What a closed target has, out of what it had and of the source, could be
      obtained. */
  lemma {:induction false} ClosedObtainable(g: Graph, rank: Id -> nat, source: set<Id>, target: set<Id>, blocks: map<Id, Status>,
                                            b: Id)
    requires Acyclic(g, rank) && Sound(g, blocks, {}) && blocks.Keys <= target + source && b in blocks
    ensures Obtainable(g, rank, source, target, b)
    decreases rank(b)
  {
    forall i | 0 <= i < |Refs(g, b)| ensures RefObtainable(g, rank, source, target, b, i) {
      assert Refs(g, b)[i] in Refs(g, b);
      ClosedObtainable(g, rank, source, target, blocks, Refs(g, b)[i]);
    }
  }

  /** In every interleaving, a copy that ends without an error leaves all that the
      block reaches on the target, with no weak block, and a target as sound as it
      was; and it ends so or with an error if and only if the block could be obtained
      or not. */
  lemma ParallelExact(c: Copying, rank: Id -> nat, bid: Id, run: seq<State>, ids: seq<nat>, n: nat)
    requires Acyclic(c.graph, rank) && Sound(c.graph, c.first, {}) && IsRun(c, bid, run, ids) && n < |run|
    ensures 0 in run[n].tasks
    ensures Finished(run[n].tasks[0].phase) ==>
              (run[n].tasks[0].phase.Done? <==> Obtainable(c.graph, rank, c.source, c.first.Keys, bid))
    ensures run[n].tasks[0].phase.Done? ==> Sound(c.graph, run[n].blocks, {}) && BlockCopy.Grown(c.first, run[n].blocks)
    ensures run[n].tasks[0].phase.Done? ==>
              forall x :: Reaches(c.graph, rank, bid, x) ==> x in run[n].blocks && run[n].blocks[x].NORMAL?
  {
    hide Acyclic, Obtainable, Started, IsRun, Reaches;
    var s := run[n];
    RunValid(c, rank, bid, run, ids, n);
    assert Sane(c, rank, s, 0);
    if s.tasks[0].phase.Done? {
      DoneSound(c, rank, s);
      ClosedObtainable(c.graph, rank, c.source, c.first.Keys, s.blocks, bid);
      forall x | Reaches(c.graph, rank, bid, x) ensures x in s.blocks && s.blocks[x].NORMAL? {
        Closure(c.graph, rank, s.blocks, bid, x);
      }
    }
  }

  /** A run is never stuck: as long as the first copy is not finished, some copy can
      make a step. */
  lemma Progress(c: Copying, rank: Id -> nat, s: State) returns (id: nat, s': State)
    requires Valid(c, rank, s) && !Finished(s.tasks[0].phase)
    ensures Step(c, s, id, s')
  {
    hide Acyclic, Obtainable, Started, Target;
    id := LastUnfinished(s.tasks, s.nextId);
    assert Sane(c, rank, s, id);
    match s.tasks[id].phase
    case Look => s' := LookUp(s, id);
    case Fetch => s' := FetchBlock(c, s, id);
    case Store => s' := StoreBlock(s, id);
    case Ask =>
      var ms := if s.tasks[id].bid in c.first then [] else Refs(c.graph, s.tasks[id].bid);
      FirstAnswer(c, s, id);
      s' := Spawn(s, id, ms);
    case Wait(from, to) => s' := Upgrade(c, s, id);
  }

  lemma {:induction false} LastUnfinished(ts: Tasks, n: nat) returns (id: nat)
    requires 0 in ts && !Finished(ts[0].phase) && n > 0
    ensures id < n && id in ts && !Finished(ts[id].phase)
    ensures forall x :: x in ts && id < x < n ==> Finished(ts[x].phase)
    decreases n
  {
    if n - 1 in ts && !Finished(ts[n - 1].phase) {
      id := n - 1;
    } else {
      id := LastUnfinished(ts, n - 1);
    }
  }

  lemma FirstAnswer(c: Copying, s: State, id: nat)
    requires Target(c, s) && id in s.tasks
    ensures MayAnswer(c, s, id, if s.tasks[id].bid in c.first then [] else Refs(c.graph, s.tasks[id].bid))
  {
  }

  // ----- why a run ends

  /** How many steps a copy of a block of rank `n` takes at most, together with those
      that it starts, if no block has more than `d` references. */
  ghost function Cost(d: nat, n: nat): (r: nat)
    ensures r >= 5
  {
    if n == 0 then 5 else 5 + d * Cost(d, n - 1)
  }

  /** How many of these are still to come, without those of copies already started. */
  ghost function Left(d: nat, rank: Id -> nat, k: Task): nat {
    match k.phase
    case Look => Cost(d, rank(k.bid))
    case Fetch => Cost(d, rank(k.bid)) - 1
    case Store => Cost(d, rank(k.bid)) - 2
    case Ask => Cost(d, rank(k.bid)) - 3
    case Wait(_, _) => 1
    case _ => 0
  }

  ghost function LeftAt(d: nat, rank: Id -> nat, ts: Tasks, id: nat): nat {
    if id in ts then Left(d, rank, ts[id]) else 0
  }

  ghost function Remaining(d: nat, rank: Id -> nat, ts: Tasks, n: nat): nat {
    if n == 0 then 0 else Remaining(d, rank, ts, n - 1) + LeftAt(d, rank, ts, n - 1)
  }

  lemma {:induction false} CostMore(d: nat, a: nat, b: nat)
    requires a <= b
    ensures Cost(d, a) <= Cost(d, b)
    decreases b
  {
    if 0 < a {
      CostMore(d, a - 1, b - 1);
      Times(d, Cost(d, a - 1), Cost(d, b - 1));
    }
  }

  lemma Times(d: nat, a: nat, b: nat)
    requires a <= b
    ensures d * a <= d * b && a * d <= b * d
  {
  }

  lemma {:induction false} RemainingSame(d: nat, rank: Id -> nat, ts: Tasks, ts': Tasks, n: nat)
    requires forall x :: 0 <= x < n ==> LeftAt(d, rank, ts', x) == LeftAt(d, rank, ts, x)
    ensures Remaining(d, rank, ts', n) == Remaining(d, rank, ts, n)
  {
    hide LeftAt;
    if n > 0 {
      RemainingSame(d, rank, ts, ts', n - 1);
    }
  }

  lemma {:induction false} RemainingEnter(d: nat, rank: Id -> nat, ts: Tasks, id: nat, p: Phase, n: nat)
    requires id in ts && id < n
    ensures Remaining(d, rank, Enter(ts, id, p), n)
         == Remaining(d, rank, ts, n) - Left(d, rank, ts[id]) + Left(d, rank, ts[id].(phase := p))
  {
    hide Left;
    var ts' := Enter(ts, id, p);
    if id == n - 1 {
      RemainingSame(d, rank, ts, ts', n - 1);
    } else {
      RemainingEnter(d, rank, ts, id, p, n - 1);
    }
  }

  lemma {:induction false} RemainingAdd(d: nat, rank: Id -> nat, ts: Tasks, n: nat, id: nat, ms: seq<Id>, each: nat)
    requires forall i :: 0 <= i < |ms| ==> Cost(d, rank(ms[i])) <= each
    ensures Remaining(d, rank, Add(ts, n, id, ms), n + |ms|) <= Remaining(d, rank, ts, n) + |ms| * each
    decreases |ms|
  {
    hide Cost, Remaining;
    if ms != [] {
      var k := |ms| - 1;
      RemainingAdd(d, rank, ts, n, id, ms[..k], each);
      RemainingPut(d, rank, Add(ts, n, id, ms[..k]), n + k, Task(ms[k], Some(id), Look));
      OneMore(k, each);
    }
  }

  lemma RemainingPut(d: nat, rank: Id -> nat, ts: Tasks, n: nat, k: Task)
    ensures Remaining(d, rank, ts[n := k], n + 1) == Remaining(d, rank, ts, n) + Left(d, rank, k)
  {
    hide Left;
    RemainingSame(d, rank, ts, ts[n := k], n);
  }

  lemma OneMore(k: nat, each: nat)
    ensures (k + 1) * each == k * each + each
  {
  }

  ghost predicate Narrow(g: Graph, d: nat) {
    forall b :: b in g ==> |g[b]| <= d
  }

  /** There is always such a number. */
  lemma {:induction false} Degree(g: Graph) returns (d: nat)
    ensures Narrow(g, d)
    decreases g.Keys
  {
    d := 0;
    if b :| b in g {
      var rest := g - {b};
      d := Degree(rest);
      assert forall x :: x in g && x != b ==> x in rest && rest[x] == g[x];
      if |g[b]| > d {
        d := |g[b]|;
      }
    }
  }

  lemma SpawnLess(c: Copying, rank: Id -> nat, d: nat, s: State, id: nat, ms: seq<Id>)
    requires Valid(c, rank, s) && Narrow(c.graph, d) && id in s.tasks && s.tasks[id].phase.Ask? && MayAnswer(c, s, id, ms)
    ensures var s' := Spawn(s, id, ms); Remaining(d, rank, s'.tasks, s'.nextId) < Remaining(d, rank, s.tasks, s.nextId)
  {
    hide Started, Sound, Obtainable, Target, AllSane, Add, Remaining;
    var b, n := s.tasks[id].bid, s.nextId;
    RemainingEnter(d, rank, s.tasks, id, Wait(n, n + |ms|), n);
    var ts := Enter(s.tasks, id, Wait(n, n + |ms|));
    if ms == [] {
      RemainingAdd(d, rank, ts, n, id, ms, 0);
    } else {
      forall i | 0 <= i < |ms| ensures rank(ms[i]) < rank(b) && Cost(d, rank(ms[i])) <= Cost(d, rank(b) - 1) {
        assert ms[i] in ms;
        CostMore(d, rank(ms[i]), rank(b) - 1);
      }
      assert rank(ms[0]) < rank(b);
      RemainingAdd(d, rank, ts, n, id, ms, Cost(d, rank(b) - 1));
      Times(Cost(d, rank(b) - 1), |ms|, d);
    }
  }

  /** Every step leaves fewer steps to come; in particular no copy asks again once it
      has waited. */
  lemma StepLess(c: Copying, rank: Id -> nat, d: nat, s: State, id: nat, s': State)
    requires Valid(c, rank, s) && Narrow(c.graph, d) && Step(c, s, id, s')
    ensures Remaining(d, rank, s'.tasks, s'.nextId) < Remaining(d, rank, s.tasks, s.nextId)
  {
    hide Valid, Spawn, AnyFailed, AllFinished, HasAll, Remaining, MayAnswer, Narrow, Cost;
    assert id < s.nextId by {
      IdBelow(c, rank, s, id);
    }
    if s.tasks[id].phase.Ask? {
      var ms :| MayAnswer(c, s, id, ms) && s' == Spawn(s, id, ms);
      SpawnLess(c, rank, d, s, id, ms);
    } else {
      RemainingEnter(d, rank, s.tasks, id, s'.tasks[id].phase, s.nextId);
      if s.tasks[id].phase.Wait? && !AnyFailed(s.tasks, s.tasks[id].phase.from, s.tasks[id].phase.to) {
        DoneKeeps(c, rank, s, id);
      }
    }
  }

  lemma IdBelow(c: Copying, rank: Id -> nat, s: State, id: nat)
    requires Valid(c, rank, s) && id in s.tasks
    ensures id < s.nextId
  {
    hide Started, Sound, Obtainable, Target, AllSane, Acyclic;
  }

  lemma {:induction false} RunLess(c: Copying, rank: Id -> nat, d: nat, bid: Id, run: seq<State>, ids: seq<nat>, n: nat)
    requires Acyclic(c.graph, rank) && Sound(c.graph, c.first, {}) && IsRun(c, bid, run, ids) && n < |run|
    requires Narrow(c.graph, d)
    ensures n + Remaining(d, rank, run[n].tasks, run[n].nextId) <= Cost(d, rank(bid))
  {
    hide Valid, Step, Acyclic, Sound, Narrow;
    if n == 0 {
      assert Remaining(d, rank, run[0].tasks, 0) == 0;
    } else {
      RunLess(c, rank, d, bid, run, ids, n - 1);
      RunValid(c, rank, bid, run, ids, n - 1);
      StepLess(c, rank, d, run[n - 1], ids[n - 1], run[n]);
    }
  }

  /** Whatever the order of the steps and the answers, a run has a bounded length, and
      once it cannot go on the first copy is finished. */
  lemma RunEnds(c: Copying, rank: Id -> nat, d: nat, bid: Id, run: seq<State>, ids: seq<nat>)
    requires Acyclic(c.graph, rank) && Sound(c.graph, c.first, {}) && IsRun(c, bid, run, ids) && Narrow(c.graph, d)
    ensures |ids| <= Cost(d, rank(bid)) && 0 in run[|ids|].tasks
    ensures (forall id, s' :: !Step(c, run[|ids|], id, s')) ==> Finished(run[|ids|].tasks[0].phase)
  {
    hide Valid, Step, Acyclic, Sound, Narrow, Cost, Remaining;
    var s := run[|ids|];
    RunLess(c, rank, d, bid, run, ids, |ids|);
    RunValid(c, rank, bid, run, ids, |ids|);
    assert 0 in s.tasks by {
      FirstThere(c, rank, s);
    }
    if !Finished(s.tasks[0].phase) {
      var id, s' := Progress(c, rank, s);
    }
  }

  lemma FirstThere(c: Copying, rank: Id -> nat, s: State)
    requires Valid(c, rank, s)
    ensures 0 in s.tasks
  {
    hide Started, Sound, Obtainable, Target, AllSane, Acyclic;
  }
}
