/** The three-way merge of file system trees. */
module Merge {
  import opened Keys
  import opened BTree
  import opened Location
  import opened Delta
  import IbTree

  const INODE_LENGTH := 8
  const BST_NONE: Byte := 0
  const BST_META: Byte := 1
  const BST_LAST: Byte := 0x2f
  const ROOT_INODE := 1

  // ----- keys of the file system

  function NewBlockKey(ino: nat, st: Byte, data: Bytes): Key {
    Uint64Bytes(ino) + [st] + data
  }

  function SubType(k: Key): Byte {
    if |k| <= INODE_LENGTH then 0 else k[INODE_LENGTH]
  }

  function Ino(k: Key): nat {
    if |k| < INODE_LENGTH then 0 else FromBigEndian(k[..INODE_LENGTH])
  }

  function MetaKey(ino: nat): Key {
    NewBlockKey(ino, BST_META, [])
  }

  /** A key as the file system makes them: an inode, a subtype it uses, and data,
      of which metadata has none. */
  predicate IsFsKey(k: Key) {
    |k| > INODE_LENGTH && BST_META <= k[INODE_LENGTH] < BST_LAST && (k[INODE_LENGTH] == BST_META ==> |k| == INODE_LENGTH + 1)
  }

  lemma KeyParts(k: Key)
    requires |k| > INODE_LENGTH
    ensures Ino(k) < UINT64 && k == NewBlockKey(Ino(k), SubType(k), k[INODE_LENGTH + 1..])
  {
    FromBigEndianRoundTrip(k[..INODE_LENGTH]);
    BoundEight();
    assert k == k[..INODE_LENGTH] + [k[INODE_LENGTH]] + k[INODE_LENGTH + 1..];
  }

  lemma NewKeyParts(ino: nat, st: Byte, data: Bytes)
    requires ino < UINT64
    ensures Ino(NewBlockKey(ino, st, data)) == ino && SubType(NewBlockKey(ino, st, data)) == st
  {
    BoundEight();
    BigEndianRoundTrip(ino, 8);
    var k := NewBlockKey(ino, st, data);
    assert k[..INODE_LENGTH] == Uint64Bytes(ino);
  }

  /** Keys sort by inode, then by subtype, then by data. */
  lemma NewKeyOrder(i: nat, s: Byte, a: Bytes, j: nat, t: Byte, b: Bytes)
    requires i < UINT64 && j < UINT64
    ensures Less(NewBlockKey(i, s, a), NewBlockKey(j, t, b))
       <==> i < j || (i == j && (s < t || (s == t && Less(a, b))))
  {
    BoundEight();
    BigEndianOrder(i, j, 8);
    assert NewBlockKey(i, s, a) == Uint64Bytes(i) + ([s] + a);
    assert NewBlockKey(j, t, b) == Uint64Bytes(j) + ([t] + b);
    LessConcat(Uint64Bytes(i), [s] + a, Uint64Bytes(j), [t] + b);
    LessConcat([s], a, [t], b);
  }

  /** The metadata of an inode comes before all its other keys. */
  lemma MetaFirst(k: Key)
    requires IsFsKey(k)
    ensures Ino(k) < UINT64 && (SubType(k) == BST_META <==> k == MetaKey(Ino(k)))
    ensures k != MetaKey(Ino(k)) ==> Less(MetaKey(Ino(k)), k)
  {
    KeyParts(k);
    var d := k[INODE_LENGTH + 1..];
    NewKeyOrder(Ino(k), BST_META, [], Ino(k), SubType(k), d);
    if SubType(k) == BST_META {
      assert d == [];
    }
  }

  /** The range that is deleted for an inode holds all its keys and no others. */
  lemma InodeRange(k: Key, ino: nat)
    requires IsFsKey(k) && ino < UINT64
    ensures Less(k, NewBlockKey(ino, BST_NONE, [])) || Less(NewBlockKey(ino, BST_LAST, []), k) <==> Ino(k) != ino
  {
    KeyParts(k);
    var d := k[INODE_LENGTH + 1..];
    NewKeyOrder(Ino(k), SubType(k), d, ino, BST_NONE, []);
    NewKeyOrder(ino, BST_LAST, [], Ino(k), SubType(k), d);
  }

  // ----- what a merge makes of each key

  datatype InodeMeta = InodeMeta(ctime: nat, dir: bool)

  datatype Verdict = New | Existing | Gone

  type Contents = map<Key, Value>

  function Look(m: Contents, k: Key): Option<Value> {
    if k in m then Some(m[k]) else None
  }

  /** What is preferred for an inode whose metadata has changed, given what the
      tree that is merged into has. */
  function Judge(dec: Value -> InodeMeta, cur: Option<Value>, was: Option<Value>, now: Option<Value>): Verdict {
    if now.None? then
      if cur.None? || was.None? || dec(was.value).ctime >= dec(cur.value).ctime then Gone else Existing
    else if cur.None? || dec(now.value).ctime > dec(cur.value).ctime then New
    else Existing
  }

  /** Whether the change shows that the inode is a directory. */
  function ShowsDir(dec: Value -> InodeMeta, cur: Option<Value>, was: Option<Value>, now: Option<Value>): bool {
    cur.Some? && if now.None? then was.Some? && dec(was.value).dir else dec(now.value).dir
  }

  function ApplyChange(cur: Option<Value>, was: Option<Value>, now: Option<Value>, v: Verdict): Option<Value> {
    if now.None? then if cur.Some? && (cur == was || v.New?) then None else cur
    else if was.None? then if cur.None? || v.New? then now else cur
    else if (cur.Some? && cur == was) || v.New? then now else cur
  }

  /** A merge of the changes from `src` to `dst` into `cur`. */
  datatype MergeCase = MergeCase(cur: Contents, src: Contents, dst: Contents, dec: Value -> InodeMeta, local: bool) {

    ghost predicate Valid() {
      forall k :: k in cur || k in src || k in dst ==> IsFsKey(k)
    }

    ghost predicate Changed(k: Key) {
      Look(src, k) != Look(dst, k)
    }

    ghost function VerdictOf(ino: nat): Verdict {
      Judge(dec, Look(cur, MetaKey(ino)), Look(src, MetaKey(ino)), Look(dst, MetaKey(ino)))
    }

    ghost predicate IsDir(ino: nat) {
      ino == ROOT_INODE
      || (Changed(MetaKey(ino)) && ShowsDir(dec, Look(cur, MetaKey(ino)), Look(src, MetaKey(ino)), Look(dst, MetaKey(ino))))
    }

    /** What one change makes of its key. */
    ghost function Step(k: Key): Option<Value> {
      var c, was, now, i := Look(cur, k), Look(src, k), Look(dst, k), Ino(k);
      if local then
        var v := if SubType(k) == BST_META then VerdictOf(i) else New;
        if v.Gone? then c else ApplyChange(c, was, now, v)
      else if Changed(MetaKey(i)) && !VerdictOf(i).Gone? && (VerdictOf(i).New? || IsDir(i)) then
        ApplyChange(c, was, now, VerdictOf(i))
      else c
    }

    /** Whether the inode is removed as a whole. */
    ghost predicate Removed(ino: nat) {
      !local && Changed(MetaKey(ino)) && VerdictOf(ino).Gone?
    }

    ghost function Result(k: Key): Option<Value> {
      if Removed(Ino(k)) then None else if Changed(k) then Step(k) else Look(cur, k)
    }
  }

  lemma LookIsLookup(m: Contents, k: Key)
    ensures Look(m, k) == if Lookup(m, k).Some? then Some(Lookup(m, k).value.value) else None
  {
  }

  /** A change comes with what the two trees hold. */
  lemma OneChange(c: MergeCase, cs: seq<Change>, n: nat)
    requires c.Valid() && IsDelta(cs, c.src, c.dst) && n < |cs|
    ensures cs[n].was.Some? || cs[n].now.Some?
    ensures var k := cs[n].Key();
            && IsFsKey(k) && c.Changed(k)
            && (cs[n].was.Some? ==> Look(c.src, k) == Some(cs[n].was.value.value) && cs[n].was.value.key == k)
            && (cs[n].was.None? ==> Look(c.src, k) == None)
            && (cs[n].now.Some? ==> Look(c.dst, k) == Some(cs[n].now.value.value) && cs[n].now.value.key == k)
            && (cs[n].now.None? ==> Look(c.dst, k) == None)
  {
    hide Less, IsFsKey;
  }

  /** The metadata of its inode comes before it, if that has changed. */
  lemma MetaBefore(c: MergeCase, cs: seq<Change>, n: nat) returns (j: nat)
    requires c.Valid() && IsDelta(cs, c.src, c.dst) && n < |cs| && (cs[n].was.Some? || cs[n].now.Some?)
    requires var k, i := cs[n].Key(), Ino(cs[n].Key());
             IsFsKey(k) && c.Changed(MetaKey(i)) && k != MetaKey(i)
    ensures j < n && (cs[j].was.Some? || cs[j].now.Some?) && cs[j].Key() == MetaKey(Ino(cs[n].Key()))
  {
    hide Less, IsFsKey, Ino, MetaKey;
    var k, i := cs[n].Key(), Ino(cs[n].Key());
    MetaFirst(k);
    LessAsymmetric(MetaKey(i), k);
    LookIsLookup(c.src, MetaKey(i));
    LookIsLookup(c.dst, MetaKey(i));
    assert Lookup(c.src, MetaKey(i)) != Lookup(c.dst, MetaKey(i));
    j :| 0 <= j < |cs| && cs[j].Key() == MetaKey(i);
  }

  /** Changes come one to a key, and metadata first. */
  lemma ChangeAt(c: MergeCase, cs: seq<Change>, n: nat)
    requires c.Valid() && IsDelta(cs, c.src, c.dst) && n < |cs|
    ensures cs[n].was.Some? || cs[n].now.Some?
    ensures var k := cs[n].Key();
            && IsFsKey(k) && c.Changed(k)
            && (cs[n].was.Some? ==> Look(c.src, k) == Some(cs[n].was.value.value) && cs[n].was.value.key == k)
            && (cs[n].was.None? ==> Look(c.src, k) == None)
            && (cs[n].now.Some? ==> Look(c.dst, k) == Some(cs[n].now.value.value) && cs[n].now.value.key == k)
            && (cs[n].now.None? ==> Look(c.dst, k) == None)
    ensures cs[n].Key() !in KeysOf(cs, n)
    ensures forall k :: k in KeysOf(cs, n) ==> c.Changed(k)
    ensures var i := Ino(cs[n].Key());
            c.Changed(MetaKey(i)) && cs[n].Key() != MetaKey(i) ==> MetaKey(i) in KeysOf(cs, n)
  {
    hide Less, IsFsKey, Ino, MetaKey, Look, MergeCase.Changed;
    OneChange(c, cs, n);
    var k := cs[n].Key();
    LessIrreflexive(k);
    var i := Ino(k);
    forall x | x in KeysOf(cs, n) ensures c.Changed(x) {
      var j :| 0 <= j < n && cs[j].Key() == x;
      OneChange(c, cs, j);
    }
    if c.Changed(MetaKey(i)) && k != MetaKey(i) {
      var j := MetaBefore(c, cs, n);
    }
  }

  ghost function KeysOf(cs: seq<Change>, n: nat): set<Key>
    requires n <= |cs| && forall i :: 0 <= i < n ==> cs[i].was.Some? || cs[i].now.Some?
  {
    set i | 0 <= i < n :: cs[i].Key()
  }

  lemma AllKeys(c: MergeCase, cs: seq<Change>)
    requires IsDelta(cs, c.src, c.dst)
    ensures forall k :: k in KeysOf(cs, |cs|) <==> c.Changed(k)
  {
    forall k ensures k in KeysOf(cs, |cs|) <==> c.Changed(k) {
      LookIsLookup(c.src, k);
      LookIsLookup(c.dst, k);
    }
  }

  ghost predicate Wellformed(cs: seq<Change>) {
    forall i :: 0 <= i < |cs| ==> cs[i].was.Some? || cs[i].now.Some?
  }

  /** What holds after the first `n` changes. */
  ghost predicate Merging(c: MergeCase, cs: seq<Change>, n: nat, t: Contents, m: map<nat, Verdict>, isdir: set<nat>)
    requires n <= |cs| && Wellformed(cs)
  {
    && (forall k :: Look(t, k) == if k in KeysOf(cs, n) then c.Step(k) else Look(c.cur, k))
    && (c.local ==> m == map[])
    && (!c.local ==> forall i: nat :: (i in m <==> MetaKey(i) in KeysOf(cs, n) && i < UINT64) && (i in m ==> m[i] == c.VerdictOf(i)))
    && (forall i: nat :: i in isdir <==> i == ROOT_INODE || (i < UINT64 && MetaKey(i) in KeysOf(cs, n) && c.IsDir(i)))
  }

  lemma NextKeys(cs: seq<Change>, n: nat)
    requires n < |cs| && Wellformed(cs)
    ensures KeysOf(cs, n + 1) == KeysOf(cs, n) + {cs[n].Key()}
  {
  }

  /** One more change, for a key that has not come up before. */
  lemma MergingNext(c: MergeCase, cs: seq<Change>, n: nat, t: Contents, t': Contents, m: map<nat, Verdict>,
                    m': map<nat, Verdict>, isdir: set<nat>, isdir': set<nat>)
    requires n < |cs| && Wellformed(cs) && Merging(c, cs, n, t, m, isdir)
    requires cs[n].Key() !in KeysOf(cs, n)
    requires var k, i := cs[n].Key(), Ino(cs[n].Key());
             && i < UINT64
             && (forall x :: Look(t', x) == if x == k then c.Step(k) else Look(t, x))
             && m' == (if !c.local && k == MetaKey(i) then m[i := c.VerdictOf(i)] else m)
             && (forall x :: x in isdir' <==> x in isdir || (x == i && k == MetaKey(i) && c.IsDir(i)))
    ensures Merging(c, cs, n + 1, t', m', isdir')
  {
    NextKeys(cs, n);
    hide KeysOf, Look, Ino, MetaKey, MergeCase.Step, MergeCase.VerdictOf, MergeCase.IsDir;
    var k, i := cs[n].Key(), Ino(cs[n].Key());
    forall j: nat | j < UINT64 ensures MetaKey(j) == k ==> j == i {
      MetaInode(j);
    }
  }

  lemma MetaInode(i: nat)
    requires i < UINT64
    ensures Ino(MetaKey(i)) == i
  {
    NewKeyParts(i, BST_META, []);
  }

  /** What is done with one change: `local` and `dec` are all that is used of `c`. */
  method MergeChange(c: MergeCase, cs: seq<Change>, n: nat, t: Contents, m: map<nat, Verdict>, isdir: set<nat>)
    returns (t': Contents, m': map<nat, Verdict>, isdir': set<nat>)
    requires c.Valid() && IsDelta(cs, c.src, c.dst) && n < |cs| && Wellformed(cs) && Merging(c, cs, n, t, m, isdir)
    ensures Merging(c, cs, n + 1, t', m', isdir')
  {
    ChangeAt(c, cs, n);
    MetaFirst(cs[n].Key());
    hide IsDelta, IsFsKey, SubType, Ino, MetaKey, KeysOf, Look;
    var oldC, newC := cs[n].was, cs[n].now;
    var k := cs[n].Key();
    var ino := Ino(k);
    t', m', isdir' := t, m, isdir;
    var v;
    if ino in m {
      v := m[ino];
    } else if SubType(k) == BST_META {
      v, isdir' := JudgeInode(c.dec, Look(t, k), oldC, newC, ino, isdir);
      if !c.local {
        m' := m[ino := v];
      }
    } else if !c.local {
      MergingNext(c, cs, n, t, t', m, m', isdir, isdir');
      return;
    } else {
      v := New;
    }
    if !v.Gone? && (c.local || v.New? || ino in isdir') {
      t' := ApplyTo(t, k, oldC, newC, v);
    }
    MergingNext(c, cs, n, t, t', m, m', isdir, isdir');
  }

  method JudgeInode(dec: Value -> InodeMeta, op: Option<Value>, oldC: Option<Entry>, newC: Option<Entry>, ino: nat,
                    isdir: set<nat>) returns (v: Verdict, isdir': set<nat>)
    requires oldC.Some? || newC.Some?
    ensures v == Judge(dec, op, ValueOf(oldC), ValueOf(newC))
    ensures isdir' == isdir + if ShowsDir(dec, op, ValueOf(oldC), ValueOf(newC)) then {ino} else {}
  {
    isdir' := isdir;
    if newC.None? {
      if op.None? {
        v := Gone;
      } else {
        if dec(oldC.value.value).dir {
          isdir' := isdir + {ino};
        }
        v := if dec(oldC.value.value).ctime >= dec(op.value).ctime then Gone else Existing;
      }
    } else {
      if op.None? {
        v := New;
      } else {
        if dec(newC.value.value).dir {
          isdir' := isdir + {ino};
        }
        v := if dec(newC.value.value).ctime > dec(op.value).ctime then New else Existing;
      }
    }
  }

  function ValueOf(e: Option<Entry>): Option<Value> {
    if e.Some? then Some(e.value.value) else None
  }

  method ApplyTo(t: Contents, k: Key, oldC: Option<Entry>, newC: Option<Entry>, v: Verdict) returns (t': Contents)
    requires (oldC.Some? || newC.Some?) && (oldC.Some? ==> oldC.value.key == k) && (newC.Some? ==> newC.value.key == k)
    ensures forall x :: Look(t', x) == if x == k then ApplyChange(Look(t, k), ValueOf(oldC), ValueOf(newC), v) else Look(t, x)
  {
    t' := t;
    var cv := Look(t, k);
    if newC.None? {
      if cv.Some? && (cv.value == oldC.value.value || v.New?) {
        t' := t - {oldC.value.key};
      }
    } else if oldC.None? {
      if cv.None? || v.New? {
        t' := t[newC.value.key := newC.value.value];
      }
    } else {
      if (cv.Some? && cv.value == oldC.value.value) || v.New? {
        t' := t[newC.value.key := newC.value.value];
      }
    }
  }

  /** Removes the inodes that are to go, in any order. */
  method RemoveInodes(t: Contents, m: map<nat, Verdict>) returns (t': Contents)
    requires (forall k :: k in t ==> IsFsKey(k)) && forall i :: i in m ==> i < UINT64
    ensures forall k :: Look(t', k) == if Ino(k) in m && m[Ino(k)].Gone? then None else Look(t, k)
  {
    t' := t;
    var todo := m.Keys;
    while todo != {}
      invariant todo <= m.Keys && forall k :: k in t' ==> IsFsKey(k)
      invariant forall k :: Look(t', k) == if Ino(k) in m && Ino(k) !in todo && m[Ino(k)].Gone? then None else Look(t, k)
      decreases todo
    {
      var ino :| ino in todo;
      todo := todo - {ino};
      if m[ino].Gone? {
        RangeRemoved(t', ino);
        t' := IbTree.Without(t', NewBlockKey(ino, BST_NONE, []), NewBlockKey(ino, BST_LAST, []));
      }
    }
  }

  lemma RangeRemoved(t: Contents, ino: nat)
    requires (forall k :: k in t ==> IsFsKey(k)) && ino < UINT64
    ensures var t' := IbTree.Without(t, NewBlockKey(ino, BST_NONE, []), NewBlockKey(ino, BST_LAST, []));
            && (forall k :: k in t' ==> IsFsKey(k))
            && forall k :: Look(t', k) == if Ino(k) == ino then None else Look(t, k)
  {
    var t' := IbTree.Without(t, NewBlockKey(ino, BST_NONE, []), NewBlockKey(ino, BST_LAST, []));
    forall k ensures Look(t', k) == if Ino(k) == ino then None else Look(t, k) {
      if k in t {
        InodeRange(k, ino);
      }
    }
  }

  lemma MergedKeys(c: MergeCase, cs: seq<Change>, n: nat, t: Contents, m: map<nat, Verdict>, isdir: set<nat>)
    requires c.Valid() && n <= |cs| && Wellformed(cs) && Merging(c, cs, n, t, m, isdir)
    ensures (forall k :: k in t ==> IsFsKey(k)) && forall i :: i in m ==> i < UINT64
  {
    forall k | k in t ensures IsFsKey(k) {
      assert Look(t, k).Some?;
    }
  }

  lemma MergedResult(c: MergeCase, cs: seq<Change>, t: Contents, m: map<nat, Verdict>, isdir: set<nat>, t': Contents)
    requires c.Valid() && Wellformed(cs) && Merging(c, cs, |cs|, t, m, isdir)
    requires forall k :: k in KeysOf(cs, |cs|) <==> c.Changed(k)
    requires forall k :: Look(t', k) == if Ino(k) in m && m[Ino(k)].Gone? then None else Look(t, k)
    ensures forall k :: Look(t', k) == c.Result(k)
  {
    forall k ensures Look(t', k) == c.Result(k) {
      if IsFsKey(k) {
        KeyParts(k);
      }
    }
  }

  /** Merges the changes from one tree to another into a third. */
  method MergeTo3(c: MergeCase, cs: seq<Change>) returns (t: Contents)
    requires c.Valid() && IsDelta(cs, c.src, c.dst)
    ensures forall k :: Look(t, k) == c.Result(k)
  {
    t := c.cur;
    var m: map<nat, Verdict> := map[];
    var isdir: set<nat> := {ROOT_INODE};
    assert Wellformed(cs);
    for n := 0 to |cs|
      invariant Merging(c, cs, n, t, m, isdir)
    {
      t, m, isdir := MergeChange(c, cs, n, t, m, isdir);
    }
    AllKeys(c, cs);
    MergedKeys(c, cs, |cs|, t, m, isdir);
    var t' := RemoveInodes(t, m);
    MergedResult(c, cs, t, m, isdir, t');
    t := t';
  }

  // ----- what a merge promises

  /** The merge result is the new tree. */
  ghost predicate Forwards(c: MergeCase) {
    forall k :: c.Result(k) == Look(c.dst, k)
  }

  /** The inode is the root, or its metadata is there and the change says that it is a
      directory. */
  ghost predicate Directory(c: MergeCase, ino: nat) {
    var k := MetaKey(ino);
    || ino == ROOT_INODE
    || (k in c.cur && c.Changed(k) && if k in c.dst then c.dec(c.dst[k]).dir else c.dec(c.src[k]).dir)
  }

  lemma DirectoryIs(c: MergeCase, ino: nat)
    ensures Directory(c, ino) <==> c.IsDir(ino)
  {
    hide MetaKey;
  }

  /** The inode is new, has newer metadata, is a directory, or is removed with all
      its keys. */
  ghost predicate Newer(c: MergeCase, ino: nat) {
    var k := MetaKey(ino);
    && c.Changed(k)
    && if k in c.dst then k !in c.src || c.dec(c.dst[k]).ctime > c.dec(c.src[k]).ctime || Directory(c, ino)
       else forall x :: x in c.dst ==> Ino(x) != ino
  }

  lemma ForwardKey(c: MergeCase, k: Key)
    requires c.Valid() && !c.local && c.cur == c.src && (forall x :: c.Changed(x) ==> Newer(c, Ino(x)))
    ensures c.Result(k) == Look(c.dst, k)
  {
    hide Ino, MetaKey, IsFsKey;
    var i := Ino(k);
    DirectoryIs(c, i);
    if c.Removed(i) {
      MetaOfKey(k);
      assert Newer(c, i);
    } else if c.Changed(k) {
      assert Newer(c, i);
    }
  }

  lemma MetaOfKey(k: Key)
    ensures Ino(MetaKey(Ino(k))) == Ino(k)
  {
    if |k| < INODE_LENGTH {
      MetaInode(0);
    } else {
      FromBigEndianRoundTrip(k[..INODE_LENGTH]);
      BoundEight();
      MetaInode(Ino(k));
    }
  }

  lemma ForwardOnly(c: MergeCase, k: Key)
    requires c.Valid() && !c.local && c.cur == c.src && Forwards(c) && c.Changed(k)
    ensures Newer(c, Ino(k))
  {
    hide Ino, MetaKey, IsFsKey;
    var i := Ino(k);
    DirectoryIs(c, i);
    assert c.Result(k) == Look(c.dst, k);
    if MetaKey(i) !in c.dst && c.Changed(MetaKey(i)) {
      forall x | x in c.dst ensures Ino(x) != i {
        assert c.Result(x) == Look(c.dst, x);
      }
    }
  }

  /** A merge into the unchanged old tree gives the new tree exactly when every
      inode with changes has newer metadata, is new, is a directory, or is gone
      with all its keys. */
  lemma FastForward(c: MergeCase)
    requires c.Valid() && !c.local && c.cur == c.src
    ensures Forwards(c) <==> forall k :: c.Changed(k) ==> Newer(c, Ino(k))
  {
    hide Newer, MergeCase.Result, Look;
    if forall k :: c.Changed(k) ==> Newer(c, Ino(k)) {
      forall k ensures c.Result(k) == Look(c.dst, k) {
        ForwardKey(c, k);
      }
    }
    if Forwards(c) {
      forall k | c.Changed(k) ensures Newer(c, Ino(k)) {
        ForwardOnly(c, k);
      }
    }
  }

  /** All changes of the inode are taken over, and nothing else. */
  ghost predicate TakesAll(c: MergeCase, ino: nat) {
    forall k :: Ino(k) == ino ==> c.Result(k) == if c.Changed(k) then Look(c.dst, k) else Look(c.cur, k)
  }

  ghost predicate TakesNone(c: MergeCase, ino: nat) {
    forall k :: Ino(k) == ino ==> c.Result(k) == Look(c.cur, k)
  }

  ghost predicate TakesAway(c: MergeCase, ino: nat) {
    forall k :: Ino(k) == ino ==> c.Result(k) == None
  }

  /** Every key is merged by itself: it gets the new value if it still has the old one. */
  ghost predicate TakesEach(c: MergeCase, ino: nat) {
    forall k :: Ino(k) == ino ==>
      c.Result(k) == if Look(c.cur, k) == Look(c.src, k) then Look(c.dst, k) else Look(c.cur, k)
  }

  /** The inode has been removed, and not changed later by somebody else. */
  ghost predicate Dies(c: MergeCase, ino: nat) {
    var k := MetaKey(ino);
    k in c.src && k !in c.dst && (k in c.cur ==> c.dec(c.src[k]).ctime >= c.dec(c.cur[k]).ctime)
  }

  /** The inode has been changed, and later than by anybody else. */
  ghost predicate Leads(c: MergeCase, ino: nat) {
    var k := MetaKey(ino);
    k in c.dst && c.Changed(k) && (k in c.cur ==> c.dec(c.dst[k]).ctime > c.dec(c.cur[k]).ctime)
  }

  /** What becomes of an inode, whatever it is merged into: it goes altogether, gets all
      of its changes, or gets none, and the ctimes in the three trees decide which.  Only
      a directory whose metadata has changed is merged key by key instead of getting
      none. */
  lemma InodeOutcome(c: MergeCase, ino: nat)
    requires c.Valid() && !c.local
    ensures Dies(c, ino) ==> TakesAway(c, ino)
    ensures Leads(c, ino) ==> TakesAll(c, ino)
    ensures !Dies(c, ino) && !Leads(c, ino) ==>
              if c.Changed(MetaKey(ino)) && Directory(c, ino) then TakesEach(c, ino) else TakesNone(c, ino)
  {
    hide Ino, MetaKey, IsFsKey;
    DirectoryIs(c, ino);
  }

  /** Whatever it is merged into, an inode that is not a directory gets all of its
      changes, none of them, or goes altogether. */
  lemma AllOrNothing(c: MergeCase, ino: nat)
    requires c.Valid() && !c.local && !Directory(c, ino)
    ensures TakesAll(c, ino) || TakesNone(c, ino) || TakesAway(c, ino)
  {
    hide TakesAll, TakesNone, TakesAway;
    InodeOutcome(c, ino);
  }

  /** In local mode a merge into the unchanged old tree gives the new tree exactly
      when no inode lost its metadata. */
  lemma LocalForward(c: MergeCase)
    requires c.Valid() && c.local && c.cur == c.src
    ensures Forwards(c) <==> forall k :: k in c.src && SubType(k) == BST_META ==> k in c.dst
  {
    hide Ino, IsFsKey;
    forall k | k in c.src && SubType(k) == BST_META ensures k == MetaKey(Ino(k)) {
      MetaFirst(k);
    }
    if Forwards(c) {
      forall k | k in c.src && SubType(k) == BST_META ensures k in c.dst {
        assert c.Result(k) == Look(c.dst, k);
      }
    }
    if forall k :: k in c.src && SubType(k) == BST_META ==> k in c.dst {
      forall k ensures c.Result(k) == Look(c.dst, k) {
        if k in c.dst && SubType(k) == BST_META {
          MetaFirst(k);
        }
      }
    }
  }

  /** In local mode an inode that was removed is still there. */
  lemma LocalKeepsRemoved(dec: Value -> InodeMeta)
    ensures var m := map[MetaKey(2) := []];
            var c := MergeCase(m, m, map[], dec, true);
            c.Valid() && !Forwards(c)
  {
    var m := map[MetaKey(2) := []];
    var c := MergeCase(m, m, map[], dec, true);
    NewKeyParts(2, BST_META, []);
    assert MetaKey(2) in c.src;
    LocalForward(c);
  }

  /** Otherwise a change without one of the metadata is dropped. */
  lemma LoneChangeDropped(dec: Value -> InodeMeta, k: Key)
    requires IsFsKey(k) && SubType(k) != BST_META && Ino(k) != ROOT_INODE
    ensures var c := MergeCase(map[], map[], map[k := []], dec, false);
            c.Valid() && !Forwards(c)
  {
    var c := MergeCase(map[], map[], map[k := []], dec, false);
    MetaFirst(k);
    assert c.Changed(k) && !c.Changed(MetaKey(Ino(k)));
    FastForward(c);
  }

  // ----- what a merge of one's own changes keeps

  /** In local mode, whether the change of a key is taken over: always, but for
      metadata that somebody else has changed to something later. */
  ghost predicate Wins(c: MergeCase, k: Key) {
    || SubType(k) != BST_META
    || Look(c.cur, k) == Look(c.dst, k)
    || (k in c.dst && (k !in c.cur || c.dec(c.dst[k]).ctime > c.dec(c.cur[k]).ctime || Look(c.cur, k) == Look(c.src, k)))
  }

  /** In local mode a merge has the changed value where there is a change that wins, and
      keeps what the tree has everywhere else. */
  lemma LocalOwn(c: MergeCase, k: Key)
    requires c.Valid() && c.local
    ensures c.Result(k) == if c.Changed(k) && Wins(c, k) then Look(c.dst, k) else Look(c.cur, k)
    ensures c.Changed(k) ==> (c.Result(k) == Look(c.dst, k) <==> Wins(c, k))
  {
    hide Ino, IsFsKey, MetaKey;
    if c.Changed(k) && SubType(k) == BST_META {
      assert IsFsKey(k);
      MetaFirst(k);
    }
  }

  /** The result of a merge as contents. */
  ghost function Outcome(c: MergeCase): Contents {
    map k | k in c.cur.Keys + c.dst.Keys && c.Result(k).Some? :: c.Result(k).value
  }

  lemma OutcomeIs(c: MergeCase, k: Key)
    ensures Look(Outcome(c), k) == c.Result(k)
  {
    hide Ino, MetaKey, Judge, ShowsDir, SubType;
  }
}
