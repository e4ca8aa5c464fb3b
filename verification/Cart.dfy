/** The CART cache: a clock with adaptive replacement and temporal filtering. */
module Cart {
  import opened Keys
  import opened EntryList

  type Value = Bytes

  /** An entry; without a value only its key is remembered. */
  datatype CartEntry = CartEntry(e: Element, refbit: bool, filterlong: bool, frequentbit: bool, value: Option<Value>)

  type Cache = map<Key, CartEntry>

  // the lists: recent and frequent entries, and remembered keys of both kinds
  const T1 := 0
  const T2 := 1
  const B1 := 2
  const B2 := 3

  /** The list that an entry belongs to. */
  function Which(r: CartEntry): nat {
    if r.value.Some? then if r.frequentbit then T2 else T1 else if r.frequentbit then B2 else B1
  }

  /** Frequent entries are long-lived, forgotten recent ones were not. */
  predicate Proper(r: CartEntry) {
    (r.frequentbit ==> r.filterlong) && (Which(r) == B1 ==> !r.filterlong)
  }

  /** The element is in the list that its entry belongs to. */
  ghost predicate Fits(cache: Cache, e: Element, w: nat) {
    e.key in cache && cache[e.key].e == e && Which(cache[e.key]) == w && Proper(cache[e.key])
  }

  /** The four lists divide the entries by whether they have a value and by their
      frequency bit. */
  ghost predicate Divided(cache: Cache, lists: seq<seq<Element>>) {
    && |lists| == 4
    && (forall w, e :: 0 <= w < 4 && e in lists[w] ==> Fits(cache, e, w))
    && (forall k :: k in cache ==> cache[k].e.key == k && cache[k].e in lists[Which(cache[k])])
  }

  /** How many entries are not long-lived. */
  ghost function Short(cache: Cache, s: seq<Element>): nat {
    if s == [] then 0 else Short(cache, s[..|s| - 1]) + IsShort(cache, s[|s| - 1])
  }

  ghost function IsShort(cache: Cache, e: Element): nat {
    if e.key in cache && !cache[e.key].filterlong then 1 else 0
  }

  ghost function Referenced(cache: Cache, s: seq<Element>): nat {
    if s == [] then 0 else Referenced(cache, s[..|s| - 1]) + IsReferenced(cache, s[|s| - 1])
  }

  ghost function IsReferenced(cache: Cache, e: Element): nat {
    if e.key in cache && cache[e.key].refbit then 1 else 0
  }

  lemma CountLast(cache: Cache, s: seq<Element>, e: Element)
    ensures Short(cache, s + [e]) == Short(cache, s) + IsShort(cache, e)
    ensures Referenced(cache, s + [e]) == Referenced(cache, s) + IsReferenced(cache, e)
  {
    assert (s + [e])[..|s|] == s;
  }

  lemma {:induction false} CountFirst(cache: Cache, s: seq<Element>)
    requires s != []
    ensures Short(cache, s) == IsShort(cache, s[0]) + Short(cache, s[1..])
    ensures Referenced(cache, s) == IsReferenced(cache, s[0]) + Referenced(cache, s[1..])
    ensures Short(cache, s) <= |s|
  {
    if |s| > 1 {
      var p := s[..|s| - 1];
      CountFirst(cache, p);
      assert s[1..][..|s| - 2] == p[1..];
    } else {
      assert s[1..] == [] && s[..0] == [];
    }
  }

  /** Counts depend on the bits of the entries counted only. */
  lemma {:induction false} CountSame(cache: Cache, cache': Cache, s: seq<Element>)
    requires forall e :: e in s ==> IsShort(cache', e) == IsShort(cache, e) && IsReferenced(cache', e) == IsReferenced(cache, e)
    ensures Short(cache', s) == Short(cache, s) && Referenced(cache', s) == Referenced(cache, s)
  {
    if s != [] {
      CountSame(cache, cache', s[..|s| - 1]);
    }
  }

  /** What can be found in the cache. */
  function Content(cache: Cache): map<Key, Value> {
    map k | k in cache && cache[k].value.Some? :: cache[k].value.value
  }

  lemma WithoutFirst(s: seq<Element>)
    requires s != []
    ensures Without(s, s[0]) == s[1..]
  {
  }

  /** Moves an element to the back of another list. */
  method MoveTo(e: Element, a: EntryList, b: EntryList)
    requires a != b && a.Valid() && b.Valid() && e in a.repr && a.repr !! b.repr
    modifies a, b, a.repr, b.repr
    ensures a.Valid() && b.Valid() && a.elems == Without(old(a.elems), e) && b.elems == old(b.elems) + [e]
    ensures a.repr == old(a.repr) - {e} && b.repr == old(b.repr) + {e}
  {
    hide Without, Linked;
    a.RemoveElement(e);
    b.PushBackElement(e);
  }

  method MoveToBack(e: Element, a: EntryList)
    requires a.Valid() && e in a.repr
    modifies a, a.repr
    ensures a.Valid() && a.elems == Without(old(a.elems), e) + [e] && a.repr == old(a.repr) && a.length == old(a.length)
  {
    hide Without, Linked;
    WithoutLess(a.elems, e);
    a.RemoveElement(e);
    a.PushBackElement(e);
  }

  lemma {:induction false} WithoutLess(s: seq<Element>, e: Element)
    requires e in s && Distinct(s)
    ensures e !in Without(s, e) && |Without(s, e)| == |s| - 1
    ensures forall x :: x in Without(s, e) <==> x in s && x != e
  {
    if s[0] != e {
      WithoutLess(s[1..], e);
    }
  }

  /** An entry changes and moves to the back of a list, or of its own. */
  ghost function Moved(lists: seq<seq<Element>>, e: Element, w: nat, w': nat): seq<seq<Element>>
    requires |lists| == 4 && w < 4 && w' < 4
  {
    var rest := lists[w := Without(lists[w], e)];
    rest[w' := rest[w'] + [e]]
  }

  lemma RestIn(cache: Cache, lists: seq<seq<Element>>, e: Element, w: nat, v: nat, x: Element)
    requires Divided(cache, lists) && w < 4 && v < 4 && e in lists[w] && Distinct(lists[w])
    requires x in lists[w := Without(lists[w], e)][v]
    ensures Fits(cache, x, v) && x != e && x.key != e.key
  {
    hide Without;
    WithoutLess(lists[w], e);
    assert Fits(cache, e, w);
    assert x in lists[v];
    assert Fits(cache, x, v);
  }

  lemma DividedMove(cache: Cache, lists: seq<seq<Element>>, e: Element, w: nat, w': nat, r: CartEntry)
    requires Divided(cache, lists) && w < 4 && w' < 4 && e in lists[w] && Distinct(lists[w])
    requires r.e == e && Which(r) == w' && Proper(r)
    ensures Divided(cache[e.key := r], Moved(lists, e, w, w'))
  {
    hide Without;
    var cache', lists' := cache[e.key := r], Moved(lists, e, w, w');
    WithoutLess(lists[w], e);
    assert Fits(cache, e, w);
    var rest := lists[w := Without(lists[w], e)];
    forall v, x | 0 <= v < 4 && x in lists'[v] ensures Fits(cache', x, v) {
      assert lists'[v] == if v == w' then rest[v] + [e] else rest[v];
      if x != e || v != w' {
        RestIn(cache, lists, e, w, v, x);
      }
    }
    forall k | k in cache' ensures cache'[k].e.key == k && cache'[k].e in lists'[Which(cache'[k])] {
      if k != e.key {
        assert cache[k].e != e;
      }
    }
  }

  /** Counts of a list that the changed entry is not in. */
  lemma CountApart(cache: Cache, lists: seq<seq<Element>>, e: Element, w: nat, v: nat, r: CartEntry)
    requires Divided(cache, lists) && w < 4 && v < 4 && v != w && e in lists[w]
    ensures Short(cache[e.key := r], lists[v]) == Short(cache, lists[v])
    ensures Referenced(cache[e.key := r], lists[v]) == Referenced(cache, lists[v])
  {
    hide Short, Referenced;
    assert Fits(cache, e, w);
    forall x | x in lists[v] ensures x.key != e.key {
      assert Fits(cache, x, v);
    }
    CountSame(cache, cache[e.key := r], lists[v]);
  }

  /** Counts when the first element of a list leaves it, or goes to its end. */
  lemma CountFront(cache: Cache, lists: seq<seq<Element>>, w: nat, r: CartEntry)
    requires Divided(cache, lists) && w < 4 && lists[w] != [] && Distinct(lists[w])
    ensures var e, rest := lists[w][0], lists[w][1..];
            var cache' := cache[e.key := r];
            && Without(lists[w], e) == rest
            && Short(cache', rest) == Short(cache, lists[w]) - IsShort(cache, e)
            && Referenced(cache', rest) == Referenced(cache, lists[w]) - IsReferenced(cache, e)
  {
    hide Short, Referenced;
    var e, rest := lists[w][0], lists[w][1..];
    CountFirst(cache, lists[w]);
    assert Fits(cache, e, w);
    forall x | x in rest ensures x.key != e.key {
      assert x in lists[w] && x != e;
      assert Fits(cache, x, w);
    }
    CountSame(cache, cache[e.key := r], rest);
  }

  lemma ContentSame(cache: Cache, k: Key, r: CartEntry)
    requires k in cache && r.value == cache[k].value
    ensures Content(cache[k := r]) == Content(cache)
  {
  }

  function Min(a: int, b: int): (r: int)
    ensures r <= a && r <= b && (r == a || r == b)
  {
    if a < b then a else b
  }

  function Max(a: int, b: int): (r: int)
    ensures r >= a && r >= b && (r == a || r == b)
  {
    if a > b then a else b
  }

  class Cart {
    const t1: EntryList
    const t2: EntryList
    const b1: EntryList
    const b2: EntryList
    const c: nat
    var cache: Cache
    var p: int
    var q: int
    var ns: int
    var nl: int

    ghost predicate Lists()
      reads this, t1, t2, b1, b2, t1.repr, t2.repr, b1.repr, b2.repr
    {
      && t1 != t2 && t1 != b1 && t1 != b2 && t2 != b1 && t2 != b2 && b1 != b2
      && t1.Valid() && t2.Valid() && b1.Valid() && b2.Valid()
      && t1.repr !! t2.repr !! b1.repr !! b2.repr
    }

    ghost function All(): seq<seq<Element>>
      reads t1, t2, b1, b2
    {
      [t1.elems, t2.elems, b1.elems, b2.elems]
    }

    /** The lists divide the entries, and the counters are right. */
    ghost predicate Core()
      reads this, t1, t2, b1, b2, t1.repr, t2.repr, b1.repr, b2.repr
    {
      && Lists() && Divided(cache, All())
      && ns == Short(cache, t1.elems) && nl == t1.length + t2.length - ns
      && 0 <= p <= c && q >= 0 && t1.length + t2.length <= c
    }

    ghost predicate Valid()
      reads this, t1, t2, b1, b2, t1.repr, t2.repr, b1.repr, b2.repr
    {
      Core() && b1.length + b2.length <= c
    }

    constructor (maximumSize: nat)
      ensures Valid() && c == maximumSize && Content(cache) == map[]
      ensures fresh(t1) && fresh(t2) && fresh(b1) && fresh(b2)
    {
      c, cache, p, q, ns, nl := maximumSize, map[], 0, 0, 0, 0;
      t1 := new EntryList();
      t2 := new EntryList();
      b1 := new EntryList();
      b2 := new EntryList();
    }

    /** The front of the frequent entries is recent again. */
    method MoveT2ToT1()
      requires Core() && t2.front != null && t2.front.key in cache && cache[t2.front.key].refbit
      modifies this, t1, t2, t1.repr, t2.repr
      ensures Core() && t1.elems == old(t1.elems) + [old(t2.elems)[0]] && t2.elems == old(t2.elems)[1..]
      ensures t1.repr + t2.repr == old(t1.repr + t2.repr)
      ensures Content(cache) == old(Content(cache)) && Touched(old(cache), cache, old(t2.elems)[0].key)
      ensures var k := old(t2.elems)[0].key;
              k in old(cache) && cache[k] == old(cache)[k].(refbit := false, frequentbit := false)
      ensures p == old(p)
      ensures q == if t2.length + b2.length + t1.length - ns >= c then Min(old(q) + 1, 2 * c - t1.length) else old(q)
    {
      hide Divided, Short, Referenced, Content, Without, Linked, Distinct, Touched, Min;
      ShiftT2();
      Widen(b2.length);
    }

    /** The front of one list goes to the back of the other. */
    method ShiftT2()
      requires Core() && t2.front != null && t2.front.key in cache && cache[t2.front.key].refbit
      modifies `cache, t1, t2, t1.repr, t2.repr
      ensures Core() && t1.elems == old(t1.elems) + [old(t2.elems)[0]] && t2.elems == old(t2.elems)[1..]
      ensures t1.repr + t2.repr == old(t1.repr + t2.repr)
      ensures Content(cache) == old(Content(cache)) && Touched(old(cache), cache, old(t2.elems)[0].key)
      ensures var k := old(t2.elems)[0].key;
              k in old(cache) && cache[k] == old(cache)[k].(refbit := false, frequentbit := false)
    {
      hide Divided, Short, Referenced, Content, Without, Linked, Distinct;
      ghost var lists, w := All(), cache;
      var e := t2.front;
      FrontFits(lists, w, T2, e);
      var r := cache[e.key].(refbit := false, frequentbit := false);
      DividedMove(w, lists, e, T2, T1, r);
      CountApart(w, lists, e, T2, T1, r);
      CountLast(w[e.key := r], lists[T1], e);
      WithoutFirst(lists[T2]);
      ContentSame(w, e.key, r);
      MoveTo(e, t2, t1);
      cache := cache[e.key := r];
      assert All() == Moved(lists, e, T2, T1);
      assert Lists();
    }

    /** A referenced entry at the front goes to the back, and may become long-lived. */
    method RecycleT1()
      requires Core() && t1.front != null && t1.front.key in cache && cache[t1.front.key].refbit
      modifies this, t1, t1.repr
      ensures Core() && t1.elems == old(t1.elems)[1..] + [old(t1.elems)[0]] && t1.repr == old(t1.repr)
      ensures Referenced(cache, t1.elems) == old(Referenced(cache, t1.elems)) - 1
      ensures Content(cache) == old(Content(cache)) && Touched(old(cache), cache, old(t1.elems)[0].key)
      ensures var k := old(t1.elems)[0].key;
              k in old(cache) && cache[k] == old(cache)[k].(refbit := false,
                filterlong := old(cache)[k].filterlong || t1.length >= Min(p + 1, b1.length))
      ensures p == old(p) && q == old(q)
    {
      hide Divided, Short, Referenced, Content, Without, Linked, Distinct;
      ghost var lists, w := All(), cache;
      var e := t1.front;
      FrontFits(lists, w, T1, e);
      MoveToBack(e, t1);
      var r := cache[e.key].(refbit := false);
      if t1.length >= Min(p + 1, b1.length) && !r.filterlong {
        r := r.(filterlong := true);
        ns := ns - 1;
        nl := nl + 1;
      }
      cache := cache[e.key := r];
      DividedMove(w, lists, e, T1, T1, r);
      CountFront(w, lists, T1, r);
      CountLast(cache, lists[T1][1..], e);
      ContentSame(w, e.key, r);
      assert All() == Moved(lists, e, T1, T1);
      assert Lists();
    }

    /** A long-lived entry at the front becomes a frequent one. */
    method PromoteT1()
      requires Core() && t1.front != null && t1.front.key in cache
      requires cache[t1.front.key].filterlong && !cache[t1.front.key].refbit
      modifies this, t1, t2, t1.repr, t2.repr
      ensures Core() && t1.elems == old(t1.elems)[1..] && t2.elems == old(t2.elems) + [old(t1.elems)[0]]
      ensures t1.repr + t2.repr == old(t1.repr + t2.repr)
      ensures Referenced(cache, t1.elems) == old(Referenced(cache, t1.elems))
      ensures Content(cache) == old(Content(cache)) && Touched(old(cache), cache, old(t1.elems)[0].key)
      ensures var k := old(t1.elems)[0].key;
              k in old(cache) && cache[k] == old(cache)[k].(frequentbit := true) && !cache[k].refbit
      ensures p == old(p) && q == Max(old(q) - 1, c - t1.length)
    {
      hide Divided, Short, Referenced, Content, Without, Linked, Distinct;
      ghost var lists, w := All(), cache;
      var e := t1.front;
      FrontFits(lists, w, T1, e);
      MoveTo(e, t1, t2);
      q := Max(q - 1, c - t1.length);
      var r := cache[e.key].(frequentbit := true);
      cache := cache[e.key := r];
      DividedMove(w, lists, e, T1, T2, r);
      CountFront(w, lists, T1, r);
      ContentSame(w, e.key, r);
      assert All() == Moved(lists, e, T1, T2);
    }

    /** The front of the recent entries loses its value. */
    method EvictT1()
      requires Core() && t1.front != null && t1.front.key in cache
      requires !cache[t1.front.key].filterlong && !cache[t1.front.key].refbit
      modifies this, t1, b1, t1.repr, b1.repr
      ensures Core() && t1.elems == old(t1.elems)[1..] && b1.elems == old(b1.elems) + [old(t1.elems)[0]]
      ensures t1.repr + b1.repr == old(t1.repr + b1.repr)
      ensures var k := old(t1.elems)[0].key;
              && k in old(cache) && old(cache)[k].value.Some? && k in old(Content(cache))
              && Content(cache) == old(Content(cache)) - {k} && Touched(old(cache), cache, k)
              && cache[k] == old(cache)[k].(value := None) && !cache[k].refbit
      ensures p == old(p) && q == old(q)
    {
      hide Divided, Short, Referenced, Content, Without, Linked, Distinct;
      ghost var lists, w := All(), cache;
      var e := t1.front;
      FrontFits(lists, w, T1, e);
      var r := cache[e.key].(value := None);
      cache := cache[e.key := r];
      MoveTo(e, t1, b1);
      ns := ns - 1;
      DividedMove(w, lists, e, T1, B1, r);
      CountFront(w, lists, T1, r);
      ContentLess(w, e.key, r);
      assert All() == Moved(lists, e, T1, B1);
    }

    /** The front of the frequent entries loses its value. */
    method EvictT2()
      requires Core() && t2.front != null && t2.front.key in cache && !cache[t2.front.key].refbit
      modifies this, t2, b2, t2.repr, b2.repr
      ensures Core() && t2.elems == old(t2.elems)[1..] && b2.elems == old(b2.elems) + [old(t2.elems)[0]]
      ensures t2.repr + b2.repr == old(t2.repr + b2.repr)
      ensures var k := old(t2.elems)[0].key;
              && k in old(cache) && old(cache)[k].value.Some? && k in old(Content(cache))
              && Content(cache) == old(Content(cache)) - {k} && Touched(old(cache), cache, k)
              && cache[k] == old(cache)[k].(value := None) && !cache[k].refbit
      ensures p == old(p) && q == old(q)
    {
      hide Divided, Short, Referenced, Content, Without, Linked, Distinct;
      ghost var lists, w := All(), cache;
      var e := t2.front;
      FrontFits(lists, w, T2, e);
      var r := cache[e.key].(value := None);
      cache := cache[e.key := r];
      MoveTo(e, t2, b2);
      nl := nl - 1;
      DividedMove(w, lists, e, T2, B2, r);
      CountApart(w, lists, e, T2, T1, r);
      WithoutFirst(lists[T2]);
      ContentLess(w, e.key, r);
      assert All() == Moved(lists, e, T2, B2);
    }

    /** The first frequent entry, if any, is not referenced. */
    ghost predicate T2Clear()
      reads this, t2
    {
      t2.elems != [] ==> t2.elems[0].key in cache && !cache[t2.elems[0].key].refbit
    }

    /** Referenced entries at the front of the frequent ones become recent. */
    method ClearT2()
      requires Core()
      modifies this, t1, t2, t1.repr, t2.repr
      ensures Core() && T2Clear() && t1.length + t2.length == old(t1.length + t2.length)
      ensures t1.repr + t2.repr == old(t1.repr + t2.repr)
      ensures Content(cache) == old(Content(cache)) && Remembers(old(cache), cache) && p == old(p)
    {
      hide Divided, Short, Referenced, Content, Linked, Distinct;
      while t2.front != null && RefBit(t2.front)
        invariant Core() && t1.length + t2.length == old(t1.length + t2.length)
        invariant t1.repr + t2.repr == old(t1.repr + t2.repr)
        invariant Content(cache) == old(Content(cache)) && Remembers(old(cache), cache) && p == old(p)
        decreases t2.length
      {
        ghost var before, e := cache, t2.elems[0];
        FrontFits(All(), cache, T2, e);
        MoveT2ToT1();
        RemembersMore(old(cache), before, cache, e.key);
      }
      if t2.elems != [] {
        FrontFits(All(), cache, T2, t2.elems[0]);
      }
    }

    predicate RefBit(e: Element)
      reads this
    {
      e.key in cache && cache[e.key].refbit
    }

    predicate FilterLong(e: Element)
      reads this
    {
      e.key in cache && cache[e.key].filterlong
    }

    /** Entries at the front of the recent ones are recycled or promoted, until one
        is neither referenced nor long-lived. */
    method ClearT1()
      requires Core() && T2Clear()
      modifies this, t1, t2, t1.repr, t2.repr
      ensures Core() && T2Clear() && t1.length + t2.length == old(t1.length + t2.length)
      ensures t1.repr + t2.repr == old(t1.repr + t2.repr)
      ensures Content(cache) == old(Content(cache)) && Remembers(old(cache), cache) && p == old(p)
      ensures t1.front != null ==> t1.front.key in cache && !cache[t1.front.key].refbit && !cache[t1.front.key].filterlong
    {
      hide Divided, Short, Referenced, Content, Linked, Distinct;
      while t1.front != null && (FilterLong(t1.front) || RefBit(t1.front))
        invariant Core() && T2Clear() && t1.length + t2.length == old(t1.length + t2.length)
        invariant t1.repr + t2.repr == old(t1.repr + t2.repr)
        invariant Content(cache) == old(Content(cache)) && Remembers(old(cache), cache) && p == old(p)
        decreases Referenced(cache, t1.elems) + t1.length
      {
        ghost var before, e, f := cache, t1.elems[0], t2.elems;
        FrontFits(All(), cache, T1, e);
        if f != [] {
          FrontFits(All(), cache, T2, f[0]);
        }
        if RefBit(t1.front) {
          RecycleT1();
        } else {
          PromoteT1();
        }
        RemembersMore(old(cache), before, cache, e.key);
      }
      if t1.elems != [] {
        FrontFits(All(), cache, T1, t1.elems[0]);
      }
    }

    /** Takes its value from the front of the recent or of the frequent entries. */
    method Evict() returns (ghost victim: Key)
      requires Core() && T2Clear() && t1.length + t2.length == c && c > 0
      requires t1.front != null ==> t1.front.key in cache && !cache[t1.front.key].refbit && !cache[t1.front.key].filterlong
      modifies this, t1, t2, b1, b2, t1.repr, t2.repr, b1.repr, b2.repr
      ensures Core() && t1.length + t2.length == c - 1 && b1.length + b2.length == old(b1.length + b2.length) + 1
      ensures victim in old(Content(cache)) && Content(cache) == old(Content(cache)) - {victim}
      ensures Touched(old(cache), cache, victim) && old(cache)[victim].value.Some? && !cache[victim].refbit
      ensures if old(t1.length) >= Max(1, p) then old(t1.elems) != [] && victim == old(t1.elems)[0].key
              else old(t2.elems) != [] && victim == old(t2.elems)[0].key
      ensures p == old(p) && q == old(q)
      ensures Owned() <= old(Owned())
    {
      hide Divided, Short, Referenced, Content, Linked, Distinct;
      if t1.length >= Max(1, p) {
        victim := t1.elems[0].key;
        FrontFits(All(), cache, T1, t1.elems[0]);
        EvictT1();
      } else {
        victim := t2.elems[0].key;
        FrontFits(All(), cache, T2, t2.elems[0]);
        EvictT2();
      }
    }

    ghost function Owned(): set<Element>
      reads t1, t2, b1, b2
    {
      t1.repr + t2.repr + b1.repr + b2.repr
    }

    /** Makes room: one entry that is not referenced loses its value. */
    method Replace() returns (ghost victim: Key)
      requires Core() && t1.length + t2.length == c && c > 0
      modifies this, t1, t2, b1, b2, t1.repr, t2.repr, b1.repr, b2.repr
      ensures Core() && t1.length + t2.length == c - 1 && b1.length + b2.length == old(b1.length + b2.length) + 1
      ensures victim in old(Content(cache)) && Content(cache) == old(Content(cache)) - {victim}
      ensures victim in cache && !cache[victim].refbit && Remembers(old(cache), cache) && p == old(p)
      ensures Owned() <= old(Owned())
    {
      hide Divided, Short, Referenced, Content, Linked, Remembers, Touched;
      ClearT2();
      ghost var w1 := cache;
      ClearT1();
      ghost var w2 := cache;
      victim := Evict();
      RemembersTrans(old(cache), w1, w2);
      RemembersMore(old(cache), w2, cache, victim);
      TouchedKey(w2, cache, victim);
    }

    /** The value that was set last, if it is still there. */
    method Get(key: Key) returns (value: Option<Value>)
      requires Valid()
      modifies `cache
      ensures Valid() && Content(cache) == old(Content(cache))
      ensures value == if key in Content(cache) then Some(Content(cache)[key]) else None
      ensures cache == if value.Some? then old(cache)[key := old(cache)[key].(refbit := true)] else old(cache)
    {
      hide Divided, Short, Referenced, Linked;
      if key !in cache || cache[key].value.None? {
        return None;
      }
      value := cache[key].value;
      TouchBits(cache, All(), key, cache[key].(refbit := true));
      cache := cache[key := cache[key].(refbit := true)];
    }

    /** Sets a key that is in the cache. */
    method Hit(key: Key, value: Value)
      requires Valid() && key in cache && cache[key].value.Some?
      modifies `cache
      ensures Valid() && Content(cache) == old(Content(cache))[key := value]
      ensures cache == old(cache)[key := old(cache)[key].(refbit := true, value := Some(value))]
    {
      hide Divided, Short, Referenced, Linked;
      var r := cache[key].(refbit := true, value := Some(value));
      TouchBits(cache, All(), key, r);
      cache := cache[key := r];
    }

    /** Forgets the oldest remembered key. */
    method DropHistory()
      requires Core() && b1.length + b2.length > 0
      modifies `cache, b1, b2, b1.repr, b2.repr
      ensures Core() && b1.length + b2.length == old(b1.length + b2.length) - 1
      ensures Content(cache) == old(Content(cache)) && cache.Keys <= old(cache.Keys) && Owned() <= old(Owned())
      ensures if old(b1.length) > q || old(b2.length) == 0 then b1.elems == old(b1.elems)[1..] && b2.elems == old(b2.elems)
              else b2.elems == old(b2.elems)[1..] && b1.elems == old(b1.elems)
    {
      hide Divided, Short, Referenced, Content, Linked, Without, Distinct;
      ghost var lists, w := All(), cache;
      if b1.length > q || b2.length == 0 {
        var e := b1.front;
        DropFirst(w, lists, B1);
        cache := cache - {e.key};
        b1.RemoveElement(e);
        WithoutFirst(lists[B1]);
        assert All() == lists[B1 := Without(lists[B1], e)];
      } else {
        var e := b2.front;
        DropFirst(w, lists, B2);
        cache := cache - {e.key};
        b2.RemoveElement(e);
        WithoutFirst(lists[B2]);
        assert All() == lists[B2 := Without(lists[B2], e)];
      }
    }

    /** A key that is not known. */
    method AddFresh(key: Key, value: Value)
      requires Valid() && t1.length + t2.length < c && key !in cache
      modifies `cache, `ns, t1, t1.repr
      ensures Valid() && Content(cache) == old(Content(cache))[key := value] && fresh(Owned() - old(Owned()))
      ensures key in cache && t1.elems == old(t1.elems) + [cache[key].e]
      ensures cache == old(cache)[key := CartEntry(cache[key].e, false, false, false, Some(value))]
    {
      hide Divided, Short, Referenced, Linked, Content, Distinct, At;
      ghost var lists, w := All(), cache;
      var e := new Element(key);
      var r := CartEntry(e, false, false, false, Some(value));
      AddLast(w, lists, e, r, value);
      cache := cache[key := r];
      t1.PushBackElement(e);
      ns := ns + 1;
      assert All() == lists[T1 := lists[T1] + [e]];
      assert Lists();
    }

    /** A remembered recent key gets a value again. */
    method ReviveB1(key: Key, value: Value)
      requires Core() && t1.length + t2.length < c && b1.length + b2.length <= c + 1
      requires key in cache && Which(cache[key]) == B1
      modifies `cache, `p, `nl, t1, b1, t1.repr, b1.repr
      ensures Valid() && Content(cache) == old(Content(cache))[key := value] && Owned() <= old(Owned())
      ensures t1.elems == old(t1.elems) + [old(cache)[key].e] && b1.elems == Without(old(b1.elems), old(cache)[key].e)
      ensures cache == old(cache)[key := old(cache)[key].(filterlong := true, value := Some(value), refbit := false)]
      ensures p == Min(old(p) + Max(1, old(ns / b1.length)), c) && b1.length == old(b1.length) - 1
    {
      hide Divided, Short, Referenced, Linked, Content, Without, Distinct, At;
      ghost var lists, w := All(), cache;
      var e := cache[key].e;
      EntryFits(w, lists, key);
      var r := cache[key].(filterlong := true, value := Some(value), refbit := false);
      ReviveStep(w, lists, key, r, value);
      Raise();
      MoveTo(e, b1, t1);
      cache := cache[key := r];
      nl := nl + 1;
      assert All() == Moved(lists, e, B1, T1);
      assert Lists();
    }

    /** A remembered frequent key gets a value again. */
    method ReviveB2(key: Key, value: Value)
      requires Core() && t1.length + t2.length < c && b1.length + b2.length <= c + 1
      requires key in cache && Which(cache[key]) == B2
      modifies `cache, `p, `q, `nl, t1, b2, t1.repr, b2.repr
      ensures Valid() && Content(cache) == old(Content(cache))[key := value] && Owned() <= old(Owned())
      ensures t1.elems == old(t1.elems) + [old(cache)[key].e] && b2.elems == Without(old(b2.elems), old(cache)[key].e)
      ensures cache == old(cache)[key := old(cache)[key].(frequentbit := false, value := Some(value), refbit := false)]
      ensures p == Max(old(p) - Max(1, old(nl / b2.length)), 0) && b2.length == old(b2.length) - 1
      ensures q == if t2.length + b2.length + old(t1.length) - ns >= c then Min(old(q) + 1, 2 * c - old(t1.length)) else old(q)
    {
      hide Divided, Short, Referenced, Linked, Content, Without, Distinct, At;
      ghost var lists, w := All(), cache;
      var e := cache[key].e;
      EntryFits(w, lists, key);
      var r := cache[key].(frequentbit := false, value := Some(value), refbit := false);
      ReviveStep(w, lists, key, r, value);
      Lower();
      Widen(b2.length - 1);
      MoveTo(e, b2, t1);
      cache := cache[key := r];
      nl := nl + 1;
      assert All() == Moved(lists, e, B2, T1);
      assert Lists();
    }

    method Raise()
      requires 0 <= p <= c && b1.length > 0 && ns >= 0
      modifies `p
      ensures 0 <= old(p) <= p <= c && p == Min(old(p) + Max(1, ns / b1.length), c)
    {
      p := Min(p + Max(1, ns / b1.length), c);
    }

    method Lower()
      requires 0 <= p <= c && b2.length > 0 && nl >= 0
      modifies `p
      ensures 0 <= p <= old(p) <= c && p == Max(old(p) - Max(1, nl / b2.length), 0)
    {
      p := Max(p - Max(1, nl / b2.length), 0);
    }

    /** More room among the remembered recent keys, with `n` remembered frequent
        ones. */
    method Widen(n: nat)
      requires q >= 0 && t1.length <= c
      modifies `q
      ensures q >= 0 && q == if t2.length + n + t1.length - ns >= c then Min(old(q) + 1, 2 * c - t1.length) else old(q)
    {
      if t2.length + n + t1.length - ns >= c {
        q := Min(q + 1, 2 * c - t1.length);
      }
    }

    /** Room for one more value in a full cache; a key that is not known may need
        room among the remembered ones, too. */
    method MakeRoom(found: bool) returns (ghost victim: Key)
      requires Valid() && t1.length + t2.length == c && c > 0
      modifies this, t1, t2, b1, b2, t1.repr, t2.repr, b1.repr, b2.repr
      ensures Core() && t1.length + t2.length == c - 1 && b1.length + b2.length <= if found then c + 1 else c
      ensures victim in old(Content(cache)) && Content(cache) == old(Content(cache)) - {victim}
      ensures if found then Remembers(old(cache), cache) else cache.Keys <= old(cache.Keys)
      ensures b1.length + b2.length == if found then old(b1.length + b2.length) + 1 else Min(old(b1.length + b2.length) + 1, c)
      ensures Owned() <= old(Owned()) && p == old(p)
    {
      hide Divided, Short, Referenced, Linked, Content, Distinct;
      victim := Replace();
      if !found && b1.length + b2.length > c {
        DropHistory();
      }
    }

    /** Gives a key a value that it does not have. */
    method Admit(key: Key, value: Value)
      requires Core() && t1.length + t2.length < c
      requires b1.length + b2.length <= if key in cache then c + 1 else c
      requires key in cache ==> cache[key].value.None?
      modifies this, t1, b1, b2, t1.repr, b1.repr, b2.repr
      ensures Valid() && Content(cache) == old(Content(cache))[key := value] && fresh(Owned() - old(Owned()))
      ensures key in cache && t1.elems == old(t1.elems) + [cache[key].e]
      ensures !cache[key].refbit && !cache[key].frequentbit && cache[key].filterlong == (key in old(cache))
      ensures b1.length + b2.length == old(b1.length + b2.length) - if key in old(cache) then 1 else 0
      ensures key !in old(cache) ==> p == old(p) && q == old(q)
      ensures key in old(cache) && !old(cache)[key].frequentbit ==> (p > old(p) || p == c) && q == old(q)
      ensures key in old(cache) && old(cache)[key].frequentbit ==> (p < old(p) || p == 0) && q >= Min(old(q), 2 * c - t1.length)
    {
      hide Divided, Short, Referenced, Linked, Distinct, Remembers, Content, Without, At;
      if key !in cache {
        AddFresh(key, value);
        return;
      }
      EntryFits(cache, All(), key);
      if !cache[key].frequentbit {
        ReviveB1(key, value);
      } else {
        ReviveB2(key, value);
      }
    }

    /** Sets a key.  At most one other key loses its value, and only if the cache
        was full. */
    method Set(key: Key, value: Value) returns (ghost victim: Option<Key>)
      requires Valid()
      modifies this, t1, t2, b1, b2, t1.repr, t2.repr, b1.repr, b2.repr
      ensures Valid() && fresh(Owned() - old(Owned()))
      ensures c == 0 ==> Content(cache) == old(Content(cache))
      ensures c > 0 ==> Content(cache) == Minus(old(Content(cache)), victim)[key := value]
      ensures victim.Some? <==> c > 0 && key !in old(Content(cache)) && old(t1.length + t2.length) == c
      ensures victim.Some? ==> victim.value in old(Content(cache))
      ensures c > 0 && key !in old(Content(cache)) ==>
                && key in cache && t1.elems != [] && t1.elems[|t1.elems| - 1] == cache[key].e
                && !cache[key].refbit && !cache[key].frequentbit && cache[key].filterlong == (key in old(cache))
      ensures c > 0 && key in old(Content(cache)) ==> key in cache && cache[key].refbit
      ensures c > 0 && key !in old(Content(cache)) ==>
                var n := old(b1.length + b2.length) + if victim.Some? then 1 else 0;
                && b1.length + b2.length == (if key in old(cache) then n - 1 else Min(n, c))
                && (key !in old(cache) ==> p == old(p))
                && (key in old(cache) ==> if old(cache)[key].frequentbit then p < old(p) || p == 0 else p > old(p) || p == c)
      ensures c > 0 && key in old(Content(cache)) ==> p == old(p) && b1.length + b2.length == old(b1.length + b2.length)
    {
      hide Divided, Short, Referenced, Linked, Distinct, Remembers, Content, At;
      victim := None;
      if c == 0 {
        return;
      }
      var found := key in cache;
      InContent(cache, key);
      if found && cache[key].value.Some? {
        Hit(key, value);
        return;
      }
      if t1.length + t2.length == c {
        ghost var v := MakeRoom(found);
        victim := Some(v);
        if found {
          RemembersKey(old(cache), cache, key);
        }
      }
      Admit(key, value);
    }
  }

  lemma InContent(cache: Cache, k: Key)
    ensures k in Content(cache) <==> k in cache && cache[k].value.Some?
  {
  }

  ghost function Minus(m: map<Key, Value>, victim: Option<Key>): map<Key, Value> {
    if victim.Some? then m - {victim.value} else m
  }

  lemma {:induction false} ShortAtMost(cache: Cache, s: seq<Element>)
    ensures Short(cache, s) <= |s|
  {
    if s != [] {
      ShortAtMost(cache, s[..|s| - 1]);
    }
  }

  /** A remembered key becomes a recent, long-lived entry. */
  lemma ReviveStep(cache: Cache, lists: seq<seq<Element>>, k: Key, r: CartEntry, value: Value)
    requires Divided(cache, lists) && k in cache && cache[k].value.None? && Distinct(lists[Which(cache[k])])
    requires r.e == cache[k].e && r.value == Some(value) && !r.frequentbit && r.filterlong
    ensures var e, w, cache' := cache[k].e, Which(cache[k]), cache[k := r];
            && e.key == k && Divided(cache', Moved(lists, e, w, T1))
            && Short(cache', lists[T1] + [e]) == Short(cache, lists[T1]) <= |lists[T1]|
            && Content(cache') == Content(cache)[k := value]
            && e in lists[w] && |Without(lists[w], e)| == |lists[w]| - 1
  {
    hide Short, Referenced, Content, Without;
    var e, w := cache[k].e, Which(cache[k]);
    EntryFits(cache, lists, k);
    DividedMove(cache, lists, e, w, T1, r);
    CountApart(cache, lists, e, w, T1, r);
    CountLast(cache[k := r], lists[T1], e);
    ContentMore(cache, k, r, value);
    WithoutLess(lists[w], e);
    ShortAtMost(cache, lists[T1]);
  }

  lemma RemembersKey(cache: Cache, cache': Cache, k: Key)
    requires Remembers(cache, cache')
    ensures k in cache <==> k in cache'
    ensures k in cache && cache[k].value.None? ==> cache'[k] == cache[k]
  {
  }

  /** Bits that no list depends on may change. */
  lemma TouchBits(cache: Cache, lists: seq<seq<Element>>, k: Key, r: CartEntry)
    requires Divided(cache, lists) && k in cache && r.e == cache[k].e && r.filterlong == cache[k].filterlong
    requires r.frequentbit == cache[k].frequentbit && r.value.Some? == cache[k].value.Some?
    ensures Divided(cache[k := r], lists) && Short(cache[k := r], lists[T1]) == Short(cache, lists[T1])
  {
    var cache' := cache[k := r];
    forall w, e | 0 <= w < 4 && e in lists[w] ensures Fits(cache', e, w) {
      assert Fits(cache, e, w);
    }
    ShortSame(cache, cache', lists[T1]);
  }

  lemma {:induction false} ShortSame(cache: Cache, cache': Cache, s: seq<Element>)
    requires forall e :: e in s ==> IsShort(cache', e) == IsShort(cache, e)
    ensures Short(cache', s) == Short(cache, s)
  {
    if s != [] {
      ShortSame(cache, cache', s[..|s| - 1]);
    }
  }

  lemma EntryFits(cache: Cache, lists: seq<seq<Element>>, k: Key)
    requires Divided(cache, lists) && k in cache
    ensures cache[k].e.key == k && cache[k].e in lists[Which(cache[k])] && Fits(cache, cache[k].e, Which(cache[k]))
  {
  }

  lemma ContentMore(cache: Cache, k: Key, r: CartEntry, value: Value)
    requires r.value == Some(value)
    ensures Content(cache[k := r]) == Content(cache)[k := value]
  {
  }

  /** Forgetting the first of a list of remembered keys. */
  lemma DropFirst(cache: Cache, lists: seq<seq<Element>>, w: nat)
    requires Divided(cache, lists) && B1 <= w < 4 && lists[w] != [] && Distinct(lists[w])
    ensures var e := lists[w][0];
            var cache' := cache - {e.key};
            && e.key in cache && Divided(cache', lists[w := Without(lists[w], e)])
            && Short(cache', lists[T1]) == Short(cache, lists[T1]) && Content(cache') == Content(cache)
  {
    hide Without;
    var e := lists[w][0];
    var cache', lists' := cache - {e.key}, lists[w := Without(lists[w], e)];
    WithoutLess(lists[w], e);
    assert Fits(cache, e, w);
    forall v, x | 0 <= v < 4 && x in lists'[v] ensures Fits(cache', x, v) {
      RestIn(cache, lists, e, w, v, x);
    }
    forall k | k in cache' ensures cache'[k].e.key == k && cache'[k].e in lists'[Which(cache'[k])] {
      assert cache[k].e != e;
    }
    forall x | x in lists[T1] ensures IsShort(cache', x) == IsShort(cache, x) {
      assert Fits(cache, x, T1);
    }
    ShortSame(cache, cache', lists[T1]);
  }

  /** A new entry at the end of the recent ones. */
  lemma AddLast(cache: Cache, lists: seq<seq<Element>>, e: Element, r: CartEntry, value: Value)
    requires Divided(cache, lists) && e.key !in cache && r == CartEntry(e, false, false, false, Some(value))
    ensures var cache' := cache[e.key := r];
            && Divided(cache', lists[T1 := lists[T1] + [e]])
            && Short(cache', lists[T1] + [e]) == Short(cache, lists[T1]) + 1
            && Content(cache') == Content(cache)[e.key := value]
  {
    var cache', lists' := cache[e.key := r], lists[T1 := lists[T1] + [e]];
    forall v, x | 0 <= v < 4 && x in lists'[v] ensures Fits(cache', x, v) {
      if x in lists[v] {
        assert Fits(cache, x, v);
      }
    }
    forall k | k in cache' ensures cache'[k].e.key == k && cache'[k].e in lists'[Which(cache'[k])] {
    }
    forall x | x in lists[T1] ensures IsShort(cache', x) == IsShort(cache, x) {
      assert Fits(cache, x, T1);
    }
    ShortSame(cache, cache', lists[T1]);
    CountLast(cache', lists[T1], e);
  }

  lemma TouchedKey(cache: Cache, cache': Cache, k: Key)
    requires Touched(cache, cache', k)
    ensures k in cache'
  {
  }

  /** Keys without a value are as they were. */
  ghost predicate Remembers(cache: Cache, cache': Cache) {
    cache'.Keys == cache.Keys && forall k :: k in cache && cache[k].value.None? ==> cache'[k] == cache[k]
  }

  lemma RemembersTrans(a: Cache, b: Cache, c: Cache)
    requires Remembers(a, b) && Remembers(b, c)
    ensures Remembers(a, c)
  {
  }

  lemma RemembersMore(a: Cache, b: Cache, c: Cache, k: Key)
    requires Remembers(a, b) && Touched(b, c, k) && b[k].value.Some?
    ensures Remembers(a, c)
  {
  }

  /** Only one entry may have changed. */
  ghost predicate Touched(cache: Cache, cache': Cache, k: Key) {
    k in cache && cache'.Keys == cache.Keys && forall x :: x in cache && x != k ==> cache'[x] == cache[x]
  }

  lemma ContentLess(cache: Cache, k: Key, r: CartEntry)
    requires k in cache && cache[k].value.Some? && r.value.None?
    ensures k in Content(cache) && Content(cache[k := r]) == Content(cache) - {k}
  {
  }

  lemma FrontFits(lists: seq<seq<Element>>, cache: Cache, w: nat, e: Element)
    requires Divided(cache, lists) && w < 4 && lists[w] != [] && e == lists[w][0]
    ensures Fits(cache, e, w)
  {
  }
}
