/** The doubly linked list whose elements are part of the entries they link. */
module EntryList {
  import opened Keys

  class Element {
    const key: Key
    var prev: Element?
    var next: Element?

    constructor (key: Key)
      ensures this.key == key && prev == null && next == null
    {
      this.key, prev, next := key, null, null;
    }
  }

  ghost predicate Distinct(s: seq<Element>) {
    forall i, j :: 0 <= i < j < |s| ==> s[i] != s[j]
  }

  ghost function At(s: seq<Element>, i: int): Element? {
    if 0 <= i < |s| then s[i] else null
  }

  class EntryList {
    var front: Element?
    var back: Element?
    var length: nat
    ghost var elems: seq<Element>
    ghost var repr: set<Element>

    ghost predicate Valid()
      reads this, repr
    {
      && repr == (set e | e in elems)
      && Distinct(elems) && length == |elems|
      && front == At(elems, 0) && back == At(elems, |elems| - 1)
      && forall i :: 0 <= i < |elems| ==> Linked(elems, i)
    }

    constructor ()
      ensures Valid() && elems == [] && repr == {}
    {
      front, back, length, elems, repr := null, null, 0, [], {};
    }

    method PushBackElement(e: Element)
      requires Valid() && e !in repr
      modifies this, e, repr
      ensures Valid() && elems == old(elems) + [e] && repr == old(repr) + {e}
    {
      ghost var s := elems;
      PushedAt(s, e);
      hide At, Distinct;
      e.next := null;
      e.prev := back;
      if back != null {
        back.next := e;
      }
      if front == null {
        front := e;
      }
      back := e;
      length := length + 1;
      elems := s + [e];
      repr := repr + {e};
      forall i | 0 <= i < |elems| ensures Linked(elems, i) {
        assert i < |s| ==> old(Linked(s, i)) && elems[i] == s[i];
      }
    }

    method RemoveElement(e: Element)
      requires Valid() && e in repr
      modifies this, repr
      ensures Valid() && elems == Without(old(elems), e) && repr == old(repr) - {e}
    {
      hide At, Linked, Distinct, Without, PrevOk, PrevSkips, NextSkips;
      ghost var k :| 0 <= k < |elems| && elems[k] == e;
      ghost var s := elems;
      WithoutAt(s, k);
      RemovedDistinct(s, k);
      RemovedIndex(s, k, 0);
      RemovedIndex(s, k, |s| - 2);
      SkipNext(e, k);
      SkipPrev(e, k);
      length := length - 1;
      elems := s[..k] + s[k + 1..];
      repr := repr - {e};
      forall i | 0 <= i < |elems| ensures Linked(elems, i) {
        RemovedLink(s, k, i);
      }
    }

    /** Makes what is before element `k` refer to what is behind it. */
    method SkipNext(e: Element, ghost k: nat)
      requires Valid() && k < |elems| && elems[k] == e
      modifies this`front, repr`next
      ensures front == At(elems, if k == 0 then 1 else 0)
      ensures forall i :: 0 <= i < |elems| ==> NextSkips(elems, i, k) && PrevOk(elems, i)
      ensures e.next == At(elems, k + 1)
    {
      ghost var s := elems;
      assert Linked(s, k);
      if e.prev != null {
        e.prev.next := e.next;
      } else {
        front := e.next;
      }
      forall i | 0 <= i < |s| ensures NextSkips(s, i, k) && PrevOk(s, i) {
        assert old(Linked(s, i)) && s[i] == At(s, i);
      }
    }

    /** Makes what is behind element `k` refer to what is before it. */
    method SkipPrev(e: Element, ghost k: nat)
      requires k < |elems| && elems[k] == e && Distinct(elems) && back == At(elems, |elems| - 1)
      requires repr == set x | x in elems
      requires e.next == At(elems, k + 1) && forall i :: 0 <= i < |elems| ==> NextSkips(elems, i, k) && PrevOk(elems, i)
      modifies this`back, repr`prev
      ensures back == At(elems, if k == |elems| - 1 then k - 1 else |elems| - 1)
      ensures forall i :: 0 <= i < |elems| ==> NextSkips(elems, i, k) && PrevSkips(elems, i, k)
    {
      ghost var s := elems;
      assert PrevOk(s, k);
      if e.next != null {
        e.next.prev := e.prev;
      } else {
        back := e.prev;
      }
      forall i | 0 <= i < |s| ensures NextSkips(s, i, k) && PrevSkips(s, i, k) {
        assert old(NextSkips(s, i, k) && PrevOk(s, i)) && s[i] == At(s, i);
      }
    }
  }

  lemma PushedAt(s: seq<Element>, e: Element)
    requires Distinct(s) && e !in s
    ensures var r := s + [e];
            && Distinct(r) && At(r, 0) == (if s == [] then e else At(s, 0)) && At(r, |s|) == e && At(r, |s| + 1) == null
            && At(r, -1) == null && At(s, -1) == null
            && (forall i :: 0 <= i < |s| ==> At(r, i) == At(s, i) == s[i] == r[i])
            && r[|s|] == e && (s == [] <==> At(s, |s| - 1) == null) && (s == [] <==> At(s, 0) == null)
  {
  }

  /** The elements that are left, by where they were. */
  lemma RemovedIndex(s: seq<Element>, k: nat, j: int)
    requires k < |s|
    ensures At(s[..k] + s[k + 1..], j) == At(s, if j < k then j else j + 1)
  {
  }

  lemma RemovedDistinct(s: seq<Element>, k: nat)
    requires Distinct(s) && k < |s|
    ensures Distinct(s[..k] + s[k + 1..]) && forall i :: 0 <= i < |s| && i != k ==> s[i] != s[k]
  {
  }

  ghost predicate Linked(s: seq<Element>, i: int)
    reads s
  {
    0 <= i < |s| ==> s[i].prev == At(s, i - 1) && s[i].next == At(s, i + 1)
  }

  ghost predicate PrevOk(s: seq<Element>, i: int)
    reads s
  {
    0 <= i < |s| ==> s[i].prev == At(s, i - 1)
  }

  /** The link back does not lead to element `k`, but to the one before it. */
  ghost predicate PrevSkips(s: seq<Element>, i: int, k: int)
    reads s
  {
    0 <= i < |s| ==> s[i].prev == At(s, if i == k + 1 then k - 1 else i - 1)
  }

  ghost predicate NextSkips(s: seq<Element>, i: int, k: int)
    reads s
  {
    0 <= i < |s| ==> s[i].next == At(s, if i == k - 1 then k + 1 else i + 1)
  }

  lemma RemovedLink(s: seq<Element>, k: nat, i: nat)
    requires k < |s| && i < |s| - 1
    requires forall j :: 0 <= j < |s| ==> NextSkips(s, j, k) && PrevSkips(s, j, k)
    ensures Linked(s[..k] + s[k + 1..], i)
  {
    hide At;
    RemovedIndex(s, k, i - 1);
    RemovedIndex(s, k, i + 1);
    var j := if i < k then i else i + 1;
    assert NextSkips(s, j, k) && PrevSkips(s, j, k);
    if i < k {
      assert (s[..k] + s[k + 1..])[i] == s[i];
    } else {
      assert (s[..k] + s[k + 1..])[i] == s[i + 1];
    }
  }

  ghost function Without(s: seq<Element>, e: Element): seq<Element> {
    if s == [] then [] else if s[0] == e then s[1..] else [s[0]] + Without(s[1..], e)
  }

  lemma {:induction false} WithoutAt(s: seq<Element>, k: nat)
    requires Distinct(s) && k < |s|
    ensures Without(s, s[k]) == s[..k] + s[k + 1..]
  {
    if k > 0 {
      assert s[1..][k - 1] == s[k];
      WithoutAt(s[1..], k - 1);
      assert s[0] != s[k];
    }
  }
}
