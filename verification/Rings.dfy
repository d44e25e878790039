/**
 * Intrusive circular doubly linked lists (common/include/list.h).
 *
 * A `Link` is a `list_head` together with the record it is embedded in: `item` is what
 * `container_of` finds. A ring is described by the sequence of its links, in `next` order,
 * starting anywhere.
 */
module Rings {

  class Link<T(0)> {
    var next: Link?<T>
    var prev: Link?<T>
    var item: T

    // an element starts out alone on its own ring
    constructor (item: T)
      ensures IsRing([this]) && this.item == item
    {
      next, prev := this, this;
      this.item := item;
    }
  }

  ghost function Elements<X>(s: seq<X>): set<X> {
    set x | x in s
  }

  /** No element stands in the sequence twice. */
  ghost predicate Distinct<X>(s: seq<X>) {
    s != [] ==> s[|s| - 1] !in s[..|s| - 1] && Distinct(s[..|s| - 1])
  }

  ghost predicate Pairwise<X>(s: seq<X>) {
    forall i, j :: 0 <= i < j < |s| ==> s[i] != s[j]
  }

  lemma {:induction false} DistinctMeans<X>(s: seq<X>)
    ensures Distinct(s) <==> Pairwise(s)
  {
    if s != [] {
      DistinctMeans(s[..|s| - 1]);
    }
  }

  /** The element that follows position `k` on the ring. */
  function After<X>(s: seq<X>, k: nat): X
    requires k < |s|
  {
    if k + 1 < |s| then s[k + 1] else s[0]
  }

  /** The first `k` links of `s` lead to their successors and back, and are distinct. */
  ghost predicate Linked<T(0)>(s: seq<Link<T>>, k: nat)
    requires k <= |s|
    reads s`next, s`prev
  {
    k > 0 ==>
      && s[k - 1].next == After(s, k - 1) && After(s, k - 1).prev == s[k - 1]
      && s[k - 1] !in s[..k - 1] && Linked(s, k - 1)
  }

  ghost predicate IsRing<T(0)>(s: seq<Link<T>>)
    reads s`next, s`prev
  {
    s != [] && Linked(s, |s|)
  }

  ghost predicate Closed<T(0)>(s: seq<Link<T>>)
    reads s`next, s`prev
  {
    && s != [] && Pairwise(s)
    && (forall i {:trigger s[i].next} :: 0 <= i < |s| - 1 ==> s[i].next == s[i + 1])
    && (forall i {:trigger s[i].prev} :: 0 < i < |s| ==> s[i].prev == s[i - 1])
    && s[|s| - 1].next == s[0] && s[0].prev == s[|s| - 1]
  }

  /** A ring, spelled out. */
  lemma RingMeans<T(0)>(s: seq<Link<T>>)
    ensures IsRing(s) <==> Closed(s)
  {
    LinkedMeans(s, |s|);
    assert s[..|s|] == s;
    if IsRing(s) {
      forall i | 0 <= i < |s|
        ensures s[i].next == After(s, i) && s[i].prev == s[if i > 0 then i - 1 else |s| - 1]
      {
        assert After(s, if i > 0 then i - 1 else |s| - 1) == s[i];
      }
    }
  }

  lemma PairwiseLast<X>(s: seq<X>, k: nat)
    requires 0 < k <= |s|
    ensures Pairwise(s[..k]) <==> Pairwise(s[..k - 1]) && s[k - 1] !in s[..k - 1]
  {
    var a, b := s[..k], s[..k - 1];
    assert forall i :: 0 <= i < |b| ==> b[i] == a[i];
    assert a[k - 1] == s[k - 1];
  }

  lemma {:induction false} LinkedMeans<T(0)>(s: seq<Link<T>>, k: nat)
    requires k <= |s|
    ensures Linked(s, k) <==> Pairwise(s[..k]) && forall i {:trigger s[i].next} {:trigger s[i].prev} {:trigger After(s, i)} :: 0 <= i < k ==>
      s[i].next == After(s, i) && After(s, i).prev == s[i]
  {
    if k > 0 {
      LinkedMeans(s, k - 1);
      PairwiseLast(s, k);
    }
  }

  /** list_init */
  method ListInit<T(0)>(head: Link<T>)
    modifies head`next, head`prev
    ensures IsRing([head])
  {
    head.next := head;
    head.prev := head;
  }

  /** The ring `s` with `e` placed directly behind position `k`. */
  function Spliced<X>(s: seq<X>, k: nat, e: X): (r: seq<X>)
    requires k < |s|
    ensures |r| == |s| + 1
    ensures r[k + 1] == e
    ensures forall i :: 0 <= i < |r| && i != k + 1 ==> r[i] == s[if i <= k then i else i - 1]
  {
    s[..k + 1] + [e] + s[k + 1..]
  }

  lemma SplicedElements<X>(s: seq<X>, k: nat, e: X)
    requires k < |s|
    ensures Elements(Spliced(s, k, e)) == Elements(s) + {e}
  {
    var r := Spliced(s, k, e);
    assert r[k + 1] == e;
    forall x | x in s
      ensures x in r
    {
      var i :| 0 <= i < |s| && s[i] == x;
      assert r[if i <= k then i else i + 1] == x;
    }
  }

  /** __list_add: put `element` between two neighbours. */
  method ListAddBetween<T(0)>(prev: Link<T>, next: Link<T>, element: Link<T>, ghost s: seq<Link<T>>, ghost k: nat)
    requires Closed(s) && k < |s| && prev == s[k] && next == After(s, k)
    requires element !in s
    modifies prev`next, next`prev, element`next, element`prev
    ensures Closed(Spliced(s, k, element))
  {
    element.prev := prev;
    element.next := next;
    prev.next := element;
    next.prev := element;
  }

  /** list_add: directly behind `head`. */
  method ListAdd<T(0)>(head: Link<T>, element: Link<T>, ghost s: seq<Link<T>>, ghost k: nat)
    requires IsRing(s) && k < |s| && head == s[k]
    requires element !in s
    modifies s`next, s`prev, element`next, element`prev
    ensures IsRing(Spliced(s, k, element))
  {
    RingMeans(s);
    ListAddBetween(head, head.next, element, s, k);
    RingMeans(Spliced(s, k, element));
  }

  /** list_add_tail: directly before `head`; with the head at position 0 the element ends up last. */
  method ListAddTail<T(0)>(head: Link<T>, element: Link<T>, ghost s: seq<Link<T>>)
    requires IsRing(s) && head == s[0]
    requires element !in s
    modifies s`next, s`prev, element`next, element`prev
    ensures IsRing(s + [element])
  {
    RingMeans(s);
    ListAddBetween(head.prev, head, element, s, |s| - 1);
    assert Spliced(s, |s| - 1, element) == s + [element];
    RingMeans(s + [element]);
  }

  /** The ring `s` without position `k`. */
  function Without<X>(s: seq<X>, k: nat): (r: seq<X>)
    requires k < |s|
    ensures |r| == |s| - 1
    ensures forall i :: 0 <= i < |r| ==> r[i] == s[if i < k then i else i + 1]
  {
    s[..k] + s[k + 1..]
  }

  lemma WithoutDistinct<X>(s: seq<X>, k: nat)
    requires k < |s| && Pairwise(s)
    ensures Pairwise(Without(s, k))
    ensures Elements(Without(s, k)) == Elements(s) - {s[k]}
  {
    var r := Without(s, k);
    forall x | x in s && x != s[k]
      ensures x in r
    {
      var i :| 0 <= i < |s| && s[i] == x;
      assert r[if i < k then i else i - 1] == x;
    }
    assert forall i :: 0 <= i < |r| ==> r[i] == s[if i < k then i else i + 1];
  }

  /** __list_del: the two neighbours of an element link to each other; alone on its ring, it is both of them. */
  method ListDelBetween<T(0)>(prev: Link<T>, next: Link<T>, ghost s: seq<Link<T>>, ghost k: nat)
    requires Closed(s) && k < |s| && next == After(s, k) && prev == s[if k > 0 then k - 1 else |s| - 1]
    modifies prev`next, next`prev
    ensures Without(s, k) == [] || Closed(Without(s, k))
    ensures s[k].next == old(s[k].next) && s[k].prev == old(s[k].prev)
  {
    prev.next := next;
    next.prev := prev;
  }

  /** list_del: what stays behind, if anything, is the ring without the element. */
  method ListDel<T(0)>(element: Link<T>, ghost s: seq<Link<T>>, ghost k: nat)
    requires IsRing(s) && k < |s| && element == s[k]
    modifies s`next, s`prev
    ensures element.next == null && element.prev == null
    ensures Without(s, k) == [] || IsRing(Without(s, k))
  {
    RingMeans(s);
    ListDelBetween(element.prev, element.next, s, k);
    RingMeans(Without(s, k));
    WithoutDistinct(s, k);
    assert element !in Elements(Without(s, k));
    element.next := null;
    element.prev := null;
  }

  /** list_foreach from any link visits each element of the ring once and stops. */
  method ListForeach<T(0)>(head: Link<T>, ghost s: seq<Link<T>>, ghost k: nat) returns (visited: seq<Link<T>>)
    requires IsRing(s) && k < |s| && head == s[k]
    ensures visited == s[k..] + s[..k]
  {
    RingMeans(s);
    visited := [head];
    var pos := head.next;
    ghost var all := s[k..] + s[..k];
    while pos != head
      invariant 1 <= |visited| <= |s|
      invariant visited == all[..|visited|]
      invariant pos == all[if |visited| == |s| then 0 else |visited|]
      decreases |s| - |visited|
    {
      visited := visited + [pos];
      pos := pos.next;
    }
  }
}
