/**
 The doubly linked list of common/list.c.

 An `Element` is the header that precedes every user datum; the C functions pass the address of
 the datum, which is the header's address plus a constant, so both are one reference here.
 `elems` is the ghost sequence that the links are proved to represent.
 */
module LinkedList {
  import opened Sequences

  /** `struct list_element`, with the user datum behind it. */
  class Element {
    var prev: Element?
    var next: Element?
    var host: List
    var datum: object?

    /** `list_allocate`; intent: the header is returned. */
    constructor (host: List)
      ensures this.host == host && prev == null && next == null && datum == null
    {
      this.host := host;
      prev, next, datum := null, null, null;
    }
  }

  ghost predicate Distinct(s: seq<Element>) {
    forall i, j :: 0 <= i < j < |s| ==> s[i] != s[j]
  }

  /** The links of the elements of `s` follow the order of `s`. */
  ghost predicate Chained(s: seq<Element>)
    reads s
  {
    && (forall i {:trigger s[i].prev} :: 0 <= i < |s| ==> s[i].prev == if i == 0 then null else s[i - 1])
    && (forall i {:trigger s[i].next} :: 0 <= i < |s| ==> s[i].next == if i == |s| - 1 then null else s[i + 1])
  }

  lemma StillDistinct(s: seq<Element>, k: nat)
    requires k < |s| && Distinct(s)
    ensures Distinct(Without(s, k))
    ensures forall i :: 0 <= i < |s| - 1 ==> Without(s, k)[i] == if i < k then s[i] else s[i + 1]
  {
    var r := Without(s, k);
    assert forall i :: 0 <= i < |r| ==> r[i] == if i < k then s[i] else s[i + 1];
  }

  /** `struct list` */
  class List {
    var count: nat
    var first: Element?
    var last: Element?
    ghost var elems: seq<Element>

    ghost predicate Valid()
      reads this, elems
    {
      && count == |elems|
      && first == (if elems == [] then null else elems[0])
      && last == (if elems == [] then null else elems[|elems| - 1])
      && Distinct(elems)
      && Chained(elems)
      && (forall i {:trigger elems[i].host} :: 0 <= i < |elems| ==> elems[i].host == this)
    }

    /** `list_init` */
    constructor ()
      ensures Valid() && elems == []
    {
      count, first, last := 0, null, null;
      elems := [];
    }

    /** `list_append` */
    method Append() returns (le: Element)
      requires Valid()
      modifies this, elems
      ensures Valid() && fresh(le) && elems == old(elems) + [le]
      ensures le.datum == null && forall i :: 0 <= i < |old(elems)| ==> old(elems)[i].datum == old(elems[i].datum)
    {
      le := new Element(this);
      le.next := null;
      count := count + 1;
      if count == 1 {
        le.prev := null;
        first, last := le, le;
      } else {
        le.prev := last;
        last.next := le;
        last := le;
      }
      elems := elems + [le];
    }

    /** `list_prepend` */
    method Prepend() returns (le: Element)
      requires Valid()
      modifies this, elems
      ensures Valid() && fresh(le) && elems == [le] + old(elems)
      ensures le.datum == null && forall i :: 0 <= i < |old(elems)| ==> old(elems)[i].datum == old(elems[i].datum)
    {
      le := new Element(this);
      le.prev := null;
      count := count + 1;
      if count == 1 {
        le.next := null;
        first, last := le, le;
      } else {
        le.next := first;
        first.prev := le;
        first := le;
      }
      elems := [le] + elems;
    }

    /** The neighbours of `el` are joined. */
    method Bypass(el: Element, ghost k: nat)
      requires Valid() && k < |elems| && elems[k] == el
      modifies elems`prev, elems`next
      ensures Chained(Without(elems, k))
    {
      var next, prev := el.next, el.prev;
      if next != null { next.prev := prev; }
      if prev != null { prev.next := next; }
      ghost var s := Without(elems, k);
      assert forall i :: 0 <= i < |s| ==> s[i] == if i < k then elems[i] else elems[i + 1];
    }

    /** The body that the three removals of list.c share. */
    method Unlink(el: Element, ghost k: nat)
      requires Valid() && k < |elems| && elems[k] == el
      modifies this, elems`prev, elems`next
      ensures Valid() && elems == Without(old(elems), k)
    {
      var next, prev := el.next, el.prev;
      Bypass(el, k);
      ghost var s := Without(elems, k);
      StillDistinct(elems, k);
      count := count - 1;
      if count == 0 {
        first, last := null, null;
      } else if el == last {
        last := prev;
      } else if el == first {
        first := next;
      }
      elems := s;
    }

    /** `list_remove_next`: the right neighbour is returned; an element of another list is refused. */
    method RemoveNext(el: Element) returns (p: Element?, ghost k: nat)
      requires Valid() && (el.host == this ==> el in elems)
      modifies this, elems`prev, elems`next
      ensures Valid()
      ensures el.host != this ==> elems == old(elems) && p == null
      ensures el.host == this ==> k < |old(elems)| && el == old(elems)[k] && elems == Without(old(elems), k)
      ensures el.host == this ==> p == if k + 1 < |old(elems)| then old(elems)[k + 1] else null
    {
      k := 0;
      if el.host != this { return null, 0; }
      k :| 0 <= k < |elems| && elems[k] == el;
      p := el.next;
      Unlink(el, k);
    }

    /** `list_remove_prev`: the left neighbour is returned. */
    method RemovePrev(el: Element) returns (p: Element?, ghost k: nat)
      requires Valid() && (el.host == this ==> el in elems)
      modifies this, elems`prev, elems`next
      ensures Valid()
      ensures el.host != this ==> elems == old(elems) && p == null
      ensures el.host == this ==> k < |old(elems)| && el == old(elems)[k] && elems == Without(old(elems), k)
      ensures el.host == this ==> p == if k == 0 then null else old(elems)[k - 1]
    {
      k := 0;
      if el.host != this { return null, 0; }
      k :| 0 <= k < |elems| && elems[k] == el;
      p := el.prev;
      Unlink(el, k);
    }

    /** `list_remove_element` */
    method RemoveElement(el: Element) returns (ghost k: nat)
      requires Valid() && (el.host == this ==> el in elems)
      modifies this, elems`prev, elems`next
      ensures Valid()
      ensures el.host != this ==> elems == old(elems)
      ensures el.host == this ==> k < |old(elems)| && el == old(elems)[k] && elems == Without(old(elems), k)
    {
      k := 0;
      if el.host != this { return 0; }
      k :| 0 <= k < |elems| && elems[k] == el;
      Unlink(el, k);
    }

    /** Following `list_next_element` from `list_first_element` yields the sequence. */
    method Forward() returns (s: seq<Element>)
      requires Valid()
      ensures s == elems
    {
      s := [];
      var e := first;
      while e != null
        invariant |s| <= |elems| && s == elems[..|s|]
        invariant e == if |s| < |elems| then elems[|s|] else null
        decreases |elems| - |s|
      {
        s := s + [e];
        e := e.next;
      }
    }

    /** Following `list_prev_element` from `list_last_element` yields its reverse. */
    method Backward() returns (s: seq<Element>)
      requires Valid()
      ensures |s| == |elems| && forall i :: 0 <= i < |s| ==> s[i] == elems[|elems| - 1 - i]
    {
      s := [];
      var e := last;
      while e != null
        invariant |s| <= |elems| && forall i :: 0 <= i < |s| ==> s[i] == elems[|elems| - 1 - i]
        invariant e == if |s| < |elems| then elems[|elems| - 1 - |s|] else null
        decreases |elems| - |s|
      {
        s := s + [e];
        e := e.prev;
      }
    }
  }
}
