/** The doubly linked list of list.c.  An element is the link part at the head of the structure
    it chains. */
module LinkedList {

  class Elem {
    var next: Elem?
    var prev: Elem?

    constructor ()
    {
      next, prev := null, null;
    }
  }

  /** The element at `k`, null outside the sequence. */
  function At(s: seq<Elem>, k: int): Elem? {
    if 0 <= k < |s| then s[k] else null
  }

  ghost predicate Distinct(s: seq<Elem>) {
    forall i, j | 0 <= i < j < |s| :: s[i] != s[j]
  }

  /** Both links of every element lead to its neighbours in `s`. */
  ghost predicate Linked(s: seq<Elem>)
    reads s
  {
    forall k | 0 <= k < |s| :: s[k].next == At(s, k + 1) && s[k].prev == At(s, k - 1)
  }

  function Inserted(s: seq<Elem>, at: nat, e: Elem): seq<Elem>
    requires at <= |s|
  {
    s[..at] + [e] + s[at..]
  }

  function Removed(s: seq<Elem>, at: nat): seq<Elem>
    requires at < |s|
  {
    s[..at] + s[at + 1..]
  }

  lemma InsertedAt(s: seq<Elem>, at: nat, e: Elem, k: int)
    requires at <= |s|
    ensures At(Inserted(s, at, e), k) == if k < at then At(s, k) else if k == at then e else At(s, k - 1)
    ensures |Inserted(s, at, e)| == |s| + 1
  {
  }

  lemma RemovedAt(s: seq<Elem>, at: nat, k: int)
    requires at < |s|
    ensures At(Removed(s, at), k) == if k < at then At(s, k) else At(s, k + 1)
    ensures |Removed(s, at)| == |s| - 1
  {
  }

  /** The links with `e` put in before position `at`, told by the sequence without it. */
  ghost predicate Spliced(s: seq<Elem>, at: nat, e: Elem)
    requires at <= |s|
    reads s, e
  {
    && e.next == At(s, at) && e.prev == At(s, at - 1)
    && (forall k | 0 <= k < |s| :: s[k].next == if k == at - 1 then e else At(s, k + 1))
    && (forall k | 0 <= k < |s| :: s[k].prev == if k == at then e else At(s, k - 1))
  }

  lemma SplicedLinked(s: seq<Elem>, at: nat, e: Elem)
    requires at <= |s| && Distinct(s) && e !in s && Spliced(s, at, e)
    ensures Linked(Inserted(s, at, e)) && Distinct(Inserted(s, at, e))
  {
    var t := Inserted(s, at, e);
    InsertedAt(s, at, e, 0);
    forall k | 0 <= k < |t|
      ensures t[k].next == At(t, k + 1) && t[k].prev == At(t, k - 1)
    {
      InsertedAt(s, at, e, k);
      InsertedAt(s, at, e, k + 1);
      InsertedAt(s, at, e, k - 1);
      hide Inserted, Distinct;
    }
    assert Distinct(t) by {
      hide Spliced;
    }
  }

  /** The links without the element at `at`, told by the sequence with it. */
  ghost predicate Bypassed(s: seq<Elem>, at: nat)
    requires at < |s|
    reads s
  {
    && (forall k | 0 <= k < |s| && k != at :: s[k].next == if k == at - 1 then At(s, at + 1) else At(s, k + 1))
    && (forall k | 0 <= k < |s| && k != at :: s[k].prev == if k == at + 1 then At(s, at - 1) else At(s, k - 1))
  }

  lemma BypassedLinked(s: seq<Elem>, at: nat)
    requires at < |s| && Distinct(s) && Bypassed(s, at)
    ensures Linked(Removed(s, at)) && Distinct(Removed(s, at))
  {
    var t := Removed(s, at);
    RemovedAt(s, at, 0);
    forall k | 0 <= k < |t|
      ensures t[k].next == At(t, k + 1) && t[k].prev == At(t, k - 1)
    {
      RemovedAt(s, at, k);
      RemovedAt(s, at, k + 1);
      RemovedAt(s, at, k - 1);
      hide Removed, Distinct;
    }
    assert Distinct(t) by {
      hide Bypassed;
    }
  }

  class List {
    var head: Elem?
    var tail: Elem?
    var count: int
    ghost var elems: seq<Elem>

    ghost predicate Valid()
      reads this, elems
    {
      && head == At(elems, 0) && tail == At(elems, |elems| - 1) && count == |elems|
      && Distinct(elems) && Linked(elems)
    }

    constructor ()
      ensures Valid() && elems == []
    {
      head, tail, count, elems := null, null, 0, [];
    }

    /** `List_Insert_Before`; without an old element the new one becomes the head. */
    method InsertBefore(oldElem: Elem?, newElem: Elem, ghost at: nat)
      requires Valid() && newElem !in elems
      requires if oldElem == null then at == 0 else at < |elems| && elems[at] == oldElem
      modifies this, elems, newElem
      ensures Valid() && elems == Inserted(old(elems), at, newElem)
    {
      hide Inserted, Spliced, Distinct, Linked;
      ghost var s := elems;
      count := count + 1;
      OnlyAt(s, 0, at);
      OnlyAt(s, at, 0);
      if oldElem == head || oldElem == null {
        PutFirst(newElem, s);
      } else {
        LinkOf(s, at);
        var prev := oldElem.prev;
        PutBetween(prev, oldElem, newElem, s, at);
      }
      Grow(s, at, newElem);
    }

    /** `List_Insert_After`; without an element the new one becomes the tail. */
    method InsertAfter(elem: Elem?, newElem: Elem, ghost at: nat)
      requires Valid() && newElem !in elems
      requires if elem == null then at == |elems| else 1 <= at <= |elems| && elems[at - 1] == elem
      modifies this, elems, newElem
      ensures Valid() && elems == Inserted(old(elems), at, newElem)
    {
      hide Inserted, Spliced, Distinct, Linked;
      ghost var s := elems;
      count := count + 1;
      OnlyAt(s, |s| - 1, at - 1);
      OnlyAt(s, at - 1, |s| - 1);
      if elem == tail || elem == null {
        PutLast(newElem, s);
      } else {
        LinkOf(s, at - 1);
        var next := elem.next;
        PutBetween(elem, next, newElem, s, at);
      }
      Grow(s, at, newElem);
    }

    /** The new head. */
    method PutFirst(newElem: Elem, ghost s: seq<Elem>)
      requires Distinct(s) && Linked(s) && newElem !in s && head == At(s, 0) && tail == At(s, |s| - 1)
      modifies `head, `tail, s, newElem
      ensures Spliced(s, 0, newElem)
      ensures head == newElem && tail == if s == [] then newElem else old(tail)
    {
      hide Distinct;
      Apart(s, 0);
      var next := head;
      head := newElem;
      newElem.prev := null;
      newElem.next := next;
      if next == null {
        tail := newElem;
      } else {
        next.prev := newElem;
      }
    }

    /** The new tail. */
    method PutLast(newElem: Elem, ghost s: seq<Elem>)
      requires Distinct(s) && Linked(s) && newElem !in s && head == At(s, 0) && tail == At(s, |s| - 1)
      modifies `head, `tail, s, newElem
      ensures Spliced(s, |s|, newElem)
      ensures tail == newElem && head == if s == [] then newElem else old(head)
    {
      hide Distinct;
      Apart(s, |s| - 1);
      var prev := tail;
      tail := newElem;
      newElem.prev := prev;
      newElem.next := null;
      if prev == null {
        head := newElem;
      } else {
        prev.next := newElem;
      }
    }

    /** A new element between two neighbours. */
    method PutBetween(prev: Elem, next: Elem, newElem: Elem, ghost s: seq<Elem>, ghost at: nat)
      requires Distinct(s) && Linked(s) && newElem !in s
      requires 1 <= at < |s| && prev == s[at - 1] && next == s[at]
      modifies s, newElem
      ensures Spliced(s, at, newElem)
    {
      hide Distinct;
      Apart(s, at);
      Apart(s, at - 1);
      prev.next := newElem;
      newElem.prev := prev;
      next.prev := newElem;
      newElem.next := next;
    }

    ghost method Grow(s: seq<Elem>, at: nat, e: Elem)
      requires at <= |s| && elems == s && Distinct(s) && e !in s && Spliced(s, at, e) && count == |s| + 1
      requires head == if at == 0 then e else At(s, 0)
      requires tail == if at == |s| then e else At(s, |s| - 1)
      modifies `elems
      ensures Valid() && elems == Inserted(s, at, e)
    {
      hide Inserted, Spliced, Distinct, Linked;
      elems := Inserted(s, at, e);
      SplicedLinked(s, at, e);
      InsertedAt(s, at, e, 0);
      InsertedAt(s, at, e, |s|);
    }

    /** `List_Remove`; the links of the removed element stay as they are. */
    method Remove(elem: Elem, ghost at: nat)
      requires Valid() && at < |elems| && elems[at] == elem
      modifies this, elems
      ensures Valid() && elems == Removed(old(elems), at)
      ensures elem.next == old(elem.next) == At(old(elems), at + 1) && elem.prev == old(elem.prev)
    {
      hide Removed, Bypassed, Distinct, Linked;
      ghost var s := elems;
      LinkOf(s, at);
      var prev, next := elem.prev, elem.next;
      count := count - 1;
      if prev == null && next == null {
        tail := null;
        head := null;
      } else if prev == null {
        head := next;
      } else if next == null {
        tail := prev;
      }
      Bypass(prev, next, s, at);
      Shrink(s, at);
    }

    /** The neighbours of the removed element, as far as there are any, are linked. */
    method Bypass(prev: Elem?, next: Elem?, ghost s: seq<Elem>, ghost at: nat)
      requires Distinct(s) && Linked(s) && at < |s| && prev == At(s, at - 1) && next == At(s, at + 1)
      modifies s
      ensures Bypassed(s, at)
      ensures s[at].next == next && s[at].prev == prev
    {
      hide Distinct;
      Apart(s, at);
      Apart(s, at - 1);
      Apart(s, at + 1);
      if prev != null {
        prev.next := next;
      }
      if next != null {
        next.prev := prev;
      }
    }

    ghost method Shrink(s: seq<Elem>, at: nat)
      requires at < |s| && elems == s && Distinct(s) && Bypassed(s, at) && count == |s| - 1
      requires head == if at == 0 then At(s, 1) else At(s, 0)
      requires tail == if at == |s| - 1 then At(s, |s| - 2) else At(s, |s| - 1)
      modifies `elems
      ensures Valid() && elems == Removed(s, at)
    {
      hide Removed, Bypassed, Distinct, Linked;
      elems := Removed(s, at);
      BypassedLinked(s, at);
      RemovedAt(s, at, 0);
      RemovedAt(s, at, |s| - 2);
    }
  }

  lemma Apart(s: seq<Elem>, at: int)
    requires Distinct(s)
    ensures 0 <= at < |s| ==> forall k | 0 <= k < |s| && k != at :: s[k] != s[at]
  {
  }

  lemma OnlyAt(s: seq<Elem>, i: int, j: int)
    requires Distinct(s)
    ensures At(s, i) != null && At(s, i) == At(s, j) ==> i == j
  {
  }

  lemma LinkOf(s: seq<Elem>, k: int)
    requires Linked(s)
    ensures 0 <= k < |s| ==> s[k].next == At(s, k + 1) && s[k].prev == At(s, k - 1)
  {
  }
}
