/** The kernel's doubly linked list, threaded through its elements, as the list of its elements. */
module SlabList {
  import opened SlabObjects

  /** Each element points to the next and the previous one, the outermost to none. */
  ghost predicate Linked(s: seq<HashedSlab>)
    reads Elements(s)`next, Elements(s)`previous
  {
    && (s != [] ==> s[0].previous == null && s[|s| - 1].next == null)
    && (forall i {:trigger s[i].next} :: 0 <= i < |s| - 1 ==> s[i].next == s[i + 1])
    && (forall i {:trigger s[i].previous} :: 0 < i < |s| ==> s[i].previous == s[i - 1])
  }

  function Inserted(s: seq<HashedSlab>, k: nat, x: HashedSlab): seq<HashedSlab>
    requires k <= |s|
  {
    s[..k] + [x] + s[k..]
  }

  function Removed(s: seq<HashedSlab>, k: nat): seq<HashedSlab>
    requires k < |s|
  {
    s[..k] + s[k + 1..]
  }

  /** The `i`-th element, or none outside the list. */
  function At(s: seq<HashedSlab>, i: int): HashedSlab? {
    if 0 <= i < |s| then s[i] else null
  }

  /** The elements below the `k`-th stay where they are, those above move down by one. */
  lemma RemovedAt(s: seq<HashedSlab>, k: nat, i: nat)
    requires k < |s| && i < |s| - 1
    ensures |Removed(s, k)| == |s| - 1 && Removed(s, k)[i] == s[if i < k then i else i + 1]
  {
  }

  lemma NotAnElement(s: seq<HashedSlab>, x: HashedSlab)
    requires x !in s
    ensures x !in Elements(s)
  {
  }

  lemma AtIs(s: seq<HashedSlab>, k: nat)
    requires k <= |s|
    ensures At(s, k) == (if k < |s| then s[k] else null) && At(s, k - 1) == if k > 0 then s[k - 1] else null
  {
  }

  type Links = map<HashedSlab, HashedSlab?>

  /** `next` and `previous` are the links of a list. */
  ghost predicate LinkedBy(s: seq<HashedSlab>, next: Links, previous: Links) {
    && next.Keys == Elements(s) && previous.Keys == Elements(s)
    && (s != [] ==> s[0] in previous && previous[s[0]] == null && s[|s| - 1] in next && next[s[|s| - 1]] == null)
    && (forall i {:trigger next[s[i]]} :: 0 <= i < |s| - 1 ==> s[i] in next && next[s[i]] == s[i + 1])
    && (forall i {:trigger previous[s[i]]} :: 0 < i < |s| ==> s[i] in previous && previous[s[i]] == s[i - 1])
  }

  lemma SnapshotOfLinks(s: seq<HashedSlab>, next: Links, previous: Links)
    requires Linked(s) && next.Keys == Elements(s) && previous.Keys == Elements(s)
    requires forall y :: y in Elements(s) ==> next[y] == y.next && previous[y] == y.previous
    ensures LinkedBy(s, next, previous)
  {
    forall i | 0 <= i < |s| ensures s[i] in Elements(s) {}
  }

  /** The links after `x` has been put in before the `k`-th element, or at the end. */
  lemma LinkedAfterInsert(s: seq<HashedSlab>, x: HashedSlab, k: nat, next: Links, previous: Links)
    requires LinkedBy(s, next, previous) && NoDuplicates(s) && x !in s && k <= |s|
    requires x.next == At(s, k) && x.previous == At(s, k - 1)
    requires forall y :: y in Elements(s) ==> y.next == if y == At(s, k - 1) then x else next[y]
    requires forall y :: y in Elements(s) ==> y.previous == if y == At(s, k) then x else previous[y]
    ensures Linked(Inserted(s, k, x))
  {
    hide NoDuplicates;
    var t := s[..k] + [x] + s[k..];
    OneMore(s, x, k);
    forall i | 0 <= i < |t| - 1 ensures t[i].next == t[i + 1] {
      if i < k {
        assert s[i] in Elements(s);
        Different(s, i, k - 1);
        assert i < k - 1 ==> next[s[i]] == s[i + 1];
      } else if i > k {
        assert s[i - 1] in Elements(s);
        if k > 0 { Different(s, i - 1, k - 1); }
        assert next[s[i - 1]] == s[i];
      }
    }
    forall i | 0 < i < |t| ensures t[i].previous == t[i - 1] {
      if i < k {
        assert s[i] in Elements(s);
        if k < |s| { Different(s, i, k); }
        assert previous[s[i]] == s[i - 1];
      } else if i > k {
        assert s[i - 1] in Elements(s);
        Different(s, i - 1, k);
        assert i - 1 > k ==> previous[s[i - 1]] == s[i - 2];
      }
    }
    if s != [] {
      assert s[0] in Elements(s) && s[|s| - 1] in Elements(s);
      if k > 0 { Different(s, |s| - 1, k - 1); }
      if k < |s| { Different(s, 0, k); }
    }
  }

  /** The links after the `k`-th element has been taken out. */
  lemma LinkedAfterRemove(s: seq<HashedSlab>, k: nat, next: Links, previous: Links)
    requires LinkedBy(s, next, previous) && NoDuplicates(s) && k < |s|
    requires forall y :: y in Elements(s) ==> y.next == if y == At(s, k - 1) then At(s, k + 1) else next[y]
    requires forall y :: y in Elements(s) ==> y.previous == if y == At(s, k + 1) then At(s, k - 1) else previous[y]
    ensures Linked(Removed(s, k))
  {
    hide NoDuplicates;
    var t := s[..k] + s[k + 1..];
    OneLess(s, k);
    forall i | 0 <= i < |t| - 1 ensures t[i].next == t[i + 1] {
      var j := if i < k then i else i + 1;
      assert s[j] in Elements(s);
      if k > 0 { Different(s, j, k - 1); }
      assert next[s[j]] == s[j + 1];
    }
    forall i | 0 < i < |t| ensures t[i].previous == t[i - 1] {
      var j := if i < k then i else i + 1;
      assert s[j] in Elements(s);
      if k + 1 < |s| { Different(s, j, k + 1); }
      assert previous[s[j]] == s[j - 1];
    }
    assert s[0] in Elements(s) && s[|s| - 1] in Elements(s);
    if k > 0 { assert s[k - 1] in Elements(s); Different(s, |s| - 1, k - 1); }
    if k + 1 < |s| { assert s[k + 1] in Elements(s); Different(s, 0, k + 1); }
  }

  class DoublyLinkedList {
    var head: HashedSlab?
    var end: HashedSlab?
    ghost var elems: seq<HashedSlab>

    ghost predicate Valid()
      reads this, Elements(elems)`next, Elements(elems)`previous
    {
      && NoDuplicates(elems) && Linked(elems)
      && head == (if elems == [] then null else elems[0])
      && end == if elems == [] then null else elems[|elems| - 1]
    }

    constructor ()
      ensures Valid() && elems == []
    {
      head, end, elems := null, null, [];
    }

    predicate IsEmpty()
      requires Valid()
      reads this, Elements(elems)`next, Elements(elems)`previous
      ensures IsEmpty() <==> elems == []
    {
      head == null
    }

    method Append(newElement: HashedSlab)
      requires Valid() && newElement !in elems
      modifies this, newElement`next, newElement`previous, Elements(elems)`next
      ensures Valid() && elems == old(elems) + [newElement]
    {
      newElement.previous := end;
      newElement.next := null;
      if end != null {
        end.next := newElement;
      } else {
        head := newElement;
      }
      end := newElement;
      elems := elems + [newElement];
    }

    method Prepend(newElement: HashedSlab)
      requires Valid() && newElement !in elems
      modifies this, newElement`next, newElement`previous, Elements(elems)`previous
      ensures Valid() && elems == [newElement] + old(elems)
    {
      newElement.previous := null;
      newElement.next := head;
      if head != null {
        head.previous := newElement;
      } else {
        end := newElement;
      }
      head := newElement;
      elems := [newElement] + elems;
    }

    /** The links of the `k`-th element. */
    lemma Neighbours(k: nat)
      requires Valid() && k < |elems|
      ensures elems[k].previous == At(elems, k - 1) && elems[k].next == At(elems, k + 1)
      ensures elems[k] in Elements(elems)
      ensures k > 0 ==> elems[k - 1] in Elements(elems) && elems[k - 1] != elems[k]
      ensures k + 1 < |elems| ==> elems[k + 1] in Elements(elems) && elems[k + 1] != elems[k]
    {
    }

    /** The links it writes. */
    method LinkBefore(before: HashedSlab, newElement: HashedSlab, ghost k: nat)
      requires Valid() && newElement !in Elements(elems) && k < |elems| && elems[k] == before
      modifies this, newElement`next, newElement`previous, Elements(elems)`next, before`previous
      ensures elems == old(elems) && newElement.next == At(elems, k) && newElement.previous == At(elems, k - 1)
      ensures head == (if k == 0 then newElement else old(head)) && end == if k == |elems| then newElement else old(end)
      ensures forall y :: y in Elements(elems) ==> y.next == if y == At(elems, k - 1) then newElement else old(y.next)
      ensures forall y :: y in Elements(elems) ==>
                y.previous == if y == At(elems, k) then newElement else old(y.previous)
    {
      hide Linked, LinkedBy, NoDuplicates, Elements, At, Inserted, Removed;
      Neighbours(k);
      AtIs(elems, k);
      newElement.next := before;
      newElement.previous := before.previous;
      before.previous := newElement;
      if newElement.previous != null {
        newElement.previous.next := newElement;
      } else {
        head := newElement;
      }
    }

    method InsertBefore(before: HashedSlab, newElement: HashedSlab, ghost k: nat)
      requires Valid() && newElement !in elems && k < |elems| && elems[k] == before
      modifies this, newElement`next, newElement`previous, Elements(elems)`next, before`previous
      ensures Valid() && elems == old(elems[..k] + [newElement] + elems[k..])
    {
      hide Linked, LinkedBy, NoDuplicates, Elements, At, Inserted, Removed;
      NotAnElement(elems, newElement);
      ghost var next := map y | y in Elements(elems) :: y.next;
      ghost var previous := map y | y in Elements(elems) :: y.previous;
      SnapshotOfLinks(elems, next, previous);
      ghost var was := elems;
      LinkBefore(before, newElement, k);
      elems := Inserted(was, k, newElement);
      EndsAfterInsert(was, newElement, k);
      LinkedAfterInsert(was, newElement, k, next, previous);
    }

    /** The links it writes. */
    method LinkAfter(after: HashedSlab, newElement: HashedSlab, ghost k: nat)
      requires Valid() && newElement !in Elements(elems) && k < |elems| && elems[k] == after
      modifies this, newElement`next, newElement`previous, after`next, Elements(elems)`previous
      ensures elems == old(elems) && newElement.next == At(elems, k + 1) && newElement.previous == At(elems, k)
      ensures head == (if k + 1 == 0 then newElement else old(head))
      ensures end == if k + 1 == |elems| then newElement else old(end)
      ensures forall y :: y in Elements(elems) ==> y.next == if y == At(elems, k) then newElement else old(y.next)
      ensures forall y :: y in Elements(elems) ==>
                y.previous == if y == At(elems, k + 1) then newElement else old(y.previous)
    {
      hide Linked, LinkedBy, NoDuplicates, Elements, At, Inserted, Removed;
      Neighbours(k);
      AtIs(elems, k + 1);
      newElement.next := after.next;
      newElement.previous := after;
      after.next := newElement;
      if newElement.next != null {
        newElement.next.previous := newElement;
      } else {
        end := newElement;
      }
    }

    method InsertAfter(after: HashedSlab, newElement: HashedSlab, ghost k: nat)
      requires Valid() && newElement !in elems && k < |elems| && elems[k] == after
      modifies this, newElement`next, newElement`previous, after`next, Elements(elems)`previous
      ensures Valid() && elems == old(elems[..k + 1] + [newElement] + elems[k + 1..])
    {
      hide Linked, LinkedBy, NoDuplicates, Elements, At, Inserted, Removed;
      NotAnElement(elems, newElement);
      ghost var next := map y | y in Elements(elems) :: y.next;
      ghost var previous := map y | y in Elements(elems) :: y.previous;
      SnapshotOfLinks(elems, next, previous);
      ghost var was := elems;
      LinkAfter(after, newElement, k);
      elems := Inserted(was, k + 1, newElement);
      EndsAfterInsert(was, newElement, k + 1);
      LinkedAfterInsert(was, newElement, k + 1, next, previous);
    }

    /** The links of the neighbours pass over the element. */
    method PassOver(element: HashedSlab, ghost k: nat)
      requires Valid() && k < |elems| && elems[k] == element
      modifies this, Elements(elems)`next, Elements(elems)`previous
      ensures elems == old(elems)
      ensures head == (if k == 0 then At(elems, 1) else old(head))
      ensures end == if k == |elems| - 1 then At(elems, k - 1) else old(end)
      ensures forall y :: y in Elements(elems) ==>
                y.next == if y == At(elems, k - 1) then At(elems, k + 1) else old(y.next)
      ensures forall y :: y in Elements(elems) ==>
                y.previous == if y == At(elems, k + 1) then At(elems, k - 1) else old(y.previous)
      ensures element.next == old(element.next) && element.previous == old(element.previous)
    {
      hide Linked, LinkedBy, NoDuplicates, Elements, At, Inserted, Removed;
      Neighbours(k);
      AtIs(elems, k);
      AtIs(elems, k + 1);
      NotAround(elems, k);
      if element.previous != null {
        element.previous.next := element.next;
      } else {
        head := element.next;
      }
      if element.next != null {
        element.next.previous := element.previous;
      } else {
        end := element.previous;
      }
    }

    /** The element's own links are left as they are. */
    method Remove(element: HashedSlab) returns (ghost k: nat)
      requires Valid() && element in elems
      modifies this, Elements(elems)`next, Elements(elems)`previous
      ensures Valid() && k < |old(elems)| && old(elems)[k] == element
      ensures elems == Removed(old(elems), k)
      ensures element.next == old(element.next) && element.previous == old(element.previous)
    {
      hide Linked, NoDuplicates, Elements, Removed, DoublyLinkedList.Valid;
      k :| 0 <= k < |elems| && elems[k] == element;
      RemoveAt(element, k);
    }

    method RemoveAt(element: HashedSlab, ghost k: nat)
      requires Valid() && k < |elems| && elems[k] == element
      modifies this, Elements(elems)`next, Elements(elems)`previous
      ensures Valid() && elems == Removed(old(elems), k)
      ensures element.next == old(element.next) && element.previous == old(element.previous)
    {
      hide Linked, LinkedBy, NoDuplicates, Elements, At, Inserted, Removed;
      ghost var next := map y | y in Elements(elems) :: y.next;
      ghost var previous := map y | y in Elements(elems) :: y.previous;
      SnapshotOfLinks(elems, next, previous);
      ghost var was := elems;
      PassOver(element, k);
      elems := Removed(was, k);
      EndsAfterRemove(was, k);
      LinkedAfterRemove(was, k, next, previous);
    }
  }

  lemma NotAround(s: seq<HashedSlab>, k: nat)
    requires NoDuplicates(s) && k < |s|
    ensures At(s, k - 1) != s[k] && At(s, k + 1) != s[k]
  {
  }

  lemma Different(s: seq<HashedSlab>, i: nat, j: nat)
    requires NoDuplicates(s) && i < |s| && j < |s|
    ensures s[i] == s[j] <==> i == j
  {
  }

  lemma EndsAfterInsert(s: seq<HashedSlab>, x: HashedSlab, k: nat)
    requires NoDuplicates(s) && x !in s && k <= |s|
    ensures Inserted(s, k, x) == s[..k] + [x] + s[k..]
    ensures var t := Inserted(s, k, x);
            && NoDuplicates(t) && |t| == |s| + 1
            && t[0] == (if k == 0 then x else s[0]) && t[|t| - 1] == if k == |s| then x else s[|s| - 1]
  {
    OneMore(s, x, k);
  }

  lemma EndsAfterRemove(s: seq<HashedSlab>, k: nat)
    requires NoDuplicates(s) && k < |s|
    ensures var t := Removed(s, k);
            && NoDuplicates(t) && |t| == |s| - 1
            && (if t == [] then null else t[0]) == (if k == 0 then At(s, 1) else s[0])
            && (if t == [] then null else t[|t| - 1]) == if k == |s| - 1 then At(s, k - 1) else s[|s| - 1]
  {
    OneLess(s, k);
  }

  lemma OneMore(s: seq<HashedSlab>, x: HashedSlab, k: nat)
    requires NoDuplicates(s) && x !in s && k <= |s|
    ensures var t := s[..k] + [x] + s[k..];
            && NoDuplicates(t) && |t| == |s| + 1 && t[k] == x
            && (forall i {:trigger t[i]} :: 0 <= i < k ==> t[i] == s[i])
            && (forall i {:trigger t[i]} :: k < i < |t| ==> t[i] == s[i - 1])
  {
  }

  lemma OneLess(s: seq<HashedSlab>, k: nat)
    requires NoDuplicates(s) && k < |s|
    ensures var t := s[..k] + s[k + 1..];
            && NoDuplicates(t) && |t| == |s| - 1
            && (forall i {:trigger t[i]} :: 0 <= i < k ==> t[i] == s[i])
            && (forall i {:trigger t[i]} :: k <= i < |t| ==> t[i] == s[i + 1])
  {
  }
}
