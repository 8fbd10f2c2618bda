/** kernel/sos_list.c: circular doubly linked lists with a header link. */
module SosList {

  class Link {
    var next: Link?
    var prev: Link?

    constructor ()
      ensures next == null && prev == null
    {
      next, prev := null, null;
    }
  }

  /** The links in ring order: the header at both ends, the elements between. */
  ghost function Elem(list: Link, s: seq<Link>, i: int): Link
    requires 0 <= i <= |s| + 1
  {
    if 1 <= i <= |s| then s[i - 1] else list
  }

  ghost predicate Joined(a: Link, b: Link)
    reads a, b
  {
    a.next == b && b.prev == a
  }

  ghost predicate Distinct(list: Link, s: seq<Link>) {
    list !in s && forall i, j :: 0 <= i < j < |s| ==> s[i] != s[j]
  }

  /** The list with this header holds exactly the elements s, in this order. */
  ghost predicate Ring(list: Link, s: seq<Link>)
    reads list, s
  {
    && Distinct(list, s)
    && (forall i {:trigger Elem(list, s, i)} :: 0 <= i <= |s| ==> Joined(Elem(list, s, i), Elem(list, s, i + 1)))
  }

  /** list_init. */
  method Init(list: Link)
    modifies list
    ensures Ring(list, [])
  {
    list.next := list;
    list.prev := list;
  }

  /** list_empty. */
  method Empty(list: Link, ghost s: seq<Link>) returns (empty: bool)
    requires Ring(list, s)
    ensures empty <==> s == []
  {
    assert Joined(Elem(list, s, 0), Elem(list, s, 1));
    return list.next == list;
  }

  /** The pointer updates of list_insert_before. */
  method Splice(before: Link, x: Link)
    requires before.prev != null && x != before && x != before.prev
    modifies before, before.prev, x
    ensures Joined(old(before.prev), x) && Joined(x, before)
    ensures old(before.prev) != before ==>
      before.next == old(before.next) && old(before.prev).prev == old(before.prev.prev)
  {
    x.next := before;
    x.prev := before.prev;
    before.prev.next := x;
    before.prev := x;
  }

  /** list_insert_before: x comes to stand before the k-th element, or last when the link is the header. */
  method InsertBefore(before: Link, x: Link, ghost list: Link, ghost s: seq<Link>, ghost k: nat)
    requires Ring(list, s) && k <= |s| && before == Elem(list, s, k + 1)
    requires x != list && x !in s
    modifies list, s, x
    ensures Ring(list, s[..k] + [x] + s[k..])
  {
    ghost var s' := s[..k] + [x] + s[k..];
    hide Distinct, Elem;
    assert Joined(Elem(list, s, k), before);
    ElemOf(list, s, k, k + 1);
    Inserted(list, s, k, x);
    label L:
    Splice(before, x);
    forall i {:trigger Elem(list, s', i)} | 0 <= i <= |s'|
      ensures Joined(Elem(list, s', i), Elem(list, s', i + 1))
    {
      InsertedElem(list, s, k, x, i);
      InsertedElem(list, s, k, x, i + 1);
      if i < k {
        ElemOf(list, s, i, k);
        ElemOf(list, s, i + 1, k + 1);
        assert old@L(Joined(Elem(list, s, i), Elem(list, s, i + 1)));
      } else if i > k + 1 {
        ElemOf(list, s, i - 1, k);
        ElemOf(list, s, i, k + 1);
        assert old@L(Joined(Elem(list, s, i - 1), Elem(list, s, i)));
      }
    }
  }

  lemma Inserted(list: Link, s: seq<Link>, k: nat, x: Link)
    requires k <= |s| && x != list && x !in s && Distinct(list, s)
    ensures Distinct(list, s[..k] + [x] + s[k..])
    ensures forall i {:trigger Elem(list, s, i)} :: 0 <= i <= |s| + 1 ==> Elem(list, s, i) != x
  {
  }

  lemma InsertedElem(list: Link, s: seq<Link>, k: nat, x: Link, i: nat)
    requires k <= |s| && i <= |s| + 2
    ensures Elem(list, s[..k] + [x] + s[k..], i) ==
            if i <= k then Elem(list, s, i) else if i == k + 1 then x else Elem(list, s, i - 1)
  {
  }

  /** Links of the ring are equal only at equal positions, the two ends being one. */
  lemma ElemOf(list: Link, s: seq<Link>, i: int, j: int)
    requires Distinct(list, s) && 0 <= i <= |s| + 1 && 0 <= j <= |s| + 1
    ensures Elem(list, s, i) == Elem(list, s, j) <==> i == j || (i == 0 && j == |s| + 1) || (i == |s| + 1 && j == 0)
  {
  }

  /** list_insert_head. */
  method InsertHead(list: Link, x: Link, ghost s: seq<Link>)
    requires Ring(list, s) && x != list && x !in s
    modifies list, s, x
    ensures Ring(list, [x] + s)
  {
    assert Joined(Elem(list, s, 0), Elem(list, s, 1));
    InsertBefore(list.next, x, list, s, 0);
    assert s[..0] + [x] + s[0..] == [x] + s;
  }

  /** list_insert_tail. */
  method InsertTail(list: Link, x: Link, ghost s: seq<Link>)
    requires Ring(list, s) && x != list && x !in s
    modifies list, s, x
    ensures Ring(list, s + [x])
  {
    InsertBefore(list, x, list, s, |s|);
    assert s[..|s|] + [x] + s[|s|..] == s + [x];
  }

  /** list_remove, with its guards against links that are not, or only half, in a list. */
  method Remove(x: Link)
    requires x.prev != null && x.next != null
    modifies x, x.prev, x.next
    ensures old(Joined(x.prev, x) && Joined(x, x.next)) ==>
      && x.next == null && x.prev == null
      && (old(x.prev) != x ==> old(x.prev).next == old(x.next) && old(x.next).prev == old(x.prev))
      && (old(x.prev) != x && old(x.prev) != old(x.next) ==>
            old(x.prev).prev == old(x.prev.prev) && old(x.next).next == old(x.next.next))
    ensures old(x.prev.next) != x && old(x.next.prev) != x ==>
      x.next == null && x.prev == null && unchanged(old({x.prev, x.next} - {x}))
    ensures (old(x.prev.next) == x) != (old(x.next.prev) == x) ==> unchanged(old({x, x.prev, x.next}))
  {
    var before := x.prev;
    var after := x.next;
    if before.next != x && after.prev != x {
      x.next := null;
      x.prev := null;
      return;
    } else if before.next != x || after.prev != x {
      return;
    }
    before.next := after;
    after.prev := before;
    x.next := null;
    x.prev := null;
  }

  /** list_remove on an element of a list takes out that element and nothing else. */
  method RemoveElement(x: Link, ghost list: Link, ghost s: seq<Link>, ghost k: nat)
    requires Ring(list, s) && k < |s| && x == s[k]
    modifies list, s
    ensures Ring(list, s[..k] + s[k + 1..]) && x.next == null && x.prev == null
  {
    ghost var s' := s[..k] + s[k + 1..];
    hide Distinct, Elem;
    Removed(list, s, k);
    assert Joined(Elem(list, s, k), Elem(list, s, k + 1)) && Joined(Elem(list, s, k + 1), Elem(list, s, k + 2));
    ElemOf(list, s, k, k + 1);
    ElemOf(list, s, k, k + 2);
    label L:
    Remove(x);
    forall i {:trigger Elem(list, s', i)} | 0 <= i <= |s'|
      ensures Joined(Elem(list, s', i), Elem(list, s', i + 1))
    {
      RemovedElem(list, s, k, i);
      RemovedElem(list, s, k, i + 1);
      if i < k {
        ElemOf(list, s, i, k);
        ElemOf(list, s, i, k + 1);
        ElemOf(list, s, i + 1, k + 1);
        ElemOf(list, s, i + 1, k + 2);
        assert old@L(Joined(Elem(list, s, i), Elem(list, s, i + 1)));
      } else if i > k {
        ElemOf(list, s, i + 1, k);
        ElemOf(list, s, i + 1, k + 1);
        ElemOf(list, s, i + 2, k + 1);
        ElemOf(list, s, i + 2, k + 2);
        assert old@L(Joined(Elem(list, s, i + 1), Elem(list, s, i + 2)));
      }
    }
  }

  lemma Removed(list: Link, s: seq<Link>, k: nat)
    requires k < |s| && Distinct(list, s)
    ensures Distinct(list, s[..k] + s[k + 1..]) && Elem(list, s, k + 1) == s[k]
  {
  }

  lemma RemovedElem(list: Link, s: seq<Link>, k: nat, i: nat)
    requires k < |s| && i <= |s|
    ensures Elem(list, s[..k] + s[k + 1..], i) == if i <= k then Elem(list, s, i) else Elem(list, s, i + 1)
  {
  }
}
