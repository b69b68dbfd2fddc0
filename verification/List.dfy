/** The circular doubly linked lists behind the buffer pool and the send list. */
module List {
  import opened Sequences

  class ListHead {
    var next: ListHead?
    var prev: ListHead?
    var owner: object?

    constructor ()
      ensures next == null && prev == null && owner == null
    {
      next, prev, owner := null, null, null;
    }
  }

  /** The ring cut open at the head, which stands at both ends. */
  ghost function Opened(head: ListHead, s: seq<ListHead>): seq<ListHead> { [head] + s + [head] }

  /** Elements i and i + 1 point at each other. */
  ghost predicate Joined(e: seq<ListHead>, i: nat)
    requires i + 1 < |e|
    reads e
  {
    e[i].next == e[i + 1] && e[i + 1].prev == e[i]
  }

  /** Going round from the head one meets exactly the elements of s, in order, and in reverse order backwards. */
  ghost predicate Ring(head: ListHead, s: seq<ListHead>)
    reads head, s
  {
    head !in s && NoDuplicates(s) && forall i :: 0 <= i <= |s| ==> Joined(Opened(head, s), i)
  }

  /** init_list_head */
  method InitListHead(list: ListHead)
    modifies list
    ensures Ring(list, []) && list.owner == list
  {
    list.next := list;
    list.prev := list;
    list.owner := list;
  }

  lemma Ends(head: ListHead, s: seq<ListHead>)
    requires Ring(head, s)
    ensures head.next == if s == [] then head else s[0]
    ensures head.prev == if s == [] then head else s[|s| - 1]
  {
    assert Joined(Opened(head, s), 0) && Joined(Opened(head, s), |s|);
  }

  /** The neighbours of element k. */
  lemma Neighbours(head: ListHead, s: seq<ListHead>, k: nat)
    requires Ring(head, s) && k < |s|
    ensures s[k].prev == Opened(head, s)[k] && s[k].next == Opened(head, s)[k + 2]
    ensures s[k].prev != s[k] && s[k].next != s[k]
  {
    assert Joined(Opened(head, s), k) && Joined(Opened(head, s), k + 1);
  }

  /** The pairs other than k and l share no field with them. */
  lemma Others(head: ListHead, s: seq<ListHead>, k: nat, l: nat)
    requires head !in s && NoDuplicates(s) && k <= |s| && l <= |s|
    ensures var e := Opened(head, s);
            forall i {:trigger Joined(e, i)} :: 0 <= i <= |s| && i != k && i != l ==>
              e[i] != e[k] && e[i] != e[l] && e[i + 1] != e[k + 1] && e[i + 1] != e[l + 1]
  {
  }

  /** list_empty */
  method ListEmpty(head: ListHead, ghost s: seq<ListHead>) returns (empty: bool)
    requires Ring(head, s)
    ensures empty <==> s == []
  {
    Ends(head, s);
    empty := head.next == head;
  }

  /** _list_add between neighbours k and k + 1 of the opened ring. */
  method AddBetween(entry: ListHead, prev: ListHead, next: ListHead, ghost head: ListHead, ghost s: seq<ListHead>,
                    ghost k: nat)
    requires Ring(head, s) && k <= |s| && entry != head && entry !in s
    requires prev == Opened(head, s)[k] && next == Opened(head, s)[k + 1]
    modifies head`next, head`prev, s`next, s`prev, entry`next, entry`prev
    ensures Ring(head, Inserted(s, k, entry))
  {
    hide NoDuplicates, Opened;
    ghost var e := Opened(head, s);
    OpenedIs(head, s);
    Others(head, s, k, k);
    next.prev := entry;
    entry.next := next;
    entry.prev := prev;
    prev.next := entry;
    forall i | 0 <= i <= |s| && i != k ensures Joined(e, i) { assert old(Joined(e, i)); }
    RingWith(head, s, k, entry);
  }

  lemma OpenedIs(head: ListHead, s: seq<ListHead>)
    ensures var e := Opened(head, s); |e| == |s| + 2 && e[0] == head == e[|s| + 1] && e[1..|s| + 1] == s
    ensures forall i :: 1 <= i <= |s| ==> Opened(head, s)[i] == s[i - 1]
  {
  }

  lemma RingWith(head: ListHead, s: seq<ListHead>, k: nat, entry: ListHead)
    requires k <= |s| && head !in s && NoDuplicates(s) && entry != head && entry !in s
    requires var e := Opened(head, s);
             (forall i :: 0 <= i <= |s| && i != k ==> Joined(e, i)) &&
             Joined([e[k], entry, e[k + 1]], 0) && Joined([e[k], entry, e[k + 1]], 1)
    ensures Ring(head, Inserted(s, k, entry))
  {
    var e, t := Opened(head, s), Inserted(s, k, entry);
    var f := Opened(head, t);
    assert forall i :: 0 <= i < |t| ==> t[i] == if i < k then s[i] else if i == k then entry else s[i - 1];
    assert forall i :: 0 <= i < |f| ==> f[i] == if i <= k then e[i] else if i == k + 1 then entry else e[i - 1];
    forall i | 0 <= i <= |t| ensures Joined(f, i) {
      if i < k { assert Joined(e, i); } else if i > k + 1 { assert Joined(e, i - 1); }
    }
  }

  /** list_add */
  method ListAdd(entry: ListHead, head: ListHead, ghost s: seq<ListHead>)
    requires Ring(head, s) && entry != head && entry !in s
    modifies head`next, head`prev, s`next, s`prev, entry`next, entry`prev
    ensures Ring(head, [entry] + s)
  {
    Ends(head, s);
    AddBetween(entry, head, head.next, head, s, 0);
    assert Inserted(s, 0, entry) == [entry] + s;
  }

  /** list_add_tail */
  method ListAddTail(entry: ListHead, head: ListHead, ghost s: seq<ListHead>)
    requires Ring(head, s) && entry != head && entry !in s
    modifies head`next, head`prev, s`next, s`prev, entry`next, entry`prev
    ensures Ring(head, s + [entry])
  {
    Ends(head, s);
    AddBetween(entry, head.prev, head, head, s, |s|);
    assert Inserted(s, |s|, entry) == s + [entry];
  }

  /** list_del */
  method ListDel(entry: ListHead, ghost head: ListHead, ghost s: seq<ListHead>, ghost k: nat)
    requires Ring(head, s) && k < |s| && entry == s[k]
    modifies head`next, head`prev, s`next, s`prev
    ensures Ring(head, Removed(s, k)) && entry.next == null && entry.prev == null
  {
    hide NoDuplicates, Opened, Removed;
    ghost var e := Opened(head, s);
    OpenedIs(head, s);
    Neighbours(head, s, k);
    Others(head, s, k, k + 1);
    entry.next.prev := entry.prev;
    entry.prev.next := entry.next;
    entry.next := null;
    entry.prev := null;
    forall i | 0 <= i <= |s| && i != k && i != k + 1 ensures Joined(e, i) { assert old(Joined(e, i)); }
    RingWithout(head, s, k);
  }

  lemma RingWithout(head: ListHead, s: seq<ListHead>, k: nat)
    requires k < |s| && head !in s && NoDuplicates(s)
    requires var e := Opened(head, s);
             (forall i :: 0 <= i <= |s| && i != k && i != k + 1 ==> Joined(e, i)) && Joined([e[k], e[k + 2]], 0)
    ensures Ring(head, Removed(s, k))
  {
    var e, t := Opened(head, s), Removed(s, k);
    var f := Opened(head, t);
    assert forall i :: 0 <= i < |t| ==> t[i] == if i < k then s[i] else s[i + 1];
    assert forall i :: 0 <= i < |f| ==> f[i] == if i <= k then e[i] else e[i + 1];
    forall i | 0 <= i <= |t| ensures Joined(f, i) {
      if i < k { assert Joined(e, i); } else if i > k { assert Joined(e, i + 1); }
    }
  }
}
