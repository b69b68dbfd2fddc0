/** The allocator's account of the texts that the printers allocate. */
module TextMemory {
  import opened Bytes
  import opened Sequences

  /** The texts that have been allocated and not freed. */
  class TextHeap {
    ghost var live: set<array<byte>>

    constructor ()
      ensures live == {}
    {
      live := {};
    }

    /** cJSON_free */
    ghost method Free(a: array<byte>)
      requires a in live
      modifies this
      ensures live == old(live) - {a}
    {
      live := live - {a};
    }

    /** What does not exist yet has not been given out. */
    lemma TextsExist()
      ensures forall a :: a in live ==> allocated(a)
    {
    }
  }

  /** cJSON_malloc of n bytes */
  method Malloc(n: nat, heap: TextHeap) returns (a: array<byte>)
    modifies heap
    ensures fresh(a) && a.Length == n && a !in old(heap.live) && heap.live == old(heap.live) + {a}
  {
    heap.TextsExist();
    a := new byte[n];
    Register(a, heap);
  }

  ghost method Register(a: array<byte>, heap: TextHeap)
    modifies heap
    ensures heap.live == old(heap.live) + {a}
  {
    heap.live := heap.live + {a};
  }

  /** Exactly these texts are allocated in addition to `before`, each of them once. */
  ghost predicate Holding(live: set<array<byte>>, before: set<array<byte>>, temps: seq<array<byte>>) {
    NoDuplicates(temps) && (forall i :: 0 <= i < |temps| ==> temps[i] !in before) &&
    live == before + set i | 0 <= i < |temps| :: temps[i]
  }

  lemma HoldingNone(before: set<array<byte>>)
    ensures Holding(before, before, [])
    ensures forall live :: Holding(live, before, []) ==> live == before
  {
  }

  lemma HoldingMore(live: set<array<byte>>, before: set<array<byte>>, temps: seq<array<byte>>, a: array<byte>)
    requires Holding(live, before, temps) && a !in live
    ensures Holding(live + {a}, before, temps + [a])
  {
    var more := temps + [a];
    assert forall i :: 0 <= i < |temps| ==> more[i] == temps[i] && temps[i] in live;
    assert more[|temps|] == a;
    var all := set i | 0 <= i < |more| :: more[i];
    assert forall x :: x in all <==> x in (set i | 0 <= i < |temps| :: temps[i]) || x == a;
  }

  lemma HoldingLess(live: set<array<byte>>, before: set<array<byte>>, temps: seq<array<byte>>)
    requires Holding(live, before, temps) && temps != []
    ensures temps[0] in live && Holding(live - {temps[0]}, before, temps[1..])
  {
    var rest := temps[1..];
    assert forall i :: 0 <= i < |rest| ==> rest[i] == temps[i + 1];
    assert temps[0] in live;
    assert forall x :: x in live - {temps[0]} <==> x in before + set i | 0 <= i < |rest| :: rest[i];
  }

  /** A text that is to stay. */
  lemma HoldingUnder(live: set<array<byte>>, before: set<array<byte>>, temps: seq<array<byte>>, out: array<byte>)
    requires Holding(live, before, temps) && out !in live
    ensures Holding(live + {out}, before + {out}, temps)
  {
    assert forall i :: 0 <= i < |temps| ==> temps[i] in live;
  }
}
