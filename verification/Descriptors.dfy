/** core_mapper.c and kernel_list.h: the circular doubly linked list of page descriptors. */
module Descriptors {
  import opened Words

  class Node {
    var next: Node
    var prev: Node
    var addr: Word

    /** A descriptor that is a list of its own. */
    constructor (addr: Word)
      ensures next == this && prev == this && this.addr == addr
    {
      this.addr := addr;
      next := this;
      prev := this;
    }
  }

  /** Successor of index `i` around a ring of `n`. */
  function After(i: nat, n: nat): nat
    requires i < n
  {
    if i + 1 == n then 0 else i + 1
  }

  ghost predicate Distinct(ns: seq<Node>) {
    forall i, j :: 0 <= i < j < |ns| ==> ns[i] != ns[j]
  }

  /** The nodes of `ns`, each once, form a ring in that order. */
  ghost predicate Ring(ns: seq<Node>)
    reads ns
  {
    && |ns| > 0 && Distinct(ns)
    && (forall i :: 0 <= i < |ns| ==> ns[i].next == ns[After(i, |ns|)])
    && (forall i :: 0 <= i < |ns| ==> ns[After(i, |ns|)].prev == ns[i])
  }

  /** `merge_address_space` with an interpreter: the two rings become one, the binary's nodes first. */
  method MergeAddressSpace(binary: Node, interp: Node, ghost bs: seq<Node>, ghost js: seq<Node>) returns (head: Node)
    requires Ring(bs) && Ring(js) && bs[0] == binary && js[0] == interp
    requires forall i, j :: 0 <= i < |bs| && 0 <= j < |js| ==> bs[i] != js[j]
    modifies bs, js
    ensures Ring(bs + js) && head == (bs + js)[0]
    ensures forall n: Node :: n in bs + js ==> n.addr == old(n.addr)
  {
    ghost var ns := bs + js;
    assert binary.prev == bs[|bs| - 1] by { assert bs[After(|bs| - 1, |bs|)].prev == bs[|bs| - 1]; }
    assert interp.prev == js[|js| - 1] by { assert js[After(|js| - 1, |js|)].prev == js[|js| - 1]; }
    var prevBinary, prevInterp := binary.prev, interp.prev;
    binary.prev := prevInterp;
    prevInterp.next := binary;
    interp.prev := prevBinary;
    prevBinary.next := interp;
    head := binary;
    forall i | 0 <= i < |ns|
      ensures ns[i].next == ns[After(i, |ns|)] && ns[After(i, |ns|)].prev == ns[i]
    {
      if i < |bs| {
        assert ns[i] == bs[i] && (i + 1 < |bs| ==> After(i, |bs|) == i + 1);
      } else {
        assert ns[i] == js[i - |bs|] && (i + 1 < |ns| ==> After(i - |bs|, |js|) == i + 1 - |bs|);
      }
    }
  }

  /** Index of the first node, from the head, that describes `page`; the length if there is none. */
  ghost function Find(ns: seq<Node>, page: Word): (k: nat)
    reads ns`addr
    ensures k <= |ns| && (k < |ns| ==> ns[k].addr == page)
    ensures forall i :: 0 <= i < k ==> ns[i].addr != page
  {
    if ns == [] then 0 else if ns[0].addr == page then 0 else 1 + Find(ns[1..], page)
  }

  /** `get_mem_desc`: walks once around the ring. Finds a page exactly when it is there, and then the
      first node that describes it. */
  method GetMemDesc(head: Node, addr: Word, ghost ns: seq<Node>) returns (d: Node?)
    requires Ring(ns) && head == ns[0]
    ensures d == null <==> forall i :: 0 <= i < |ns| ==> ns[i].addr != PageAlign(addr)
    ensures d != null ==> Find(ns, PageAlign(addr)) < |ns| && d == ns[Find(ns, PageAlign(addr))]
  {
    var curr := head;
    ghost var k := 0;
    while true
      invariant 0 <= k < |ns| && curr == ns[k]
      invariant forall i :: 0 <= i < k ==> ns[i].addr != PageAlign(addr)
      decreases |ns| - k
    {
      if curr.addr == PageAlign(addr) { return curr; }
      assert curr.next == ns[After(k, |ns|)];
      curr := curr.next;
      if curr == head {
        assert After(k, |ns|) == 0;
        return null;
      }
      k := k + 1;
    }
  }

  ghost function Without(ns: seq<Node>, k: nat): (others: seq<Node>)
    requires k < |ns|
    ensures |others| == |ns| - 1
  {
    ns[..k] + ns[k + 1..]
  }

  lemma WithoutIsDistinct(ns: seq<Node>, k: nat)
    requires Distinct(ns) && k < |ns|
    ensures Distinct(Without(ns, k)) && ns[k] !in Without(ns, k)
  {
  }

  /** Index in `ns` of the node at index `i` once index `k` is gone. */
  function Shift(i: nat, k: nat): nat {
    if i < k then i else i + 1
  }

  /** Predecessor of index `k` around a ring of `n`. */
  function Before(k: nat, n: nat): nat
    requires k < n
  {
    if k == 0 then n - 1 else k - 1
  }

  /** Neighbours among the others are neighbours in the whole ring, but for the two that were around `k`. */
  lemma ShiftAfter(ns: seq<Node>, k: nat, i: nat)
    requires Distinct(ns) && k < |ns| && i < |ns| - 1
    ensures var n, w := |ns|, Without(ns, k);
      && Shift(i, k) < n && |w| == n - 1 && w[i] == ns[Shift(i, k)]
      && w[After(i, n - 1)] == ns[if Shift(i, k) == Before(k, n) then After(k, n) else After(Shift(i, k), n)]
      && Shift(i, k) != k && (Shift(i, k) != Before(k, n) ==> After(Shift(i, k), n) != k)
  {
  }

  /** Takes the node at index `k`, the head or any other, out of the ring. */
  method Unlink(d: Node, ghost ns: seq<Node>, ghost k: nat)
    requires Ring(ns) && k < |ns| && d == ns[k]
    modifies ns`next, ns`prev
    ensures |ns| > 1 ==> Ring(Without(ns, k))
  {
    hide Shift, Without;
    ghost var n, w := |ns|, Without(ns, k);
    assert d.next == ns[After(k, n)];
    assert d.prev == ns[Before(k, n)] by { assert ns[After(Before(k, n), n)].prev == ns[Before(k, n)]; }
    d.next.prev := d.prev;
    d.prev.next := d.next;
    WithoutIsDistinct(ns, k);
    if n > 1 {
      forall i | 0 <= i < n - 1
        ensures w[i].next == w[After(i, n - 1)] && w[After(i, n - 1)].prev == w[i]
      {
        ShiftAfter(ns, k, i);
        assert ns[After(Shift(i, k), n)].prev == ns[Shift(i, k)];
      }
    }
  }

  // ----- the C heap -----

  datatype Event = Read(n: Node) | Freed(n: Node)

  /** `free` must get a node, and a field must be read of a node, that was not freed before. */
  class Allocator {
    var freed: seq<Node>
    /** What happened to nodes so far. */
    ghost var log: seq<Event>

    constructor ()
      ensures freed == [] && log == []
    {
      freed, log := [], [];
    }

    method Free(n: Node)
      requires n !in freed
      modifies this
      ensures freed == old(freed) + [n] && log == old(log) + [Freed(n)]
    {
      freed := freed + [n];
      log := log + [Freed(n)];
    }

    method Next(n: Node) returns (next: Node)
      requires n !in freed
      modifies this`log
      ensures next == n.next && log == old(log) + [Read(n)]
    {
      next := n.next;
      log := log + [Read(n)];
    }
  }

  /** Each node is read, then freed. */
  ghost function ReadThenFree(ns: seq<Node>): seq<Event> {
    if ns == [] then [] else ReadThenFree(ns[..|ns| - 1]) + [Read(ns[|ns| - 1]), Freed(ns[|ns| - 1])]
  }

  lemma {:induction false} ReadThenFreeAt(ns: seq<Node>, i: nat)
    requires i < 2 * |ns|
    ensures |ReadThenFree(ns)| == 2 * |ns|
    ensures ReadThenFree(ns)[i] == if i % 2 == 0 then Read(ns[i / 2]) else Freed(ns[i / 2])
    decreases |ns|
  {
    var front := ns[..|ns| - 1];
    if front != [] {
      ReadThenFreeAt(front, if i < 2 * |front| then i else 0);
    }
  }

  /** Once freed, a node is neither read nor freed again. */
  lemma NothingAfterFree(ns: seq<Node>, i: nat, j: nat)
    requires Distinct(ns) && i < j < |ReadThenFree(ns)| && ReadThenFree(ns)[i].Freed?
    ensures ReadThenFree(ns)[j].n != ReadThenFree(ns)[i].n
  {
    hide ReadThenFree;
    assert |ns| > 0 by { ReadNothing(ns); }
    ReadThenFreeAt(ns, 0);
    ReadThenFreeAt(ns, i);
    ReadThenFreeAt(ns, j);
    assert i / 2 < j / 2;
  }

  lemma ReadNothing(ns: seq<Node>)
    ensures ns == [] ==> ReadThenFree(ns) == []
  {
  }

  /** `free_memory_map`: every node is read for its successor and then freed, once, in ring order; so none is read
      after it is freed. */
  method FreeMemoryMap(heap: Allocator, head: Node, ghost ns: seq<Node>)
    requires Ring(ns) && head == ns[0] && forall i :: 0 <= i < |ns| ==> ns[i] !in heap.freed
    modifies heap
    ensures heap.freed == old(heap.freed) + ns
    ensures heap.log == old(heap.log) + ReadThenFree(ns)
    ensures forall i, j :: 0 <= i < j < |ReadThenFree(ns)| && ReadThenFree(ns)[i].Freed? ==>
      ReadThenFree(ns)[j].n != ReadThenFree(ns)[i].n
  {
    forall i, j | 0 <= i < j < |ReadThenFree(ns)| && ReadThenFree(ns)[i].Freed?
      ensures ReadThenFree(ns)[j].n != ReadThenFree(ns)[i].n
    {
      NothingAfterFree(ns, i, j);
    }
    var curr := head;
    ghost var k := 0;
    while true
      invariant 0 <= k < |ns| && curr == ns[k]
      invariant heap.freed == old(heap.freed) + ns[..k] && heap.log == old(heap.log) + ReadThenFree(ns[..k])
      decreases |ns| - k
    {
      assert ns[..k + 1][..k] == ns[..k];
      var next := heap.Next(curr);
      heap.Free(curr);
      assert heap.freed == old(heap.freed) + ns[..k + 1];
      assert next == ns[After(k, |ns|)];
      curr := next;
      if curr == head {
        assert After(k, |ns|) == 0;
        assert ns[..k + 1] == ns;
        return;
      }
      k := k + 1;
    }
  }

  // ----- removing a range of pages -----

  /** `left` is what stays of `ns`, in its old order, when the nodes of `gone` leave; these described the
      pages from `addr` on. */
  ghost predicate Removed(ns: seq<Node>, left: seq<Node>, kept: seq<nat>, gone: seq<Node>, addr: Word)
    reads gone`addr
  {
    && |kept| == |left| && |left| + |gone| == |ns| && Distinct(gone)
    && (forall i, j :: 0 <= i < j < |kept| ==> kept[i] < kept[j])
    && (forall i :: 0 <= i < |kept| ==> kept[i] < |ns| && left[i] == ns[kept[i]])
    && (forall j :: 0 <= j < |gone| ==> gone[j] in ns && gone[j] !in left && gone[j].addr == addr + PAGE_SZ * j)
  }

  lemma RemoveOne(ns: seq<Node>, left: seq<Node>, kept: seq<nat>, gone: seq<Node>, addr: Word, k: nat)
    requires Removed(ns, left, kept, gone, addr) && Distinct(left) && k < |left|
    requires left[k].addr == addr + PAGE_SZ * |gone|
    ensures Removed(ns, Without(left, k), kept[..k] + kept[k + 1..], gone + [left[k]], addr)
  {
    var left', kept', gone' := Without(left, k), kept[..k] + kept[k + 1..], gone + [left[k]];
    forall i | 0 <= i < |kept'|
      ensures kept'[i] < |ns| && left'[i] == ns[kept'[i]]
    {
    }
    assert left[k] == ns[kept[k]];
    forall j | 0 <= j < |gone'|
      ensures gone'[j] in ns && gone'[j] !in left' && gone'[j].addr == addr + PAGE_SZ * j
    {
    }
  }

  /** The body of the loop of `list_del_map`. If the page is the head's, its node is freed too, and the list is left
      with a head that is no part of the ring any more. */
  method DeletePage(heap: Allocator, head: Node, page: Word, ghost ns: seq<Node>) returns (found: bool, ghost k: nat)
    requires Ring(ns) && head == ns[0] && page % PAGE_SZ == 0
    requires forall i :: 0 <= i < |ns| ==> ns[i] !in heap.freed
    modifies heap, ns`next, ns`prev
    ensures k == Find(ns, page) && found == (k < |ns|)
    ensures found ==> heap.freed == old(heap.freed) + [ns[k]] && (|ns| > 1 ==> Ring(Without(ns, k)))
    ensures !found ==> Ring(ns) && heap.freed == old(heap.freed)
  {
    assert PageAlign(page) == page;
    hide After, Without, Distinct, Find, PageAlign;
    k := Find(ns, page);
    var d := GetMemDesc(head, page, ns);
    if d == null { return false, k; }
    Unlink(d, ns, k);
    heap.Free(d);
    found := true;
  }

  /** `Missing`: a page without a descriptor. `Dangling`: the head was freed, and the next lookup would start
      there. */
  datatype Deletion = Done | Missing | Dangling

  /** What is left is a ring that starts at the head, as long as the head is. */
  ghost predicate Intact(head: Node, left: seq<Node>, gone: seq<Node>)
    reads left
  {
    (left != [] ==> Ring(left)) && (head !in gone ==> left != [] && left[0] == head)
  }

  /** One round of that loop, for the page after those of `gone`. */
  method DeleteNext(heap: Allocator, head: Node, addr: Word, page: Word,
                    ghost ns: seq<Node>, ghost left: seq<Node>, ghost kept: seq<nat>, ghost gone: seq<Node>,
                    ghost before: seq<Node>)
    returns (found: bool, ghost left': seq<Node>, ghost kept': seq<nat>, ghost gone': seq<Node>)
    requires Intact(head, left, gone) && head !in gone && Removed(ns, left, kept, gone, addr)
    requires addr % PAGE_SZ == 0 && page == addr + PAGE_SZ * |gone|
    requires heap.freed == before + gone && forall i :: 0 <= i < |ns| ==> ns[i] !in before
    modifies heap, ns`next, ns`prev
    ensures Intact(head, left', gone') && Removed(ns, left', kept', gone', addr) && heap.freed == before + gone'
    ensures if found then |gone'| == |gone| + 1 && gone' == gone + [gone'[|gone|]] else gone' == gone
    ensures found && page == head.addr ==> gone'[|gone|] == head
    ensures found && page != head.addr ==> gone'[|gone|] != head
    ensures !found ==> forall i :: 0 <= i < |left'| ==> left'[i].addr != page
  {
    hide After, Removed, Distinct;
    assert Distinct(left);
    RemovedFacts(ns, left, kept, gone, addr);
    AlignedPage(addr, |gone|);
    hide Ring;
    left', kept', gone' := left, kept, gone;
    ghost var k;
    found, k := DeletePage(heap, head, page, left);
    if found {
      RemoveOne(ns, left, kept, gone, addr, k);
      FindHead(left, page);
      left', kept', gone' := Without(left, k), kept[..k] + kept[k + 1..], gone + [left[k]];
      assert before + gone + [left[k]] == before + gone';
    }
  }

  lemma FindHead(ns: seq<Node>, page: Word)
    requires Distinct(ns) && |ns| > 0
    ensures ns[0].addr == page ==> Find(ns, page) == 0
    ensures ns[0].addr != page && Find(ns, page) < |ns| ==> 0 < Find(ns, page) && ns[Find(ns, page)] != ns[0]
  {
  }

  function PageAt(addr: Word, j: nat): int {
    addr + PAGE_SZ * j
  }

  /** `list_del_map`: removes and frees the descriptors of the pages in order. It ends at the first page without one,
      for which the C function returns what it returns at the end, 0; or right after the head's page, when more
      pages are to come, in a lookup that starts at the freed head. */
  method ListDelMap(heap: Allocator, head: Node, addr: Word, pages: nat, ghost ns: seq<Node>)
    returns (outcome: Deletion, ghost left: seq<Node>, ghost kept: seq<nat>, ghost gone: seq<Node>)
    requires Ring(ns) && head == ns[0] && addr % PAGE_SZ == 0 && addr + PAGE_SZ * pages <= TWO64
    requires forall i :: 0 <= i < |ns| ==> ns[i] !in heap.freed
    modifies heap, ns`next, ns`prev
    ensures Intact(head, left, gone) && Removed(ns, left, kept, gone, addr) && heap.freed == old(heap.freed) + gone
    ensures outcome.Done? ==> |gone| == pages
    ensures outcome.Missing? ==> |gone| < pages && forall i :: 0 <= i < |left| ==> left[i].addr != PageAt(addr, |gone|)
    ensures outcome.Dangling? <==> head in gone && |gone| < pages
    ensures head in gone <==> exists j :: 0 <= j < |gone| && head.addr == PageAt(addr, j)
  {
    RingIsDistinct(ns);
    left, kept, gone := ns, seq(|ns|, i => i), [];
    NothingRemoved(ns, kept, addr);
    hide Ring, Removed, Intact;
    assert Intact(head, ns, []) by { StartsIntact(head, ns); }
    var i := 0;
    while i < PAGE_SZ * pages
      invariant i == PAGE_SZ * |gone| && |gone| <= pages
      invariant Intact(head, left, gone) && Removed(ns, left, kept, gone, addr)
      invariant heap.freed == old(heap.freed) + gone
      invariant head in gone ==> |gone| > 0 && head.addr == PageAt(addr, |gone| - 1)
      invariant head !in gone ==> forall j :: 0 <= j < |gone| ==> head.addr != PageAt(addr, j)
    {
      if head in heap.freed { return Dangling, left, kept, gone; }
      var found;
      found, left, kept, gone := DeleteNext(heap, head, addr, addr + i, ns, left, kept, gone, old(heap.freed));
      if !found { return Missing, left, kept, gone; }
      i := i + PAGE_SZ;
    }
    outcome := Done;
  }

  lemma StartsIntact(head: Node, ns: seq<Node>)
    requires Ring(ns) && head == ns[0]
    ensures Intact(head, ns, [])
  {
  }

  lemma AlignedPage(addr: Word, j: nat)
    requires addr % PAGE_SZ == 0
    ensures (addr + PAGE_SZ * j) % PAGE_SZ == 0
  {
    DivModUnique(addr + PAGE_SZ * j, PAGE_SZ, addr / PAGE_SZ + j, 0);
  }

  lemma NothingRemoved(ns: seq<Node>, kept: seq<nat>, addr: Word)
    requires Distinct(ns) && |kept| == |ns| && forall i :: 0 <= i < |kept| ==> kept[i] == i
    ensures Removed(ns, ns, kept, [], addr)
  {
  }

  lemma RemovedFacts(ns: seq<Node>, left: seq<Node>, kept: seq<nat>, gone: seq<Node>, addr: Word)
    requires Removed(ns, left, kept, gone, addr)
    ensures |kept| == |left| && forall i :: 0 <= i < |left| ==> left[i] in ns && left[i] !in gone
  {
  }

  lemma RingIsDistinct(ns: seq<Node>)
    requires Ring(ns)
    ensures Distinct(ns)
  {
  }
}
