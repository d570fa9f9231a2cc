/**
 * Lists built back to front from rooted values, and walks along cdr, in the
 * collected heap.
 */
module HeapLists {
  import opened Basics
  import opened Graph
  import opened Gc
  import opened Unfolding
  import opened Inflight
  import Text

  // `v` is a proper list of exactly `items`, in cells outside `avoid`.
  ghost predicate ListOf(g: ObjectMap, v: Value, items: seq<Value>, avoid: set<Addr>)
    decreases |items|
  {
    if items == [] then v.Nil?
    else
      && IsCell(g, v, avoid)
      && g[v.addr].Pair?
      && g[v.addr].car == items[0]
      && ListOf(g, g[v.addr].cdr, items[1..], avoid)
  }

  lemma {:induction false} ListRetained(g: ObjectMap, g': ObjectMap, roots: set<Addr>, v: Value, items: seq<Value>,
                                        avoid: set<Addr>)
    requires Closed(g) && Retained(g, g', roots) && ListOf(g, v, items, avoid) && Live(v, Reach(g, roots))
    ensures ListOf(g', v, items, avoid)
    decreases |items|
  {
    if items != [] {
      ChildIsLive(g, roots, v.addr, g[v.addr].cdr);
      ListRetained(g, g', roots, g[v.addr].cdr, items[1..], avoid);
    }
  }

  // A list in progress over the heap `g0` of the caller, its cells apart from
  // everything the caller had rooted.
  ghost predicate Partial(g0: ObjectMap, roots0: set<Addr>, g: ObjectMap, v: Value, items: seq<Value>) {
    && Closed(g0)
    && roots0 <= g0.Keys
    && Retained(g0, g, roots0)
    && ListOf(g, v, items, Reach(g0, roots0))
  }

  /** Consing a rooted element onto the rooted list in progress, whatever is collected. */
  lemma ConsList(g0: ObjectMap, roots0: set<Addr>, g: ObjectMap, g': ObjectMap, roots: set<Addr>, v: Value,
                 items: seq<Value>, elem: Value, a: Addr)
    requires Partial(g0, roots0, g, v, items) && Closed(g) && roots0 <= roots
    requires Live(v, Reach(g, roots)) && Allocated(g, g', roots, a, Pair(elem, v))
    ensures Partial(g0, roots0, g', Ref(a), [elem] + items)
  {
    RetainedReach(g0, g, roots0);
    ReachIsMonotone(g, roots0, roots);
    RetainedTransitive(g0, g, g', roots0, roots);
    ListRetained(g, g', roots, v, items, Reach(g0, roots0));
    assert ([elem] + items)[1..] == items;
  }

  // What the caller had rooted is rooted still, and as it was.
  lemma RootedStays(g0: ObjectMap, roots0: set<Addr>, g: ObjectMap, roots: set<Addr>, v: Value)
    requires Closed(g0) && roots0 <= g0.Keys && Retained(g0, g, roots0) && roots0 <= roots
    requires Live(v, Reach(g0, roots0))
    ensures Live(v, Reach(g, roots))
  {
    RetainedReach(g0, g, roots0);
    ReachIsMonotone(g, roots0, roots);
  }

  // The caller's heap when a list builder was entered.
  datatype Entry = Entry(g: ObjectMap, toplevel: Value, protect: seq<Value>, refusals: nat) {
    ghost function Roots(): set<Addr> {
      Pointers([toplevel] + protect)
    }
  }

  ghost function Here(heap: Heap): Entry
    reads heap
  {
    Entry(heap.Objs(), heap.toplevel, heap.protect, heap.refusals)
  }

  // The state of both list builders between two conses: the slot on top of the
  // caller's protect stack holds the list so far.
  ghost predicate Growing(heap: Heap, e: Entry, list: Value, items: seq<Value>)
    reads heap
  {
    && heap.Valid()
    && heap.toplevel == e.toplevel
    && heap.protect == e.protect + [list]
    && heap.refusals >= e.refusals
    && Partial(e.g, e.Roots(), heap.Objs(), list, items)
  }

  // What every builder keeps, however it ends; without memory, a request was refused.
  ghost predicate Kept(heap: Heap, e: Entry, st: Status)
    reads heap
  {
    && heap.Valid()
    && heap.toplevel == e.toplevel
    && heap.protect == e.protect
    && Retained(e.g, heap.Objs(), e.Roots())
    && (st == OK || st == NoMem)
    && heap.refusals >= e.refusals + if st == NoMem then 1 else 0
  }

  // A cons that failed: the slot is dropped.
  method DropSlot(heap: Heap, ghost e: Entry, ghost g: ObjectMap, ghost roots: set<Addr>)
    requires heap.Valid() && Closed(e.g) && e.Roots() <= e.g.Keys && Retained(e.g, g, e.Roots())
    requires e.Roots() <= roots && Retained(g, heap.Objs(), roots)
    requires heap.toplevel == e.toplevel && |heap.protect| > 0 && heap.protect[..|heap.protect| - 1] == e.protect
    requires heap.refusals > e.refusals
    modifies heap`protect
    ensures Kept(heap, e, NoMem)
  {
    RetainedTransitive(e.g, g, heap.Objs(), e.Roots(), roots);
    heap.Restore(|heap.protect| - 1);
  }

  // One cons of list: the slot is refreshed with the new cell.
  method ConsIntoSlot(heap: Heap, elem: Value, list: Value, ghost items: seq<Value>, ghost e: Entry)
    returns (st: Status, cell: Value)
    requires Growing(heap, e, list, items) && Live(elem, Reach(e.g, e.Roots()))
    modifies heap
    ensures st == OK || st == NoMem
    ensures if st == OK then Growing(heap, e, cell, [elem] + items) else Kept(heap, e, st)
  {
    ghost var g, roots := heap.Objs(), heap.Roots();
    SlotRooted(heap, e, elem, list, items);
    st, cell := heap.AllocPair(elem, list);
    if st == OK {
      ConsList(e.g, e.Roots(), g, heap.Objs(), roots, list, items, elem, cell.addr);
      heap.SetSlot(|heap.protect| - 1, cell);
    } else {
      DropSlot(heap, e, g, roots);
    }
  }

  // What the caller rooted and the list so far are rooted.
  lemma SlotRooted(heap: Heap, e: Entry, elem: Value, list: Value, items: seq<Value>)
    requires Growing(heap, e, list, items) && Live(elem, Reach(e.g, e.Roots()))
    ensures e.Roots() <= heap.Roots() && Live(list, Reach(heap.Objs(), heap.Roots()))
    ensures Pointers([elem, list]) <= Reach(heap.Objs(), heap.Roots())
  {
    RootAdded(heap.Objs(), e.toplevel, e.protect, list);
    RootedStays(e.g, e.Roots(), heap.Objs(), heap.Roots(), elem);
    LiveFields(elem, list, Reach(heap.Objs(), heap.Roots()));
  }

  // The same, with the element protected as well across the allocation.
  method ConsProtected(heap: Heap, elem: Value, list: Value, ghost items: seq<Value>, ghost e: Entry)
    returns (st: Status, cell: Value)
    requires Growing(heap, e, list, items) && Live(elem, Reach(e.g, e.Roots()))
    modifies heap
    ensures st == OK || st == NoMem
    ensures if st == OK then Growing(heap, e, cell, [elem] + items) else Kept(heap, e, st)
  {
    ghost var g, roots := heap.Objs(), heap.Roots();
    ghost var more := roots + Pointers([elem]);
    SlotRooted(heap, e, elem, list, items);
    ReachIsMonotone(g, roots, more);
    st, cell := heap.ConsProtected(elem, list);
    if st == OK {
      ConsList(e.g, e.Roots(), g, heap.Objs(), more, list, items, elem, cell.addr);
      heap.SetSlot(|heap.protect| - 1, cell);
    } else {
      DropSlot(heap, e, g, roots);
    }
  }

  ghost predicate AllLive(argv: seq<Value>, live: set<Addr>) {
    forall i | 0 <= i < |argv| :: Live(argv[i], live)
  }

  lemma SuffixStep<T>(argv: seq<T>, i: nat)
    requires i < |argv|
    ensures argv[i..] == [argv[i]] + argv[i + 1..]
  {
  }

  // The empty list in its slot.
  method OpenSlot(heap: Heap) returns (st: Status)
    requires heap.Valid()
    modifies heap
    ensures st == OK || st == NoMem
    ensures if st == OK then Growing(heap, old(Here(heap)), Nil, []) else Kept(heap, old(Here(heap)), st)
  {
    st := heap.Protect(Nil);
  }

  // The finished list, off its slot.
  method CloseSlot(heap: Heap, saved: nat, list: Value, ghost items: seq<Value>, ghost e: Entry)
    requires Growing(heap, e, list, items) && saved == |e.protect|
    modifies heap`protect
    ensures Kept(heap, e, OK) && ListOf(heap.Objs(), list, items, Reach(e.g, e.Roots()))
  {
    heap.Restore(saved);
  }

  /** The list of argv[start..], under any collection schedule, with the protect stack back as it was. */
  method BuildList(heap: Heap, argv: seq<Value>, start: nat) returns (st: Status, out: Value)
    requires heap.Valid() && start <= |argv|
    requires AllLive(argv, Reach(heap.Objs(), heap.Roots()))
    modifies heap
    ensures Kept(heap, old(Here(heap)), st)
    ensures st == OK ==> ListOf(heap.Objs(), out, argv[start..], Reach(old(heap.Objs()), old(heap.Roots())))
  {
    ghost var e := Here(heap);
    out := Nil;
    var sp := |heap.protect|;
    st := OpenSlot(heap);
    if st != OK {
      return st, out;
    }
    var i := |argv|;
    while i > start
      invariant start <= i <= |argv| && st == OK
      invariant Growing(heap, e, out, argv[i..])
    {
      hide Growing, Kept, Heap.Valid;
      assert Live(argv[i - 1], Reach(e.g, e.Roots()));
      SuffixStep(argv, i - 1);
      st, out := ConsProtected(heap, argv[i - 1], out, argv[i..], e);
      if st != OK {
        return st, out;
      }
      i := i - 1;
    }
    CloseSlot(heap, sp, out, argv[start..], e);
  }

  /** The primitive `list`: its elements are the caller's to root. */
  method PrimList(heap: Heap, argv: seq<Value>) returns (st: Status, out: Value)
    requires heap.Valid()
    requires AllLive(argv, Reach(heap.Objs(), heap.Roots()))
    modifies heap
    ensures Kept(heap, old(Here(heap)), st)
    ensures st == OK ==> ListOf(heap.Objs(), out, argv, Reach(old(heap.Objs()), old(heap.Roots())))
  {
    ghost var e := Here(heap);
    out := Nil;
    var sp := |heap.protect|;
    st := OpenSlot(heap);
    if st != OK {
      return st, out;
    }
    var i := |argv|;
    while i > 0
      invariant 0 <= i <= |argv| && st == OK
      invariant Growing(heap, e, out, argv[i..])
    {
      hide Growing, Kept, Heap.Valid;
      assert Live(argv[i - 1], Reach(e.g, e.Roots()));
      SuffixStep(argv, i - 1);
      st, out := ConsIntoSlot(heap, argv[i - 1], out, argv[i..], e);
      if st != OK {
        return st, out;
      }
      i := i - 1;
    }
    assert argv[i..] == argv;
    CloseSlot(heap, sp, out, argv, e);
  }

  // ---------------------------------------------------------------- walks

  // The pairs along the spine of a tree.
  function SpineLength(d: Text.Datum): nat {
    if d.Pair? then 1 + SpineLength(d.cdr) else 0
  }

  /**
   * Walks along cdr.  In an acyclic heap it ends, with the number of pairs on the
   * spine and whether the spine ends in the empty list.
   */
  method ProperListLength(heap: Heap, v: Value) returns (proper: bool, length: nat, ghost d: Text.Datum)
    requires heap.Valid() && InHeap(heap.Objs(), v)
    ensures Builds(heap.Objs(), [], v, d, {})
    ensures proper == ProperList(d) && length == SpineLength(d)
  {
    ValueHasTree(heap.Objs(), v);
    d :| Builds(heap.Objs(), [], v, d, {});
    ghost var rest := d;
    var cur := v;
    length := 0;
    while cur.Ref? && cur.addr != 0 && heap.mem[cur.addr].obj.Pair?
      invariant Builds(heap.Objs(), [], cur, rest, {})
      invariant InHeap(heap.Objs(), cur)
      invariant length + SpineLength(rest) == SpineLength(d)
      invariant ProperList(rest) == ProperList(d)
      decreases rest
    {
      length := length + 1;
      rest := rest.cdr;
      cur := heap.mem[cur.addr].obj.cdr;
      assert InHeap(heap.Objs(), cur) by {
        if IsPointer(cur) {
          assert rest.Pair? || rest.Str? || rest.Opaque?;
        }
      }
    }
    proper := cur.Nil?;
  }
}
