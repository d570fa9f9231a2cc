/**
 * Lists under construction: what the reader's half-built list looks like in the
 * heap, and how it comes through collections, allocations and its own patches.
 */
module Inflight {
  import opened Graph
  import opened Unfolding
  import opened RoundTrip
  import Text

  // A list followed by another tail.
  function Append(d: Text.Datum, tail: Text.Datum): Text.Datum {
    if d.Pair? then Text.Pair(d.car, Append(d.cdr, tail)) else tail
  }

  function Snoc(d: Text.Datum, last: Text.Datum): Text.Datum {
    Append(d, Text.Pair(last, Text.Nil))
  }

  lemma {:induction false} AppendNil(d: Text.Datum)
    requires ProperList(d)
    ensures Append(d, Text.Nil) == d
    decreases d
  {
    if d.Pair? {
      AppendNil(d.cdr);
    }
  }

  predicate ProperList(d: Text.Datum) {
    d.Nil? || (d.Pair? && ProperList(d.cdr))
  }

  lemma {:induction false} AppendAfterSnoc(d: Text.Datum, last: Text.Datum, tail: Text.Datum)
    ensures Append(Snoc(d, last), tail) == Append(d, Text.Pair(last, tail))
    decreases d
  {
    if d.Pair? {
      AppendAfterSnoc(d.cdr, last, tail);
    }
  }

  // The proper list `d` starting at cell `a`; `tail` is its last cell and no
  // part of an element.
  ghost predicate Holed(g: ObjectMap, names: Names, a: Addr, d: Text.Datum, tail: Addr, avoid: set<Addr>)
    decreases d
  {
    && d.Pair?
    && IsCell(g, Ref(a), avoid)
    && g[a].Pair?
    && Builds(g, names, g[a].car, d.car, avoid + {tail})
    && if d.cdr.Nil? then a == tail && g[a].cdr.Nil?
       else a != tail && g[a].cdr.Ref? && Holed(g, names, g[a].cdr.addr, d.cdr, tail, avoid)
  }

  lemma {:induction false} HoledTail(g: ObjectMap, names: Names, a: Addr, d: Text.Datum, tail: Addr, avoid: set<Addr>,
                                     roots: set<Addr>)
    requires Holed(g, names, a, d, tail, avoid) && Closed(g) && a in Reach(g, roots)
    ensures tail in g && tail != 0 && g[tail].Pair? && tail !in avoid && tail in Reach(g, roots)
    decreases d
  {
    if !d.cdr.Nil? {
      ChildIsLive(g, roots, a, g[a].cdr);
      HoledTail(g, names, g[a].cdr.addr, d.cdr, tail, avoid, roots);
    }
  }

  /** A half-built list whose first cell is rooted survives a collection untouched. */
  lemma {:induction false} HoledRetained(g: ObjectMap, g': ObjectMap, roots: set<Addr>, names: Names, a: Addr,
                                         d: Text.Datum, tail: Addr, avoid: set<Addr>, avoid': set<Addr>)
    requires Closed(g) && Retained(g, g', roots) && Holed(g, names, a, d, tail, avoid) && a in Reach(g, roots)
    requires avoid' * Reach(g, roots) <= avoid
    ensures Holed(g', names, a, d, tail, avoid')
    decreases d
  {
    ChildIsLive(g, roots, a, g[a].car);
    BuildsRetained(g, g', roots, names, g[a].car, d.car, avoid + {tail}, avoid' + {tail});
    if !d.cdr.Nil? {
      ChildIsLive(g, roots, a, g[a].cdr);
      HoledRetained(g, g', roots, names, g[a].cdr.addr, d.cdr, tail, avoid, avoid');
    }
  }

  lemma {:induction false} HoledMoreNames(g: ObjectMap, names: Names, names': Names, a: Addr, d: Text.Datum, tail: Addr,
                                          avoid: set<Addr>)
    requires Holed(g, names, a, d, tail, avoid) && names <= names' && Readable(d)
    ensures Holed(g, names', a, d, tail, avoid)
    decreases d
  {
    BuildsMoreNames(g, names, names', g[a].car, d.car, avoid + {tail});
    if !d.cdr.Nil? {
      HoledMoreNames(g, names, names', g[a].cdr.addr, d.cdr, tail, avoid);
    }
  }

  /** Closed by a parenthesis, the half-built list is the list. */
  lemma {:induction false} HoledBuilds(g: ObjectMap, names: Names, a: Addr, d: Text.Datum, tail: Addr, avoid: set<Addr>)
    requires Holed(g, names, a, d, tail, avoid)
    ensures Builds(g, names, Ref(a), d, avoid) && ProperList(d)
    decreases d
  {
    BuildsLess(g, names, g[a].car, d.car, avoid + {tail}, avoid);
    if !d.cdr.Nil? {
      HoledBuilds(g, names, g[a].cdr.addr, d.cdr, tail, avoid);
    }
  }

  /** Closed by a dotted tail, it is the list with that tail. */
  lemma {:induction false} PatchWithTail(g: ObjectMap, names: Names, a: Addr, d: Text.Datum, tail: Addr,
                                         avoid: set<Addr>,
                                         v: Value, end: Text.Datum)
    requires Holed(g, names, a, d, tail, avoid) && tail in g && g[tail].Pair?
    requires Builds(g, names, v, end, avoid + {tail})
    ensures Builds(g[tail := g[tail].(cdr := v)], names, Ref(a), Append(d, end), avoid)
    decreases d
  {
    var o := g[tail].(cdr := v);
    var g' := g[tail := o];
    BuildsStored(g, tail, o, names, g[a].car, d.car, avoid + {tail});
    BuildsLess(g', names, g[a].car, d.car, avoid + {tail}, avoid);
    if d.cdr.Nil? {
      BuildsStored(g, tail, o, names, v, end, avoid + {tail});
      BuildsLess(g', names, v, end, avoid + {tail}, avoid);
    } else {
      PatchWithTail(g, names, g[a].cdr.addr, d.cdr, tail, avoid, v, end);
    }
  }

  // The new last cell on its own, after the patch that links it.
  lemma NewTail(g: ObjectMap, names: Names, tail: Addr, avoid: set<Addr>, c: Addr, last: Text.Datum)
    requires tail in g && g[tail].Pair?
    requires c in g && c != 0 && c != tail && c !in avoid && g[c].Pair? && g[c].cdr.Nil?
    requires Builds(g, names, g[c].car, last, avoid + {c} + {tail})
    ensures Holed(g[tail := g[tail].(cdr := Ref(c))], names, c, Text.Pair(last, Text.Nil), c, avoid)
  {
    var o := g[tail].(cdr := Ref(c));
    BuildsStored(g, tail, o, names, g[c].car, last, avoid + {c} + {tail});
    BuildsLess(g[tail := o], names, g[c].car, last, avoid + {c} + {tail}, avoid + {c});
  }

  /** Linking a fresh cell behind the last one extends the half-built list by its element. */
  lemma {:induction false} PatchWithCell(g: ObjectMap, names: Names, a: Addr, d: Text.Datum, tail: Addr,
                                         avoid: set<Addr>,
                                         c: Addr, last: Text.Datum)
    requires Holed(g, names, a, d, tail, avoid + {c}) && tail in g && g[tail].Pair?
    requires c in g && c != 0 && c != tail && c !in avoid && g[c].Pair? && g[c].cdr.Nil?
    requires Builds(g, names, g[c].car, last, avoid + {c} + {tail})
    ensures Holed(g[tail := g[tail].(cdr := Ref(c))], names, a, Snoc(d, last), c, avoid)
    decreases d
  {
    var o := g[tail].(cdr := Ref(c));
    var g' := g[tail := o];
    BuildsStored(g, tail, o, names, g[a].car, d.car, avoid + {c} + {tail});
    BuildsLess(g', names, g[a].car, d.car, avoid + {c} + {tail}, avoid + {c});
    if d.cdr.Nil? {
      NewTail(g, names, tail, avoid, c, last);
      assert Append(d.cdr, Text.Pair(last, Text.Nil)) == Text.Pair(last, Text.Nil);
    } else {
      PatchWithCell(g, names, g[a].cdr.addr, d.cdr, tail, avoid, c, last);
    }
  }

  // ---------------------------------------------------------------- heap steps

  /** Protecting a value that is in the heap makes it a root like the others. */
  lemma RootAdded(g: ObjectMap, toplevel: Value, protect: seq<Value>, v: Value)
    requires InHeap(g, v)
    ensures Pointers([toplevel] + (protect + [v])) == Pointers([toplevel] + protect) + Pointers([v])
    ensures Live(v, Reach(g, Pointers([toplevel] + (protect + [v]))))
  {
    var roots := Pointers([toplevel] + (protect + [v]));
    assert forall w :: w in [toplevel] + (protect + [v]) <==> w in [toplevel] + protect || w == v;
    if IsPointer(v) {
      RootIsReachable(g, roots, v.addr);
    }
  }

  lemma LiveFields(v: Value, w: Value, live: set<Addr>)
    requires Live(v, live) && Live(w, live)
    ensures Pointers([v, w]) <= live
  {
  }

  /** A pair of two rooted trees, allocated: a tree again, apart from all that was rooted before. */
  lemma ConsBuilds(g0: ObjectMap, g: ObjectMap, g': ObjectMap, roots0: set<Addr>, roots: set<Addr>, names: Names,
                   car: Value, dcar: Text.Datum, cdr: Value, dcdr: Text.Datum, a: Addr)
    requires Closed(g0) && roots0 <= g0.Keys && Retained(g0, g, roots0)
    requires Closed(g) && roots0 <= roots
    requires Live(car, Reach(g, roots)) && Live(cdr, Reach(g, roots))
    requires Builds(g, names, car, dcar, Reach(g0, roots0)) && Builds(g, names, cdr, dcdr, Reach(g0, roots0))
    requires Allocated(g, g', roots, a, Pair(car, cdr))
    ensures Retained(g0, g', roots0)
    ensures Builds(g', names, Ref(a), Text.Pair(dcar, dcdr), Reach(g0, roots0))
  {
    var avoid := Reach(g0, roots0);
    RetainedReach(g0, g, roots0);
    ReachIsMonotone(g, roots0, roots);
    RetainedTransitive(g0, g, g', roots0, roots);
    BuildsRetained(g, g', roots, names, car, dcar, avoid, avoid);
    BuildsRetained(g, g', roots, names, cdr, dcdr, avoid, avoid);
  }

  // The half-built list rooted at `head`, in a heap that still has everything
  // the caller had rooted.
  ghost predicate Building(g0: ObjectMap, roots0: set<Addr>, g: ObjectMap, names: Names, head: Addr, d: Text.Datum,
                           tail: Addr) {
    var building :=
      && Closed(g0)
      && roots0 <= g0.Keys
      && Retained(g0, g, roots0)
      && Holed(g, names, head, d, tail, Reach(g0, roots0))
      && Readable(d);
    building
  }

  lemma BuildingStarts(g0: ObjectMap, roots0: set<Addr>, g: ObjectMap, names: Names, head: Addr)
    requires Closed(g0) && roots0 <= g0.Keys && Allocated(g0, g, roots0, head, Pair(Nil, Nil))
    ensures Building(g0, roots0, g, names, head, Text.Pair(Text.Nil, Text.Nil), head)
  {
  }

  lemma BuildingHead(g0: ObjectMap, roots0: set<Addr>, g: ObjectMap, names: Names, head: Addr, d: Text.Datum,
                     tail: Addr)
    requires Building(g0, roots0, g, names, head, d, tail)
    ensures head in g && head != 0 && d.Pair?
    ensures Closed(g0) && roots0 <= g0.Keys && Retained(g0, g, roots0) && Readable(d)
  {
  }

  lemma BuildingTail(g0: ObjectMap, roots0: set<Addr>, g: ObjectMap, names: Names, head: Addr, d: Text.Datum,
                     tail: Addr)
    requires Building(g0, roots0, g, names, head, d, tail) && Closed(g)
    ensures tail in g && g[tail].Pair? && tail !in Reach(g0, roots0)
    ensures tail in Reach(g, roots0 + {head})
  {
    RootIsReachable(g, roots0 + {head}, head);
    HoledTail(g, names, head, d, tail, Reach(g0, roots0), roots0 + {head});
  }

  /** Reading one more form, with any collections in it, leaves the list alone and the new value apart from it. */
  lemma AfterForm(g0: ObjectMap, roots0: set<Addr>, g: ObjectMap, g': ObjectMap, names: Names, names': Names,
                  head: Addr,
                  d: Text.Datum, tail: Addr, v: Value, last: Text.Datum)
    requires Building(g0, roots0, g, names, head, d, tail) && Closed(g) && names <= names'
    requires Retained(g, g', roots0 + {head}) && Builds(g', names', v, last, Reach(g, roots0 + {head}))
    ensures Building(g0, roots0, g', names', head, d, tail)
    ensures Builds(g', names', v, last, Reach(g0, roots0) + {tail})
  {
    var roots := roots0 + {head};
    StillBuilding(g0, roots0, g, g', names, names', head, d, tail);
    BuildingTail(g0, roots0, g, names, head, d, tail);
    RetainedReach(g0, g, roots0);
    ReachIsMonotone(g, roots0, roots);
    BuildsLess(g', names', v, last, Reach(g, roots), Reach(g0, roots0) + {tail});
  }

  lemma StillBuilding(g0: ObjectMap, roots0: set<Addr>, g: ObjectMap, g': ObjectMap, names: Names, names': Names,
                      head: Addr, d: Text.Datum, tail: Addr)
    requires Building(g0, roots0, g, names, head, d, tail) && Closed(g) && names <= names'
    requires Retained(g, g', roots0 + {head})
    ensures Building(g0, roots0, g', names', head, d, tail)
  {
    var roots, avoid := roots0 + {head}, Reach(g0, roots0);
    RootIsReachable(g, roots, head);
    HoledRetained(g, g', roots, names, head, d, tail, avoid, avoid);
    HoledMoreNames(g', names, names', head, d, tail, avoid);
    RetainedTransitive(g0, g, g', roots0, roots);
  }

  // The cell `c` waits to be linked behind `tail`; linked, it makes the list `d`.
  ghost predicate Unlinked(g0: ObjectMap, roots0: set<Addr>, g: ObjectMap, names: Names, head: Addr, d: Text.Datum,
                           tail: Addr, c: Addr) {
    && c in g
    && tail in g
    && g[tail].Pair?
    && HasTree(g, Ref(c), {tail})
    && Building(g0, roots0, g[tail := g[tail].(cdr := Ref(c))], names, head, d, c)
  }

  /** Allocating the cell for an element, whatever is collected, and linking it. */
  lemma AfterCell(g0: ObjectMap, roots0: set<Addr>, g: ObjectMap, g': ObjectMap, roots: set<Addr>, names: Names,
                  head: Addr,
                  d: Text.Datum, tail: Addr, v: Value, last: Text.Datum, c: Addr)
    requires Building(g0, roots0, g, names, head, d, tail) && Closed(g)
    requires roots0 + {head} <= roots && Live(v, Reach(g, roots))
    requires Builds(g, names, v, last, Reach(g0, roots0) + {tail}) && Readable(last)
    requires Allocated(g, g', roots, c, Pair(v, Nil))
    ensures Retained(g0, g', roots0)
    ensures Unlinked(g0, roots0, g', names, head, Snoc(d, last), tail, c)
  {
    var avoid := Reach(g0, roots0);
    CellIsApart(g0, roots0, g, roots, names, head, d, tail, c);
    RetainedTransitive(g0, g, g', roots0, roots);
    HoledRetained(g, g', roots, names, head, d, tail, avoid, avoid + {c});
    BuildsRetained(g, g', roots, names, v, last, avoid + {tail}, avoid + {c} + {tail});
    PatchWithCell(g', names, head, d, tail, avoid, c, last);
    BuildsLess(g', names, v, last, avoid + {c} + {tail}, {tail});
    assert Builds(g', names, Ref(c), Text.Pair(last, Text.Nil), {tail});
    TreeWithoutNames(g', names, Ref(c), Text.Pair(last, Text.Nil), {tail});
    SnocIsReadable(d, last);
  }

  lemma CellIsApart(g0: ObjectMap, roots0: set<Addr>, g: ObjectMap, roots: set<Addr>, names: Names, head: Addr,
                    d: Text.Datum, tail: Addr, c: Addr)
    requires Building(g0, roots0, g, names, head, d, tail) && Closed(g)
    requires roots0 + {head} <= roots && c !in Reach(g, roots)
    ensures head in Reach(g, roots) && tail in Reach(g, roots)
    ensures c !in Reach(g0, roots0) && c != tail && tail !in Reach(g0, roots0) && tail in g && g[tail].Pair?
  {
    RootIsReachable(g, roots, head);
    HoledTail(g, names, head, d, tail, Reach(g0, roots0), roots);
    RetainedReach(g0, g, roots0);
    ReachIsMonotone(g, roots0, roots);
  }

  lemma {:induction false} SnocIsReadable(d: Text.Datum, last: Text.Datum)
    requires Readable(d) && Readable(last)
    ensures Readable(Snoc(d, last))
    decreases d
  {
    if d.Pair? {
      SnocIsReadable(d.cdr, last);
    }
  }

  /** Storing the form after a dot. */
  lemma AfterDot(g0: ObjectMap, roots0: set<Addr>, g: ObjectMap, names: Names, head: Addr, d: Text.Datum, tail: Addr,
                 v: Value, end: Text.Datum)
    requires Building(g0, roots0, g, names, head, d, tail) && Closed(g)
    requires Builds(g, names, v, end, Reach(g0, roots0) + {tail})
    ensures tail in g && g[tail].Pair? && InHeap(g, v) && HasTree(g, v, {tail})
    ensures Retained(g0, g[tail := g[tail].(cdr := v)], roots0)
    ensures Builds(g[tail := g[tail].(cdr := v)], names, Ref(head), Append(d, end), Reach(g0, roots0))
  {
    var avoid := Reach(g0, roots0);
    BuildingTail(g0, roots0, g, names, head, d, tail);
    BuildsLess(g, names, v, end, avoid + {tail}, {tail});
    TreeWithoutNames(g, names, v, end, {tail});
    PatchWithTail(g, names, head, d, tail, avoid, v, end);
  }
}
