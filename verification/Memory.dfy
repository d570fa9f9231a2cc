/**
 * Collector memory: cells with a mark bit and an intrusive `next` link, the
 * address list they form, and the pure facts the collector's loops rely on.
 */
module Memory {
  import opened Graph

  datatype Cell = Cell(obj: Object, marked: bool, next: Addr)

  type Mem = map<Addr, Cell>

  ghost function Objects(mem: Mem): (g: ObjectMap) {
    map a | a in mem :: mem[a].obj
  }

  ghost function Marked(mem: Mem): set<Addr> {
    set a | a in mem && mem[a].marked
  }

  ghost function Unmark(mem: Mem): Mem {
    map a | a in mem :: mem[a].(marked := false)
  }

  ghost predicate Distinct(list: seq<Addr>) {
    forall i, j | 0 <= i < j < |list| :: list[i] != list[j]
  }

  function At(list: seq<Addr>, i: nat, end: Addr): Addr {
    if i < |list| then list[i] else end
  }

  // Following `next` from `head` visits exactly the addresses of `list`, in
  // order, and then stops at `end`.
  ghost predicate Chained(mem: Mem, head: Addr, list: seq<Addr>, end: Addr) {
    && head == At(list, 0, end)
    && forall i | 0 <= i < |list| :: LinkedAt(mem, list, i, end)
  }

  ghost predicate LinkedAt(mem: Mem, list: seq<Addr>, i: nat, end: Addr)
    requires i < |list|
  {
    list[i] in mem && list[i] != 0 && mem[list[i]].next == At(list, i + 1, end)
  }

  ghost predicate Linked(mem: Mem, head: Addr, list: seq<Addr>) {
    Chained(mem, head, list, 0)
  }

  // The list holds every cell exactly once.
  ghost predicate Enumerates(mem: Mem, list: seq<Addr>) {
    && Distinct(list)
    && forall a :: a in mem <==> a in list
  }

  // The members of `list` that lie in `s` (or, with `inside` false, that do not), in order.
  ghost function Select(list: seq<Addr>, s: set<Addr>, inside: bool): (r: seq<Addr>)
    ensures |r| <= |list|
  {
    if list == [] then []
    else
      var rest := Select(list[..|list| - 1], s, inside);
      var a := list[|list| - 1];
      if (a in s) == inside then rest + [a] else rest
  }

  ghost function Restrict(g: ObjectMap, s: set<Addr>): ObjectMap {
    map a | a in g && a in s :: g[a]
  }

  lemma {:induction false} SelectMembers(list: seq<Addr>, s: set<Addr>, inside: bool)
    ensures forall a :: a in Select(list, s, inside) <==> a in list && (a in s) == inside
    ensures Distinct(list) ==> Distinct(Select(list, s, inside))
  {
    if list != [] {
      var prefix := list[..|list| - 1];
      SelectMembers(prefix, s, inside);
      assert list == prefix + [list[|list| - 1]];
    }
  }

  // Select keeps the relative order of what it keeps.
  lemma {:induction false} SelectKeepsOrder(list: seq<Addr>, s: set<Addr>, inside: bool, i: nat, j: nat)
    requires i < j < |Select(list, s, inside)|
    ensures exists i', j' ::
      && 0 <= i' < j' < |list|
      && list[i'] == Select(list, s, inside)[i] && list[j'] == Select(list, s, inside)[j]
  {
    var prefix := list[..|list| - 1];
    var rest := Select(prefix, s, inside);
    if j < |rest| {
      SelectKeepsOrder(prefix, s, inside, i, j);
      var i', j' :| 0 <= i' < j' < |prefix| && prefix[i'] == rest[i] && prefix[j'] == rest[j];
      assert list[i'] == rest[i] && list[j'] == rest[j];
    } else {
      SelectMembers(prefix, s, inside);
      assert rest[i] in prefix;
      var i' :| 0 <= i' < |prefix| && prefix[i'] == rest[i];
      assert list[i'] == rest[i] && list[|list| - 1] == Select(list, s, inside)[j];
    }
  }

  lemma SelectStep(list: seq<Addr>, i: nat, s: set<Addr>, inside: bool)
    requires i < |list|
    ensures Select(list[..i + 1], s, inside) ==
            Select(list[..i], s, inside) + if (list[i] in s) == inside then [list[i]] else []
  {
    assert list[..i + 1][..i] == list[..i];
  }

  // Tri-colour invariant of the mark phase.  Marked objects outside `grey` are
  // black: everything they refer to is marked.  Nothing unreachable is marked.
  ghost predicate TriColour(g: ObjectMap, roots: set<Addr>, marked: set<Addr>, grey: set<Addr>) {
    && grey <= marked <= Reach(g, roots)
    && forall a | a in marked - grey :: Refs(g[a]) <= marked
  }

  lemma MarkRoot(g: ObjectMap, roots: set<Addr>, marked: set<Addr>, grey: set<Addr>, a: Addr)
    requires TriColour(g, roots, marked, grey) && a in roots && a in g
    ensures TriColour(g, roots, marked + {a}, grey + {a})
  {
    RootIsReachable(g, roots, a);
  }

  lemma MarkChild(g: ObjectMap, roots: set<Addr>, marked: set<Addr>, grey: set<Addr>, o: Addr, a: Addr)
    requires TriColour(g, roots, marked, grey) && o in marked && a in Refs(g[o]) && a in g
    ensures TriColour(g, roots, marked + {a}, grey + {a})
  {
    EdgeIsReachable(g, roots, o, a);
  }

  // State of a mark phase that started from memory `before`: only mark bits have
  // changed, `pushed` lists the marked objects once each, and the grey objects
  // are the worklist plus `open`, the object whose fields are being visited.
  ghost predicate MarkPhase(before: Mem, roots: set<Addr>, mem: Mem, pushed: seq<Addr>, worklist: seq<Addr>,
                            open: set<Addr>) {
    && Closed(Objects(before))
    && roots <= before.Keys
    && Unmark(mem) == before
    && PushedOnce(pushed, Marked(mem))
    && Distinct(worklist)
    && TriColour(Objects(before), roots, Marked(mem), Members(worklist) + open)
  }

  ghost predicate PushedOnce(pushed: seq<Addr>, marked: set<Addr>) {
    Distinct(pushed) && Members(pushed) == marked
  }

  ghost function Members(list: seq<Addr>): set<Addr> {
    set a | a in list
  }

  lemma SetMark(mem: Mem, o: Addr)
    requires o in mem
    ensures Marked(mem[o := mem[o].(marked := true)]) == Marked(mem) + {o}
    ensures Unmark(mem[o := mem[o].(marked := true)]) == Unmark(mem)
  {
  }

  lemma Append(list: seq<Addr>, o: Addr)
    requires Distinct(list) && o !in list
    ensures Distinct(list + [o]) && Members(list + [o]) == Members(list) + {o}
  {
  }

  lemma MarkStep(before: Mem, roots: set<Addr>, mem: Mem, pushed: seq<Addr>, worklist: seq<Addr>, open: set<Addr>,
                 o: Addr, parent: Addr)
    requires MarkPhase(before, roots, mem, pushed, worklist, open)
    requires o in before && o !in Marked(mem)
    requires o in roots || (parent in Marked(mem) && o in Refs(Objects(before)[parent]))
    ensures MarkPhase(before, roots, mem[o := mem[o].(marked := true)], pushed + [o], worklist + [o], open)
  {
    SetMark(mem, o);
    assert o !in Members(pushed);
    Append(pushed, o);
    assert o !in Members(worklist);
    Append(worklist, o);
    var grey := Members(worklist) + open;
    if o in roots {
      MarkRoot(Objects(before), roots, Marked(mem), grey, o);
    } else {
      MarkChild(Objects(before), roots, Marked(mem), grey, parent, o);
    }
    assert Members(worklist + [o]) + open == grey + {o};
  }

  // `v` needs no further visit.
  ghost predicate Black(v: Value, marked: set<Addr>) {
    IsPointer(v) ==> v.addr in marked
  }

  ghost predicate FieldOf(v: Value, before: Mem, parent: Addr, marked: set<Addr>) {
    parent in before && parent in marked && v in Children(before[parent].obj)
  }

  // The bindings 0..n of a frame need no further visit.
  ghost predicate BindingsBlack(frame: Object, n: nat, marked: set<Addr>)
    requires frame.Env? && WellFormed(frame)
  {
    n <= |frame.names| && forall k | 0 <= k < n :: Black(frame.names[k], marked) && Black(frame.values[k], marked)
  }

  lemma BindingIsChild(frame: Object, k: nat)
    requires frame.Env? && WellFormed(frame) && k < |frame.names|
    ensures frame.names[k] in Children(frame) && frame.values[k] in Children(frame)
  {
    assert frame.names[k] in frame.names && frame.values[k] in frame.values;
  }

  lemma BindingsStep(frame: Object, k: nat, marked: set<Addr>, marked': set<Addr>, ok: bool)
    requires frame.Env? && WellFormed(frame) && k < |frame.names|
    requires ok ==> BindingsBlack(frame, k, marked) && marked <= marked'
    requires ok ==> Black(frame.names[k], marked') && Black(frame.values[k], marked')
    ensures ok ==> BindingsBlack(frame, k + 1, marked')
  {
  }

  lemma FrameMarked(frame: Object, marked: set<Addr>, ok: bool)
    requires frame.Env? && WellFormed(frame)
    requires ok ==> Black(frame.parent, marked) && BindingsBlack(frame, |frame.names|, marked)
    ensures ok ==> Refs(frame) <= marked
  {
  }

  lemma FieldsMarked(o: Object, marked: set<Addr>, ok: bool)
    requires ok ==> forall v | v in Children(o) :: Black(v, marked)
    ensures ok ==> Refs(o) <= marked
  {
  }

  lemma {:induction false} DistinctSize(list: seq<Addr>, s: set<Addr>)
    requires Distinct(list) && Members(list) <= s
    ensures |list| <= |s|
    decreases |list|
  {
    if list != [] {
      var rest, last := list[..|list| - 1], list[|list| - 1];
      assert last in Members(list);
      assert Members(rest) <= s - {last};
      DistinctSize(rest, s - {last});
    }
  }

  // Each object is pushed at most once per collection.
  lemma PushesAreBounded(before: Mem, roots: set<Addr>, mem: Mem, pushed: seq<Addr>, worklist: seq<Addr>,
                         open: set<Addr>)
    requires MarkPhase(before, roots, mem, pushed, worklist, open)
    ensures |pushed| <= |before|
  {
    DistinctSize(pushed, before.Keys);
  }

  lemma PopStep(before: Mem, roots: set<Addr>, mem: Mem, pushed: seq<Addr>, worklist: seq<Addr>)
    requires MarkPhase(before, roots, mem, pushed, worklist, {}) && worklist != []
    ensures MarkPhase(before, roots, mem, pushed, worklist[..|worklist| - 1], {worklist[|worklist| - 1]})
    ensures worklist[|worklist| - 1] in Marked(mem)
  {
    var o := worklist[|worklist| - 1];
    var rest := worklist[..|worklist| - 1];
    assert worklist == rest + [o];
    assert Members(rest) + {o} == Members(worklist) + {};
  }

  lemma BlackenStep(before: Mem, roots: set<Addr>, mem: Mem, pushed: seq<Addr>, worklist: seq<Addr>, o: Addr)
    requires MarkPhase(before, roots, mem, pushed, worklist, {o})
    requires o in before && Refs(before[o].obj) <= Marked(mem)
    ensures MarkPhase(before, roots, mem, pushed, worklist, {})
  {
    assert Members(worklist) + {} == Members(worklist);
  }

  /** When no grey object is left and the roots are marked, marked is exactly reachable. */
  lemma MarkingIsExact(g: ObjectMap, roots: set<Addr>, marked: set<Addr>)
    requires TriColour(g, roots, marked, {}) && roots * g.Keys <= marked
    ensures marked == Reach(g, roots)
  {
    ReachIsLeastAbsorbing(g, roots);
    assert Absorbs(g, roots, marked);
  }

  // Memory in the middle of a pass over `list`: the first `i` cells are unmarked,
  // everything else is as in `before`.
  ghost predicate ClearedUpTo(before: Mem, mem: Mem, list: seq<Addr>, i: nat)
    requires i <= |list|
  {
    && mem.Keys == before.Keys
    && (forall k | 0 <= k < i && list[k] in mem :: mem[list[k]] == before[list[k]].(marked := false))
    && (forall k | i <= k < |list| && list[k] in mem :: mem[list[k]] == before[list[k]])
  }

  lemma LastLink(mem: Mem, list: seq<Addr>, i: nat)
    requires i <= |list| && Linked(mem, At(list, 0, 0), list)
    ensures At(list, i, 0) != 0 <==> i < |list|
  {
    assert i < |list| ==> LinkedAt(mem, list, i, 0);
  }

  lemma ClearStep(before: Mem, mem: Mem, list: seq<Addr>, i: nat)
    requires i < |list| && Linked(before, At(list, 0, 0), list) && Distinct(list)
    requires ClearedUpTo(before, mem, list, i)
    ensures list[i] in mem && mem[list[i]].next == At(list, i + 1, 0)
    ensures ClearedUpTo(before, mem[list[i] := mem[list[i]].(marked := false)], list, i + 1)
  {
    assert LinkedAt(before, list, i, 0);
  }

  lemma ClearedAll(before: Mem, mem: Mem, list: seq<Addr>)
    requires Enumerates(before, list) && ClearedUpTo(before, mem, list, |list|)
    ensures mem == Unmark(before)
  {
    forall a | a in before ensures mem[a] == Unmark(before)[a] {
      var k :| 0 <= k < |list| && list[k] == a;
      assert list[k] in mem;
    }
  }

  // Sweep in the middle of the list: `kept` is linked in front of the unvisited
  // rest list[i..], which is untouched; of the visited part only members of `live` remain.
  ghost predicate SweptUpTo(before: Mem, live: set<Addr>, mem: Mem, head: Addr, list: seq<Addr>, i: nat,
                            kept: seq<Addr>)
    requires i <= |list|
  {
    && Chained(mem, head, kept, At(list, i, 0))
    && (forall k | 0 <= k < |kept| :: kept[k] in mem && !mem[kept[k]].marked)
    && Untouched(before, mem, list, i)
    && Remains(before, live, mem, list, i)
  }

  ghost predicate Untouched(before: Mem, mem: Mem, list: seq<Addr>, i: nat)
    requires i <= |list|
  {
    forall k | i <= k < |list| :: list[k] in before && list[k] in mem && mem[list[k]] == before[list[k]]
  }

  ghost predicate Remains(before: Mem, live: set<Addr>, mem: Mem, list: seq<Addr>, i: nat)
    requires i <= |list|
  {
    && (forall a | a in mem :: a in before && mem[a].obj == before[a].obj)
    && (forall k | 0 <= k < |list| :: list[k] in mem <==> k >= i || list[k] in live)
  }

  // The surviving cell list[i] becomes the last kept one.
  lemma SweepKeep(before: Mem, live: set<Addr>, mem: Mem, head: Addr, list: seq<Addr>, i: nat, kept: seq<Addr>, o: Addr)
    requires i < |list| && o == list[i] && o in live && Distinct(list) && o !in kept
    requires Linked(before, At(list, 0, 0), list)
    requires SweptUpTo(before, live, mem, head, list, i, kept)
    ensures o in mem
    ensures SweptUpTo(before, live, mem[o := mem[o].(marked := false)], head, list, i + 1, kept + [o])
  {
    assert LinkedAt(before, list, i, 0);
    var mem', kept', end' := mem[o := mem[o].(marked := false)], kept + [o], At(list, i + 1, 0);
    forall k | 0 <= k < |kept'| ensures LinkedAt(mem', kept', k, end') {
      assert k < |kept| ==> LinkedAt(mem, kept, k, o);
    }
  }

  // The dead cell list[i] is unlinked from its predecessor and released.
  lemma SweepDrop(before: Mem, live: set<Addr>, mem: Mem, head: Addr, list: seq<Addr>, i: nat, kept: seq<Addr>, o: Addr,
                  mem': Mem, head': Addr)
    requires i < |list| && o == list[i] && o !in live && Distinct(list) && o !in kept
    requires Distinct(kept) && forall a | a in kept :: a in list[..i] && a in live && a in mem
    requires Linked(before, At(list, 0, 0), list)
    requires SweptUpTo(before, live, mem, head, list, i, kept)
    requires o in mem
    requires head' == if kept == [] then mem[o].next else head
    requires mem' == (if kept == [] then mem
                      else var last := kept[|kept| - 1]; mem[last := mem[last].(next := mem[o].next)]) - {o}
    ensures SweptUpTo(before, live, mem', head', list, i + 1, kept)
  {
    assert LinkedAt(before, list, i, 0);
    if kept != [] {
      assert LinkedAt(mem, kept, |kept| - 1, o);
      assert kept[|kept| - 1] in list[..i];
    }
    forall k | 0 <= k < |kept| ensures kept[k] in mem' && !mem'[kept[k]].marked {
      assert kept[k] in kept && !mem[kept[k]].marked;
    }
    var end := At(list, i + 1, 0);
    forall k | 0 <= k < |kept| ensures LinkedAt(mem', kept, k, end) {
      assert LinkedAt(mem, kept, k, o);
    }
  }

  // The whole loop state, with what has been kept and freed so far.
  ghost predicate Sweeping(before: Mem, live: set<Addr>, mem: Mem, head: Addr, list: seq<Addr>, i: nat,
                           kept: seq<Addr>, dropped: seq<Addr>)
  {
    && i <= |list|
    && kept == Select(list[..i], live, true)
    && dropped == Select(list[..i], live, false)
    && SweptUpTo(before, live, mem, head, list, i, kept)
  }

  lemma SweepStart(mem: Mem, head: Addr, list: seq<Addr>)
    requires Linked(mem, head, list) && Enumerates(mem, list)
    ensures Sweeping(mem, Marked(mem), mem, head, list, 0, [], [])
  {
  }

  // The cell the loop looks at.
  lemma SweepLooksAt(before: Mem, live: set<Addr>, mem: Mem, head: Addr, list: seq<Addr>, i: nat,
                     kept: seq<Addr>, dropped: seq<Addr>)
    requires Sweeping(before, live, mem, head, list, i, kept, dropped)
    requires live == Marked(before) && Linked(before, At(list, 0, 0), list)
    ensures kept != [] ==> kept[|kept| - 1] in mem && kept[|kept| - 1] != 0
    ensures At(list, i, 0) == if kept == [] then head else mem[kept[|kept| - 1]].next
    ensures At(list, i, 0) != 0 <==> i < |list|
    ensures i < |list| ==> list[i] in mem && (mem[list[i]].marked <==> list[i] in live)
  {
    if i < |list| {
      assert LinkedAt(before, list, i, 0);
    }
    if kept != [] {
      assert LinkedAt(mem, kept, |kept| - 1, At(list, i, 0));
    }
  }

  lemma SweepKeepStep(before: Mem, live: set<Addr>, mem: Mem, head: Addr, list: seq<Addr>, i: nat,
                      kept: seq<Addr>, dropped: seq<Addr>, o: Addr)
    requires Sweeping(before, live, mem, head, list, i, kept, dropped)
    requires i < |list| && o == list[i] && o in live && o in mem
    requires Linked(before, At(list, 0, 0), list) && Distinct(list)
    ensures Sweeping(before, live, mem[o := mem[o].(marked := false)], head, list, i + 1, kept + [o], dropped)
  {
    SelectMembers(list[..i], live, true);
    SelectStep(list, i, live, true);
    SelectStep(list, i, live, false);
    SweepKeep(before, live, mem, head, list, i, kept, o);
  }

  lemma SweepDropStep(before: Mem, live: set<Addr>, mem: Mem, head: Addr, list: seq<Addr>, i: nat,
                      kept: seq<Addr>, dropped: seq<Addr>, o: Addr, mem': Mem, head': Addr)
    requires Sweeping(before, live, mem, head, list, i, kept, dropped)
    requires i < |list| && o == list[i] && o !in live && o in mem
    requires Linked(before, At(list, 0, 0), list) && Distinct(list)
    requires head' == if kept == [] then mem[o].next else head
    requires kept != [] ==> kept[|kept| - 1] in mem
    requires mem' == (if kept == [] then mem
                      else var last := kept[|kept| - 1]; mem[last := mem[last].(next := mem[o].next)]) - {o}
    ensures Sweeping(before, live, mem', head', list, i + 1, kept, dropped + [o])
  {
    SelectMembers(list[..i], live, true);
    SelectStep(list, i, live, true);
    SelectStep(list, i, live, false);
    forall a | a in kept ensures a in mem {
      var k :| 0 <= k < |kept| && kept[k] == a;
      assert LinkedAt(mem, kept, k, At(list, i, 0));
    }
    SweepDrop(before, live, mem, head, list, i, kept, o, mem', head');
  }

  // The cell `*link` designates; `previous` 0 means that link is &gc_head.
  ghost function LinkOf(mem: Mem, head: Addr, previous: Addr): Addr
    requires previous != 0 ==> previous in mem
  {
    if previous == 0 then head else mem[previous].next
  }

  // The list a sweep starts from.
  ghost predicate Sweepable(before: Mem, list: seq<Addr>) {
    Linked(before, At(list, 0, 0), list) && Distinct(list)
  }

  // Invariant of the sweep loop: `previous` is the last kept cell, and its link
  // designates the next cell to look at.
  ghost predicate SweepLoop(before: Mem, mem: Mem, head: Addr, list: seq<Addr>, previous: Addr, i: nat,
                            kept: seq<Addr>, dropped: seq<Addr>) {
    && Sweeping(before, Marked(before), mem, head, list, i, kept, dropped)
    && previous == (if kept == [] then 0 else kept[|kept| - 1])
    && (previous != 0 ==> previous in mem)
    && LinkOf(mem, head, previous) == At(list, i, 0)
    && (LinkOf(mem, head, previous) != 0 <==> i < |list|)
  }

  lemma SweepLoopHolds(before: Mem, mem: Mem, head: Addr, list: seq<Addr>, previous: Addr, i: nat,
                       kept: seq<Addr>, dropped: seq<Addr>)
    requires Sweepable(before, list) && Sweeping(before, Marked(before), mem, head, list, i, kept, dropped)
    requires previous == if kept == [] then 0 else kept[|kept| - 1]
    ensures SweepLoop(before, mem, head, list, previous, i, kept, dropped)
    ensures kept != [] ==> previous != 0 && previous in mem
    ensures i < |list| ==> list[i] in mem && (mem[list[i]].marked <==> list[i] in Marked(before))
  {
    SweepLooksAt(before, Marked(before), mem, head, list, i, kept, dropped);
  }

  lemma SweepMembers(before: Mem, live: set<Addr>, mem: Mem, list: seq<Addr>)
    requires Enumerates(before, list) && Remains(before, live, mem, list, |list|)
    ensures forall a :: a in mem <==> a in before && a in live
    ensures Objects(mem) == Restrict(Objects(before), live)
  {
    forall a ensures a in mem <==> a in before && a in live {
      if a in before {
        var k :| 0 <= k < |list| && list[k] == a;
      }
    }
  }

  lemma SweepResult(before: Mem, live: set<Addr>, mem: Mem, head: Addr, list: seq<Addr>,
                    kept: seq<Addr>, dropped: seq<Addr>)
    requires Enumerates(before, list)
    requires Sweeping(before, live, mem, head, list, |list|, kept, dropped)
    ensures kept == Select(list, live, true) && dropped == Select(list, live, false)
    ensures Linked(mem, head, kept) && Enumerates(mem, kept)
    ensures Objects(mem) == Restrict(Objects(before), live)
    ensures Marked(mem) == {}
  {
    assert list[..|list|] == list;
    assert At(list, |list|, 0) == 0;
    SelectMembers(list, live, true);
    SweepMembers(before, live, mem, list);
  }

  lemma MarkStart(mem: Mem, roots: set<Addr>)
    requires Closed(Objects(mem)) && roots <= mem.Keys && Marked(mem) == {}
    ensures MarkPhase(mem, roots, mem, [], [], {})
  {
    assert forall a | a in mem :: a !in Marked(mem);
    assert Unmark(mem) == mem;
  }

  // Marking changed only mark bits, so the list is as it was.
  lemma MarkingKeepsList(before: Mem, mem: Mem, list: seq<Addr>)
    requires Unmark(mem) == before && Linked(before, At(list, 0, 0), list) && Enumerates(before, list)
    ensures Linked(mem, At(list, 0, 0), list) && Enumerates(mem, list)
    ensures Objects(mem) == Objects(before)
  {
    forall i | 0 <= i < |list| ensures LinkedAt(mem, list, i, 0) {
      assert LinkedAt(before, list, i, 0);
      assert before[list[i]] == Unmark(mem)[list[i]];
    }
  }

  lemma LinkFront(mem: Mem, head: Addr, list: seq<Addr>, a: Addr, o: Object)
    requires Linked(mem, head, list) && Enumerates(mem, list) && a != 0 && a !in mem
    ensures Linked(mem[a := Cell(o, false, head)], a, [a] + list)
    ensures Enumerates(mem[a := Cell(o, false, head)], [a] + list)
    ensures Objects(mem[a := Cell(o, false, head)]) == Objects(mem)[a := o]
    ensures Marked(mem[a := Cell(o, false, head)]) == Marked(mem)
  {
    var mem', list' := mem[a := Cell(o, false, head)], [a] + list;
    forall i | 0 <= i < |list'| ensures LinkedAt(mem', list', i, 0) {
      if i > 0 {
        assert LinkedAt(mem, list, i - 1, 0);
        assert list'[i] == list[i - 1] && list[i - 1] in list;
      }
    }
    assert a !in list;
  }

  // Overwriting one object's fields leaves list and marks alone.
  lemma StoreObject(mem: Mem, head: Addr, list: seq<Addr>, a: Addr, o: Object)
    requires Linked(mem, head, list) && Enumerates(mem, list) && a in mem
    ensures var mem' := mem[a := mem[a].(obj := o)];
      (Linked(mem', head, list) && Enumerates(mem', list)
       && Objects(mem') == Objects(mem)[a := o] && Marked(mem') == Marked(mem))
  {
    var mem' := mem[a := mem[a].(obj := o)];
    forall i | 0 <= i < |list| ensures LinkedAt(mem', list, i, 0) {
      assert LinkedAt(mem, list, i, 0);
    }
  }

  // Releasing every cell: the bulk free at destruction.
  lemma FreeStep(before: Mem, mem: Mem, list: seq<Addr>, i: nat)
    requires i < |list| && Linked(before, At(list, 0, 0), list) && Distinct(list)
    requires Remains(before, {}, mem, list, i) && Untouched(before, mem, list, i)
    ensures list[i] in mem && mem[list[i]].next == At(list, i + 1, 0)
    ensures Remains(before, {}, mem - {list[i]}, list, i + 1) && Untouched(before, mem - {list[i]}, list, i + 1)
  {
    assert LinkedAt(before, list, i, 0);
  }

  // A closed heap restricted to what the roots reach is closed.
  lemma ReachIsClosed(g: ObjectMap, roots: set<Addr>)
    requires Closed(g)
    ensures Closed(Restrict(g, Reach(g, roots)))
  {
    ReachIsLeastAbsorbing(g, roots);
    var r := Restrict(g, Reach(g, roots));
    forall a | a in r ensures Refs(r[a]) <= r.Keys {
      assert Refs(g[a]) * g.Keys <= Reach(g, roots);
    }
  }

  lemma FreshAddressExists(mem: Mem)
    ensures exists a: Addr :: a != 0 && a !in mem
  {
    var bound := UpperBound(mem.Keys);
    assert bound + 1 !in mem;
  }

  lemma {:induction false} UpperBound(s: set<Addr>) returns (bound: nat)
    ensures forall a | a in s :: a <= bound
    decreases |s|
  {
    if s == {} {
      bound := 0;
    } else {
      var x :| x in s;
      var rest := UpperBound(s - {x});
      bound := if rest < x then x else rest;
      forall a | a in s ensures a <= bound {
        assert a == x || a in s - {x};
      }
    }
  }
}
