/**
 * Mark-and-sweep collector, protect stack and object allocation.
 */
module Gc {
  import opened Basics
  import opened Graph
  import opened Memory
  import Unfolding

  const POINTER_SIZE: nat := 8
  const THRESHOLD_FLOOR: nat := 4096
  // Every object header takes 16 bytes, so a 64-bit address space holds no more.
  const MAX_OBJECTS: nat := 0x1000_0000_0000_0000

  // The counters that decide when a collection runs and what sweeping costs.
  datatype Cost = Cost(live: nat, threshold: nat, survivors: nat, allocations: nat, visits: nat)

  ghost predicate CostStarts(c: Cost) {
    c.live == c.survivors == c.allocations == c.visits == 0
  }

  // Outside stress mode: no completed collection, or one that the threshold asked for.
  ghost predicate MayCollect(c: Cost, c': Cost) {
    || c' == c
    || (c.live >= c.threshold && c'.live <= c.live && c' == CollectedCost(c, c'.live))
  }

  // The counters after a collection that keeps `live` objects.
  ghost function CollectedCost(c: Cost, live: nat): Cost {
    Cost(live, if 2 * live > THRESHOLD_FLOOR then 2 * live else THRESHOLD_FLOOR, live, c.allocations, c.visits + c.live)
  }

  ghost function Grow(c: Cost): Cost {
    c.(live := c.live + 1, allocations := c.allocations + 1)
  }

  // One allocation request, granted or refused.
  ghost predicate AllocStep(c: Cost, c': Cost) {
    exists m :: MayCollect(c, m) && (c' == m || c' == Grow(m))
  }

  ghost predicate CostRun(run: seq<Cost>) {
    && run != []
    && CostStarts(run[0])
    && forall i | 0 <= i < |run| - 1 :: AllocStep(run[i], run[i + 1])
  }

  // Every object visited so far is paid for by two allocations made before the last sweep.
  ghost predicate CostBound(c: Cost) {
    && c.survivors <= c.live
    && (c.survivors == 0 || 2 * c.survivors <= c.threshold)
    && c.visits <= 2 * (c.allocations - (c.live - c.survivors))
  }

  lemma AllocStepKeepsBound(c: Cost, c': Cost)
    requires CostBound(c) && AllocStep(c, c')
    ensures CostBound(c')
  {
    var m :| MayCollect(c, m) && (c' == m || c' == Grow(m));
    assert CostBound(m);
  }

  lemma {:induction false} RunKeepsBound(run: seq<Cost>, i: nat)
    requires CostRun(run) && i < |run|
    ensures CostBound(run[i])
  {
    if i > 0 {
      RunKeepsBound(run, i - 1);
      assert AllocStep(run[i - 1], run[i - 1 + 1]);
      AllocStepKeepsBound(run[i - 1], run[i]);
    }
  }

  /** Over any run of allocations, all sweeps together visit at most two objects per allocation. */
  lemma SweepingIsAmortised(run: seq<Cost>, i: nat)
    requires CostRun(run) && i < |run|
    ensures run[i].visits <= 2 * run[i].allocations
  {
    RunKeepsBound(run, i);
  }

  lemma BindingRefs(o: Object, o': Object)
    requires o.Env? && o'.Env? && o.parent == o'.parent
    ensures Refs(o) <= Refs(o') + Pointers(o.names + o.values)
  {
    forall b | b in Refs(o) ensures b in Refs(o') + Pointers(o.names + o.values) {
      var v :| v in Children(o) && IsPointer(v) && v.addr == b;
      assert v == o.parent || v in o.names + o.values;
      assert o.parent in Children(o');
    }
  }

  // A collection only drops what the roots do not reach.
  lemma CollectionShrinks(g: ObjectMap, g': ObjectMap, roots: set<Addr>, completed: bool)
    requires Closed(g) && Closed(g') && Unfolding.Acyclic(g)
    requires g' == if completed then Restrict(g, Reach(g, roots)) else g
    ensures Shrunk(g, g', roots) && Unfolding.Acyclic(g')
  {
    Unfolding.DroppingKeepsAcyclic(g, g');
  }

  // A collection, perhaps, and then a new cell.
  lemma AllocatedAfter(g: ObjectMap, g1: ObjectMap, roots: set<Addr>, a: Addr, o: Object)
    requires Shrunk(g, g1, roots) && a != 0 && a !in g1
    ensures Allocated(g, g1[a := o], roots, a, o)
  {
  }

  lemma StillAllocated(g: ObjectMap, g1: ObjectMap, roots: set<Addr>, o: Object)
    requires Shrunk(g, g1, roots) && Refs(o) <= Reach(g, roots)
    ensures Refs(o) <= g1.Keys
  {
  }

  lemma RootPushed(toplevel: Value, protect: seq<Value>, v: Value)
    ensures Pointers([toplevel] + (protect + [v])) == Pointers([toplevel] + protect) + Pointers([v])
  {
    assert forall w :: w in [toplevel] + (protect + [v]) <==> w in [toplevel] + protect || w == v;
  }

  lemma CarIsRooted(g: ObjectMap, toplevel: Value, protect: seq<Value>, car: Value, cdr: Value)
    requires IsPointer(car) ==> car.addr in g
    requires Pointers([cdr]) <= Reach(g, Pointers([toplevel] + protect))
    ensures Pointers([toplevel] + (protect + [car])) == Pointers([toplevel] + protect) + Pointers([car])
    ensures Pointers([car, cdr]) <= Reach(g, Pointers([toplevel] + (protect + [car])))
    ensures Reach(g, Pointers([toplevel] + protect)) <= Reach(g, Pointers([toplevel] + (protect + [car])))
  {
    var roots, more := Pointers([toplevel] + protect), Pointers([toplevel] + (protect + [car]));
    RootPushed(toplevel, protect, car);
    ReachIsMonotone(g, roots, more);
    if IsPointer(car) {
      RootIsReachable(g, more, car.addr);
    }
  }

  class Heap {
    var mem: Mem
    var gcHead: Addr
    var liveObjects: nat
    var threshold: nat
    var toplevel: Value
    var protect: seq<Value>
    var protectCap: nat
    var stress: bool
    var marklist: seq<Addr>
    var marklistCap: nat

    ghost var list: seq<Addr>     // the gc_head list
    ghost var freed: seq<Addr>    // every free so far, in order
    ghost var pushed: seq<Addr>   // worklist pushes of the current collection, in order
    ghost var allocations: nat    // objects linked so far
    ghost var sweepVisits: nat    // objects visited by all sweeps so far
    ghost var survivors: nat      // live count after the last sweep
    ghost var stressed: bool      // stress mode was on at some time
    ghost var refusals: nat       // requests the allocator refused or that no allocator could meet

    ghost function Objs(): ObjectMap
      reads `mem
    {
      Objects(mem)
    }

    ghost function Roots(): set<Addr>
      reads `toplevel, `protect
    {
      Pointers([toplevel] + protect)
    }

    // The heap is a well-formed list of cells with no dangling reference.
    ghost predicate Shape()
      reads `mem, `gcHead, `list, `liveObjects, `toplevel, `protect
    {
      && Linked(mem, gcHead, list)
      && Enumerates(mem, list)
      && liveObjects == |list| <= MAX_OBJECTS
      && Closed(Objs())
      && Roots() <= mem.Keys
    }

    // What a collection needs: any closed graph of objects, cycles of every kind
    // included, with all marks clear.
    ghost predicate Sound()
      reads `mem, `gcHead, `list, `liveObjects, `toplevel, `protect, `protectCap
    {
      Shape() && Marked(mem) == {} && |protect| <= protectCap
    }

    // The counters, and what all sweeps so far have cost.
    ghost predicate Accounted()
      reads `liveObjects, `threshold, `survivors, `allocations, `sweepVisits, `stress, `stressed
    {
      && survivors <= liveObjects
      && survivors + survivors <= threshold
      && liveObjects - survivors <= allocations
      && (stress ==> stressed)
      && (!stressed ==> CostBound(CostOf()))
    }

    // A heap that the interpreter can reach: also without cycles along car and
    // cdr or along frame parents.
    ghost predicate Valid()
      reads `mem, `gcHead, `list, `liveObjects, `toplevel, `protect, `protectCap,
        `threshold, `survivors, `allocations, `sweepVisits, `stress, `stressed
    {
      Sound() && Unfolding.Acyclic(Objs()) && Accounted()
    }

    ghost function CostOf(): Cost
      reads `liveObjects, `threshold, `survivors, `allocations, `sweepVisits
    {
      Cost(liveObjects, threshold, survivors, allocations, sweepVisits)
    }

    // Every pointer in any field of any object, and every root, leads to an object of the heap.
    ghost predicate NoDangling()
      reads `mem, `toplevel, `protect
    {
      && (forall a | a in mem :: WordsIn(mem[a].obj, mem.Keys))
      && PointsInto(toplevel, mem.Keys)
      && forall i | 0 <= i < |protect| :: PointsInto(protect[i], mem.Keys)
    }

    // The heap holds nothing but roots and what fields of its own objects name.
    ghost predicate NoOrphans()
      reads `mem, `toplevel, `protect
    {
      forall b | b in mem ::
        IsRoot(toplevel, protect, b) || exists a :: a in mem && Stores(mem[a].obj, b)
    }

    /** No object of a well-formed heap, and no root, has a dangling pointer in any of its fields. */
    lemma NothingDangles()
      requires Shape()
      ensures NoDangling()
    {
      forall a | a in mem ensures WordsIn(mem[a].obj, mem.Keys) {
        assert Refs(Objs()[a]) <= Objs().Keys;
        WordsAreReferences(mem[a].obj, mem.Keys);
      }
      forall v | v in [toplevel] + protect ensures PointsInto(v, mem.Keys) {
        assert IsPointer(v) ==> v.addr in Roots();
      }
      assert ([toplevel] + protect)[0] == toplevel;
      forall i | 0 <= i < |protect| ensures PointsInto(protect[i], mem.Keys) {
        assert protect[i] in protect;
      }
    }

    /** What the roots reach is the least set with the roots and all that fields of its members name. */
    lemma ReachedThroughFields(b: Addr)
      requires Shape()
      ensures b in Reach(Objs(), Roots()) <==>
        && b != 0
        && (IsRoot(toplevel, protect, b) || exists a :: a in Reach(Objs(), Roots()) && Stores(mem[a].obj, b))
    {
      ReachableThroughFields(Objs(), toplevel, protect, b);
    }

    constructor (initialThreshold: nat)
      ensures Valid() && CostStarts(CostOf())
      ensures mem == map[] && protect == [] && toplevel == Ref(0) && !stressed
      ensures threshold == (if initialThreshold != 0 then initialThreshold else THRESHOLD_FLOOR)
    {
      mem, gcHead, liveObjects := map[], 0, 0;
      threshold := if initialThreshold != 0 then initialThreshold else THRESHOLD_FLOOR;
      toplevel, protect, protectCap := Ref(0), [], 0;
      stress := false;
      marklist, marklistCap := [], 0;
      list, freed, pushed := [], [], [];
      allocations, sweepVisits, survivors, refusals := 0, 0, 0, 0;
      stressed := false;
    }

    // The embedder's allocator: it may refuse any request.
    method RawAlloc(size: nat) returns (ok: bool)
      modifies `refusals
      ensures refusals == old(refusals) + if ok then 0 else 1
    {
      if * {
        ok := true;
      } else {
        ok := false;
        refusals := refusals + 1;
      }
    }

    // gc_stress
    method SetStress(on: bool)
      requires Valid()
      modifies `stress, `stressed
      ensures Valid() && stress == on && stressed == (old(stressed) || on)
    {
      stress := on;
      stressed := stressed || on;
    }

    /** In every reachable heap, unless stress mode was on, sweeping visited at most two objects per allocation. */
    lemma SweepingStaysAmortised()
      requires Valid() && !stressed
      ensures sweepVisits <= 2 * allocations
    {
    }

    // ---------------------------------------------------------------- mark

    ghost predicate Marking(before: Mem, open: set<Addr>)
      reads this
    {
      |marklist| <= marklistCap && MarkPhase(before, Roots(), mem, pushed, marklist, open)
    }

    method PushMark(o: Addr) returns (ok: bool)
      requires |marklist| <= marklistCap
      modifies `marklist, `marklistCap, `refusals
      ensures |marklist| <= marklistCap
      ensures marklist == if ok then old(marklist) + [o] else old(marklist)
      ensures refusals == old(refusals) + if ok then 0 else 1
      ensures !ok ==> old(|marklist|) == old(marklistCap)
    {
      if |marklist| == marklistCap {
        var newCap := if marklistCap == 0 then 64 else marklistCap * 2;
        var bytes := newCap * POINTER_SIZE;
        if bytes > SIZE_MAX {
          refusals := refusals + 1;
          return false;
        }
        var grown := RawAlloc(bytes);
        if !grown {
          return false;
        }
        marklistCap := newCap;
      }
      marklist := marklist + [o];
      ok := true;
    }

    // Marks and queues the object `v` points at, unless it is marked already.
    // It is justified by being a root or a field of the marked object `parent`.
    method Visit(v: Value, ghost before: Mem, ghost open: set<Addr>, ghost parent: Addr) returns (ok: bool)
      requires Marking(before, open)
      requires v in [toplevel] + protect || FieldOf(v, before, parent, Marked(mem))
      modifies `mem, `marklist, `marklistCap, `pushed, `refusals
      ensures Unmark(mem) == before && refusals == old(refusals) + if ok then 0 else 1
      ensures ok ==> Marking(before, open)
      ensures ok ==> Black(v, Marked(mem))
      ensures !ok ==> IsPointer(v) && v.addr !in old(Marked(mem))
      ensures old(Marked(mem)) <= Marked(mem)
      ensures |pushed| > old(|pushed|) || (|pushed| == old(|pushed|) && marklist == old(marklist))
    {
      if !IsPointer(v) {
        return true;
      }
      var o := v.addr;
      assert o in Roots() || o in Refs(Objects(before)[parent]);
      assert o in Unmark(mem);
      if mem[o].marked {
        return true;
      }
      MarkStep(before, Roots(), mem, pushed, marklist, open, o, parent);
      SetMark(mem, o);
      mem := mem[o := mem[o].(marked := true)];
      pushed := pushed + [o];
      ok := PushMark(o);
    }

    // One pass of the drain loop's switch: visits every field of `o`.
    method VisitFields(o: Addr, ghost before: Mem) returns (ok: bool)
      requires o in before && o in Marked(mem) && Marking(before, {o})
      modifies `mem, `marklist, `marklistCap, `pushed, `refusals
      ensures Unmark(mem) == before && refusals == old(refusals) + if ok then 0 else 1
      ensures ok ==> Marking(before, {o}) && Refs(before[o].obj) <= Marked(mem)
      ensures ok ==> WordsIn(before[o].obj, Marked(mem))
      ensures old(Marked(mem)) <= Marked(mem)
      ensures |pushed| > old(|pushed|) || (|pushed| == old(|pushed|) && marklist == old(marklist))
    {
      ghost var obj := before[o].obj;
      assert mem[o].obj == obj;
      match mem[o].obj
      case Pair(car, cdr) =>
        ok := VisitBoth(o, car, cdr, before);
        FieldsMarked(obj, Marked(mem), ok);
      case Str(_) =>
        ok := true;
      case Prim(_, _, _) =>
        ok := true;
      case Closure(env, params, body, _, _) =>
        ok := VisitClosure(o, env, params, body, before);
      case Env(parent, names, values, _) =>
        ok := Visit(parent, before, {o}, o);
        if ok {
          ok := VisitBindings(o, names, values, before);
        }
        FrameMarked(obj, Marked(mem), ok);
      WordsAreReferences(before[o].obj, Marked(mem));
    }

    method VisitClosure(o: Addr, env: Value, params: Value, body: Value, ghost before: Mem) returns (ok: bool)
      requires o in before && o in Marked(mem) && Marking(before, {o})
      requires Children(before[o].obj) == [env, params, body]
      modifies `mem, `marklist, `marklistCap, `pushed, `refusals
      ensures Unmark(mem) == before && refusals == old(refusals) + if ok then 0 else 1
      ensures ok ==> Marking(before, {o}) && Refs(before[o].obj) <= Marked(mem)
      ensures old(Marked(mem)) <= Marked(mem)
      ensures |pushed| > old(|pushed|) || (|pushed| == old(|pushed|) && marklist == old(marklist))
    {
      hide MarkPhase;
      ghost var fields := Children(before[o].obj);
      assert env == fields[0] && params == fields[1] && body == fields[2];
      ok := VisitBoth(o, env, params, before);
      if ok {
        ok := Visit(body, before, {o}, o);
      }
      FieldsMarked(before[o].obj, Marked(mem), ok);
    }

    method VisitBoth(o: Addr, first: Value, second: Value, ghost before: Mem) returns (ok: bool)
      requires o in before && o in Marked(mem) && Marking(before, {o})
      requires first in Children(before[o].obj) && second in Children(before[o].obj)
      modifies `mem, `marklist, `marklistCap, `pushed, `refusals
      ensures Unmark(mem) == before && refusals == old(refusals) + if ok then 0 else 1
      ensures ok ==> Marking(before, {o}) && Black(first, Marked(mem)) && Black(second, Marked(mem))
      ensures old(Marked(mem)) <= Marked(mem)
      ensures |pushed| > old(|pushed|) || (|pushed| == old(|pushed|) && marklist == old(marklist))
    {
      hide MarkPhase;
      ok := Visit(first, before, {o}, o);
      if ok {
        ok := Visit(second, before, {o}, o);
      }
    }

    method VisitBindings(o: Addr, names: seq<Value>, values: seq<Value>, ghost before: Mem) returns (ok: bool)
      requires o in before && o in Marked(mem) && Marking(before, {o})
      requires before[o].obj.Env? && WellFormed(before[o].obj)
      requires names == before[o].obj.names && values == before[o].obj.values
      modifies `mem, `marklist, `marklistCap, `pushed, `refusals
      ensures Unmark(mem) == before && refusals == old(refusals) + if ok then 0 else 1
      ensures ok ==> Marking(before, {o}) && BindingsBlack(before[o].obj, |names|, Marked(mem))
      ensures old(Marked(mem)) <= Marked(mem)
      ensures |pushed| > old(|pushed|) || (|pushed| == old(|pushed|) && marklist == old(marklist))
    {
      var i := 0;
      ok := true;
      while ok && i < |values|
        invariant 0 <= i <= |values|
        invariant Unmark(mem) == before && refusals == old(refusals) + if ok then 0 else 1
        invariant ok ==> Marking(before, {o}) && BindingsBlack(before[o].obj, i, Marked(mem))
        invariant old(Marked(mem)) <= Marked(mem)
        invariant |pushed| > old(|pushed|) || (|pushed| == old(|pushed|) && marklist == old(marklist))
      {
        ghost var marked := Marked(mem);
        BindingIsChild(before[o].obj, i);
        ok := VisitBoth(o, values[i], names[i], before);
        BindingsStep(before[o].obj, i, marked, Marked(mem), ok);
        i := i + 1;
      }
    }

    method DrainWorklist(ghost before: Mem) returns (ok: bool)
      requires Marking(before, {})
      modifies `mem, `marklist, `marklistCap, `pushed, `refusals
      ensures Unmark(mem) == before && refusals == old(refusals) + if ok then 0 else 1
      ensures ok ==> marklist == [] && Marking(before, {})
      ensures old(Marked(mem)) <= Marked(mem)
    {
      while |marklist| > 0
        invariant Unmark(mem) == before && refusals == old(refusals)
        invariant Marking(before, {})
        invariant old(Marked(mem)) <= Marked(mem)
        decreases |before| - |pushed|, |marklist|
      {
        PushesAreBounded(before, Roots(), mem, pushed, marklist, {});
        var o := marklist[|marklist| - 1];
        PopStep(before, Roots(), mem, pushed, marklist);
        marklist := marklist[..|marklist| - 1];
        ok := VisitFields(o, before);
        if !ok {
          return false;
        }
        BlackenStep(before, Roots(), mem, pushed, marklist, o);
        PushesAreBounded(before, Roots(), mem, pushed, marklist, {});
      }
      ok := true;
    }

    method ClearAllMarks()
      requires Linked(mem, gcHead, list) && Enumerates(mem, list)
      modifies `mem
      ensures mem == Unmark(old(mem))
    {
      ghost var i := 0;
      LastLink(mem, list, i);
      var o := gcHead;
      while o != 0
        invariant 0 <= i <= |list| && o == At(list, i, 0)
        invariant o != 0 <==> i < |list|
        invariant ClearedUpTo(old(mem), mem, list, i)
        decreases |list| - i
      {
        ClearStep(old(mem), mem, list, i);
        var next := mem[o].next;
        mem := mem[o := mem[o].(marked := false)];
        o := next;
        i := i + 1;
        LastLink(old(mem), list, i);
      }
      ClearedAll(old(mem), mem, list);
    }

    // ---------------------------------------------------------------- sweep

    method FreeObject(o: Addr)
      requires o in mem
      modifies `mem, `freed
      ensures mem == old(mem) - {o}
      ensures freed == old(freed) + [o]
    {
      mem := mem - {o};
      freed := freed + [o];
    }

    function Link(previous: Addr): (o: Addr)
      requires previous != 0 ==> previous in mem
      reads this
      ensures o == LinkOf(mem, gcHead, previous)
    {
      if previous == 0 then gcHead else mem[previous].next
    }

    method Unlink(previous: Addr, o: Addr)
      requires o in mem && (previous != 0 ==> previous in mem)
      modifies `mem, `gcHead
      ensures gcHead == if previous == 0 then old(mem)[o].next else old(gcHead)
      ensures mem == if previous == 0 then old(mem)
                     else old(mem)[previous := old(mem)[previous].(next := old(mem)[o].next)]
    {
      if previous == 0 {
        gcHead := mem[o].next;
      } else {
        mem := mem[previous := mem[previous].(next := mem[o].next)];
      }
    }

    // One turn of the sweep loop on the cell `o`.
    method SweepCell(previous: Addr, o: Addr, ghost before: Mem, ghost i: nat, ghost kept: seq<Addr>,
                     ghost dropped: seq<Addr>, ghost freed0: seq<Addr>)
      returns (survived: bool, ghost kept': seq<Addr>, ghost dropped': seq<Addr>)
      requires Sweepable(before, list) && freed == freed0 + dropped
      requires SweepLoop(before, mem, gcHead, list, previous, i, kept, dropped) && i < |list| && o == list[i]
      modifies `mem, `gcHead, `freed
      ensures SweepLoop(before, mem, gcHead, list, if survived then o else previous, i + 1, kept', dropped')
      ensures |kept'| == |kept| + (if survived then 1 else 0)
      ensures freed == freed0 + dropped'
    {
      hide Sweeping, Sweepable;
      SweepLoopHolds(before, mem, gcHead, list, previous, i, kept, dropped);
      survived := mem[o].marked;
      kept' := if survived then kept + [o] else kept;
      dropped' := if survived then dropped else dropped + [o];
      if survived {
        KeepCell(o, before, i, kept, dropped);
        SweepLoopHolds(before, mem, gcHead, list, o, i + 1, kept', dropped');
      } else {
        DropCell(previous, o, before, i, kept, dropped);
        SweepLoopHolds(before, mem, gcHead, list, previous, i + 1, kept', dropped');
      }
    }

    method KeepCell(o: Addr, ghost before: Mem, ghost i: nat, ghost kept: seq<Addr>, ghost dropped: seq<Addr>)
      requires Sweepable(before, list) && Sweeping(before, Marked(before), mem, gcHead, list, i, kept, dropped)
      requires i < |list| && o == list[i] && o in mem && o in Marked(before)
      modifies `mem
      ensures Sweeping(before, Marked(before), mem, gcHead, list, i + 1, kept + [o], dropped)
    {
      SweepKeepStep(before, Marked(before), mem, gcHead, list, i, kept, dropped, o);
      mem := mem[o := mem[o].(marked := false)];
    }

    method DropCell(previous: Addr, o: Addr, ghost before: Mem, ghost i: nat, ghost kept: seq<Addr>,
                    ghost dropped: seq<Addr>)
      requires Sweepable(before, list) && Sweeping(before, Marked(before), mem, gcHead, list, i, kept, dropped)
      requires i < |list| && o == list[i] && o in mem && o !in Marked(before)
      requires previous == if kept == [] then 0 else kept[|kept| - 1]
      requires kept != [] ==> previous != 0 && previous in mem
      modifies `mem, `gcHead, `freed
      ensures Sweeping(before, Marked(before), mem, gcHead, list, i + 1, kept, dropped + [o])
      ensures freed == old(freed) + [o]
    {
      ghost var mem0, head0 := mem, gcHead;
      Unlink(previous, o);
      FreeObject(o);
      SweepDropStep(before, Marked(before), mem0, head0, list, i, kept, dropped, o, mem, gcHead);
    }

    // The sweep loop proper.
    method SweepList() returns (live: nat, ghost kept: seq<Addr>, ghost dropped: seq<Addr>)
      requires Linked(mem, gcHead, list) && Enumerates(mem, list)
      modifies `mem, `gcHead, `freed, `sweepVisits
      ensures Sweeping(old(mem), Marked(old(mem)), mem, gcHead, list, |list|, kept, dropped)
      ensures live == |kept| && freed == old(freed) + dropped && sweepVisits == old(sweepVisits) + |list|
    {
      hide Sweeping;
      ghost var before, i, freed0 := mem, 0, freed;
      kept, dropped := [], [];
      SweepStart(mem, gcHead, list);
      assert Sweepable(mem, list);
      var previous: Addr := 0;
      live := 0;
      SweepLoopHolds(before, mem, gcHead, list, previous, i, kept, dropped);
      while Link(previous) != 0
        invariant i <= |list| && SweepLoop(before, mem, gcHead, list, previous, i, kept, dropped)
        invariant live == |kept|
        invariant freed == freed0 + dropped && sweepVisits == old(sweepVisits) + i
        decreases |list| - i
      {
        var o, survived := Link(previous), false;
        survived, kept, dropped := SweepCell(previous, o, before, i, kept, dropped, freed0);
        if survived {
          previous := o;
          live := live + 1;
        }
        sweepVisits := sweepVisits + 1;
        i := i + 1;
      }
    }

    // Frees every unmarked object, unlinking it, and clears the marks of the rest.
    method Sweep()
      requires Linked(mem, gcHead, list) && Enumerates(mem, list)
      modifies `mem, `gcHead, `liveObjects, `list, `freed, `sweepVisits, `survivors
      ensures list == Select(old(list), old(Marked(mem)), true)
      ensures freed == old(freed) + Select(old(list), old(Marked(mem)), false)
      ensures Linked(mem, gcHead, list) && Enumerates(mem, list)
      ensures Objs() == Restrict(old(Objs()), old(Marked(mem)))
      ensures Marked(mem) == {}
      ensures liveObjects == |list| == survivors
      ensures sweepVisits == old(sweepVisits) + old(|list|)
    {
      var live;
      ghost var kept, dropped;
      live, kept, dropped := SweepList();
      SweepResult(old(mem), Marked(old(mem)), mem, gcHead, list, kept, dropped);
      liveObjects := live;
      list := kept;
      survivors := live;
    }

    // ---------------------------------------------------------------- collect

    method MarkRoots(ghost before: Mem) returns (ok: bool)
      requires Marking(before, {}) && marklist == []
      modifies `mem, `marklist, `marklistCap, `pushed, `refusals
      ensures Unmark(mem) == before && refusals == old(refusals) + if ok then 0 else 1
      ensures ok ==> Marking(before, {}) && Roots() <= Marked(mem)
    {
      ok := Visit(toplevel, before, {}, 0);
      var i := 0;
      while ok && i < |protect|
        invariant i <= |protect|
        invariant Unmark(mem) == before && refusals == old(refusals) + if ok then 0 else 1
        invariant ok ==> Marking(before, {})
        invariant ok ==> Black(toplevel, Marked(mem)) && forall k | 0 <= k < i :: Black(protect[k], Marked(mem))
      {
        assert protect[i] in protect;
        ok := Visit(protect[i], before, {}, 0);
        i := i + 1;
      }
    }

    method Mark() returns (ok: bool)
      requires Shape() && Marked(mem) == {}
      modifies `mem, `marklist, `marklistCap, `pushed, `refusals
      ensures Unmark(mem) == old(mem) && refusals == old(refusals) + if ok then 0 else 1
      ensures ok ==> Marked(mem) == Reach(old(Objs()), Roots()) && PushedOnce(pushed, Marked(mem)) && marklist == []
    {
      MarkStart(mem, Roots());
      marklist, pushed := [], [];
      ok := MarkRoots(old(mem));
      if ok {
        ok := DrainWorklist(old(mem));
      }
      if ok {
        MarkingIsExact(Objects(old(mem)), Roots(), Marked(mem));
      }
    }

    // What a completed collection does to the heap, in terms of the heap before.
    ghost predicate Collected(before: Mem, list0: seq<Addr>, freed0: seq<Addr>)
      reads this
    {
      var live := Reach(Objects(before), Roots());
      && Objs() == Restrict(Objects(before), live)
      && list == Select(list0, live, true)
      && freed == freed0 + Select(list0, live, false)
      && PushedOnce(pushed, live)
      && threshold == if 2 * |list| > THRESHOLD_FLOOR then 2 * |list| else THRESHOLD_FLOOR
    }

    // The completed branch: `before` is the memory the mark phase started from.
    method SweepAndRetune(ghost before: Mem)
      requires Linked(mem, gcHead, list) && Enumerates(mem, list)
      requires Closed(Objects(before)) && Roots() <= before.Keys && Objs() == Objects(before)
      requires Marked(mem) == Reach(Objects(before), Roots()) && PushedOnce(pushed, Marked(mem))
      requires |list| <= MAX_OBJECTS
      modifies `mem, `gcHead, `liveObjects, `list, `freed, `sweepVisits, `survivors, `threshold
      ensures Shape() && Marked(mem) == {}
      ensures Collected(before, old(list), old(freed))
      ensures survivors == liveObjects && sweepVisits == old(sweepVisits) + old(|list|)
    {
      ReachIsClosed(Objects(before), Roots());
      ReachIsLeastAbsorbing(Objects(before), Roots());
      Sweep();
      assert Objs().Keys == mem.Keys;
      var doubled := liveObjects * 2;
      if doubled > SIZE_MAX {
        doubled := SIZE_MAX;
      }
      threshold := if doubled > THRESHOLD_FLOOR then doubled else THRESHOLD_FLOOR;
    }

    /**
     * A collection of any closed heap: exact when it completes; when the worklist
     * cannot grow, and only then, it aborts without effect on the heap.
     */
    method Collect() returns (ghost completed: bool)
      requires Sound()
      modifies `mem, `gcHead, `liveObjects, `list, `freed, `pushed, `sweepVisits, `survivors, `threshold,
        `marklist, `marklistCap, `refusals
      ensures Sound() && marklist == []
      ensures refusals == old(refusals) + if completed then 0 else 1
      ensures completed ==> Collected(old(mem), old(list), old(freed))
      ensures NoDangling() && (completed ==> NoOrphans())
      ensures completed ==> survivors == liveObjects && sweepVisits == old(sweepVisits) + old(|list|)
      ensures !completed ==>
        && mem == old(mem) && gcHead == old(gcHead) && list == old(list)
        && liveObjects == old(liveObjects) && threshold == old(threshold)
        && freed == old(freed) && survivors == old(survivors) && sweepVisits == old(sweepVisits)
    {
      var ok := Mark();
      MarkingKeepsList(old(mem), mem, list);
      if ok {
        SweepAndRetune(old(mem));
      } else {
        ClearAllMarks();
        marklist := [];
      }
      completed := ok;
      NothingDangles();
      if completed {
        NothingOrphaned(Objects(old(mem)));
      }
    }

    // What is left is what the roots reached, so each object has something that names it.
    lemma NothingOrphaned(g: ObjectMap)
      requires Shape() && Closed(g) && Roots() <= g.Keys && Objs() == Restrict(g, Reach(g, Roots()))
      ensures NoOrphans()
    {
      forall b | b in mem
        ensures IsRoot(toplevel, protect, b) || exists a :: a in mem && Stores(mem[a].obj, b)
      {
        assert b in Objs();
        ReachableThroughFields(g, toplevel, protect, b);
        if !IsRoot(toplevel, protect, b) {
          var a :| a in Reach(g, Roots()) && Stores(g[a], b);
          assert a in Objs() && Objs()[a] == g[a];
        }
      }
    }

    // ---------------------------------------------------------------- allocate

    // What allocation and the protect stack leave alone.
    twostate predicate SameRoots()
      reads this
    {
      && toplevel == old(toplevel) && protect == old(protect) && protectCap == old(protectCap)
      && stress == old(stress) && stressed == old(stressed) && refusals >= old(refusals)
    }

    // A collection keeps the heap free of cycles along car, cdr and parents.
    method CollectAcyclic() returns (ghost completed: bool)
      requires Sound() && Unfolding.Acyclic(Objs())
      modifies `mem, `gcHead, `liveObjects, `list, `freed, `pushed, `sweepVisits, `survivors, `threshold,
        `marklist, `marklistCap, `refusals
      ensures Sound() && Unfolding.Acyclic(Objs()) && refusals == old(refusals) + if completed then 0 else 1
      ensures Shrunk(old(Objs()), Objs(), Roots())
      ensures completed ==> Objs() == Restrict(old(Objs()), Reach(old(Objs()), Roots()))
      ensures completed ==> liveObjects <= old(liveObjects) && CostOf() == CollectedCost(old(CostOf()), liveObjects)
      ensures !completed ==> CostOf() == old(CostOf())
    {
      ghost var g, roots := Objs(), Roots();
      completed := Collect();
      assert Objs() == if completed then Restrict(g, Reach(g, roots)) else g;
      CollectionShrinks(g, Objs(), roots, completed);
    }

    method MaybeCollect()
      requires Valid()
      modifies this
      ensures Valid() && SameRoots() && allocations == old(allocations)
      ensures Shrunk(old(Objs()), Objs(), Roots())
      ensures !stress ==> MayCollect(old(CostOf()), CostOf())
      ensures !stress && old(liveObjects) < old(threshold) ==> mem == old(mem) && refusals == old(refusals)
      ensures (stress || old(liveObjects) >= old(threshold)) && refusals == old(refusals) ==>
        Objs() == Restrict(old(Objs()), Reach(old(Objs()), Roots()))
    {
      if stress || liveObjects >= threshold {
        ghost var completed := CollectAcyclic();
      }
    }

    // A new cell at an unused address, or 0.
    method RawAllocCell(size: nat) returns (a: Addr)
      modifies `refusals
      ensures a != 0 ==> a !in mem && liveObjects < MAX_OBJECTS
      ensures refusals == old(refusals) + if a != 0 then 0 else 1
    {
      if size > SIZE_MAX || liveObjects >= MAX_OBJECTS {
        refusals := refusals + 1;
        return 0;
      }
      var ok := RawAlloc(size);
      if !ok {
        return 0;
      }
      FreshAddressExists(mem);
      a :| a != 0 && a !in mem;
    }

    method LinkObject(a: Addr, o: Object)
      requires Valid() && WellFormed(o) && Refs(o) <= mem.Keys && a != 0 && a !in mem && liveObjects < MAX_OBJECTS
      modifies `mem, `gcHead, `liveObjects, `list, `allocations
      ensures Valid() && Objs() == old(Objs())[a := o]
      ensures list == [a] + old(list) && allocations == old(allocations) + 1
      ensures CostOf() == Grow(old(CostOf()))
    {
      LinkFront(mem, gcHead, list, a, o);
      Unfolding.AllocationKeepsAcyclic(Objs(), a, o);
      mem := mem[a := Cell(o, false, gcHead)];
      gcHead := a;
      liveObjects := liveObjects + 1;
      list := [a] + list;
      allocations := allocations + 1;
      forall b | b in Objs() ensures WellFormed(Objs()[b]) && Refs(Objs()[b]) <= Objs().Keys {
        if b != a {
          assert Objs()[b] == old(Objs())[b];
        }
      }
    }

    // The common path of the five allocators: `o` is the object to build, `size` its request in bytes.
    // The caller must have rooted everything the new object refers to.
    method Alloc(o: Object, size: nat) returns (st: Status, out: Value)
      requires Valid() && WellFormed(o) && Refs(o) <= Reach(Objs(), Roots())
      modifies this
      ensures Valid() && SameRoots()
      ensures st == OK || st == NoMem
      ensures st == OK ==> IsPointer(out) && Allocated(old(Objs()), Objs(), Roots(), out.addr, o)
      ensures st == NoMem ==> Shrunk(old(Objs()), Objs(), Roots()) && refusals > old(refusals)
      ensures !stress ==> AllocStep(old(CostOf()), CostOf())
    {
      hide Valid, Shrunk, Allocated, MayCollect;
      out := Undef;
      ghost var g := Objs();
      MaybeCollect();
      ghost var g1, cost := Objs(), CostOf();
      StillAllocated(g, g1, Roots(), o);
      var a := RawAllocCell(size);
      if a == 0 {
        return NoMem, out;
      }
      LinkObject(a, o);
      AllocatedAfter(g, g1, Roots(), a, o);
      return OK, Ref(a);
    }

    method AllocPair(car: Value, cdr: Value) returns (st: Status, out: Value)
      requires Valid() && Pointers([car, cdr]) <= Reach(Objs(), Roots())
      modifies this
      ensures Valid() && SameRoots()
      ensures st == OK || st == NoMem
      ensures st == OK ==> IsPointer(out) && Allocated(old(Objs()), Objs(), Roots(), out.addr, Pair(car, cdr))
      ensures st == NoMem ==> Shrunk(old(Objs()), Objs(), Roots()) && refusals > old(refusals)
      ensures !stress ==> AllocStep(old(CostOf()), CostOf())
    {
      st, out := Alloc(Pair(car, cdr), 32);
    }

    // The idiom of the list builders: the car is on the protect stack while the
    // pair is allocated, and off it again afterwards.
    method ConsProtected(car: Value, cdr: Value) returns (st: Status, out: Value)
      requires Valid() && (IsPointer(car) ==> car.addr in mem) && Pointers([cdr]) <= Reach(Objs(), Roots())
      modifies this
      ensures Valid() && toplevel == old(toplevel) && protect == old(protect) && refusals >= old(refusals)
      ensures stress == old(stress) && stressed == old(stressed)
      ensures st == OK || st == NoMem
      ensures st == OK ==>
        IsPointer(out) && Allocated(old(Objs()), Objs(), old(Roots()) + Pointers([car]), out.addr, Pair(car, cdr))
      ensures st == NoMem ==> Retained(old(Objs()), Objs(), old(Roots())) && refusals > old(refusals)
      ensures !stress ==> CostOf() == old(CostOf()) || AllocStep(old(CostOf()), CostOf())
    {
      out := Undef;
      st := Protect(car);
      if st != OK {
        return st, out;
      }
      CarIsRooted(Objs(), toplevel, old(protect), car, cdr);
      st, out := ConsAndDrop(car, cdr);
    }

    // The allocation, and the car off the protect stack.
    method ConsAndDrop(car: Value, cdr: Value) returns (st: Status, out: Value)
      requires Valid() && protect != [] && Pointers([car, cdr]) <= Reach(Objs(), Roots())
      modifies this
      ensures Valid() && toplevel == old(toplevel) && protect == old(protect)[..old(|protect|) - 1]
      ensures refusals >= old(refusals) && stress == old(stress) && stressed == old(stressed)
      ensures st == OK || st == NoMem
      ensures st == OK ==>
        IsPointer(out) && Allocated(old(Objs()), Objs(), old(Roots()), out.addr, Pair(car, cdr))
      ensures st == NoMem ==> Shrunk(old(Objs()), Objs(), old(Roots())) && refusals > old(refusals)
      ensures !stress ==> AllocStep(old(CostOf()), CostOf())
    {
      st, out := AllocPair(car, cdr);
      Unprotect(1);
    }

    method AllocString(bytes: seq<Byte>) returns (st: Status, out: Value)
      requires Valid()
      modifies this
      ensures Valid() && SameRoots()
      ensures st == OK || st == NoMem
      ensures st == OK ==> IsPointer(out) && Allocated(old(Objs()), Objs(), Roots(), out.addr, Str(bytes))
      ensures st == NoMem ==> Shrunk(old(Objs()), Objs(), Roots()) && refusals > old(refusals)
      ensures !stress ==> AllocStep(old(CostOf()), CostOf())
    {
      st, out := Alloc(Str(bytes), 24 + |bytes|);
    }

    // ---------------------------------------------------------------- protect stack

    method Protect(v: Value) returns (st: Status)
      requires Valid() && (IsPointer(v) ==> v.addr in mem)
      modifies `protect, `protectCap, `refusals
      ensures Valid()
      ensures st == OK || st == NoMem
      ensures protect == if st == OK then old(protect) + [v] else old(protect)
      ensures refusals == old(refusals) + if st == OK then 0 else 1
      ensures st == NoMem ==> old(|protect|) == old(protectCap)
    {
      hide Unfolding.Acyclic, Linked, Enumerates, CostBound, Closed;
      if |protect| == protectCap {
        var grown := GrowProtect();
        if !grown {
          return NoMem;
        }
      }
      RootPushed(toplevel, protect, v);
      protect := protect + [v];
      st := OK;
    }

    // Doubles the protect stack.
    method GrowProtect() returns (ok: bool)
      requires |protect| <= protectCap
      modifies `protectCap, `refusals
      ensures refusals == old(refusals) + if ok then 0 else 1
      ensures if ok then |protect| < protectCap else protectCap == old(protectCap)
    {
      var newCap := if protectCap == 0 then 32 else protectCap * 2;
      var bytes := newCap * POINTER_SIZE;
      if bytes > SIZE_MAX {
        refusals := refusals + 1;
        return false;
      }
      ok := RawAlloc(bytes);
      if ok {
        protectCap := newCap;
      }
    }

    method Unprotect(n: nat)
      requires Valid()
      modifies `protect
      ensures Valid()
      ensures protect == if n <= old(|protect|) then old(protect)[..old(|protect|) - n] else []
    {
      var k := if n > |protect| then |protect| else n;
      protect := protect[..|protect| - k];
    }

    method Restore(saved: nat)
      requires Valid()
      modifies `protect
      ensures Valid()
      ensures protect == if saved < old(|protect|) then old(protect)[..saved] else old(protect)
    {
      if saved < |protect| {
        protect := protect[..saved];
      }
    }

    // gc_protect[slot] = v
    method SetSlot(slot: nat, v: Value)
      requires Valid() && slot < |protect| && (IsPointer(v) ==> v.addr in mem)
      modifies `protect
      ensures Valid() && protect == old(protect)[slot := v]
    {
      protect := protect[slot := v];
    }

    // ml_as_pair(Ref(a))->cdr = v, for a pair that `v` does not contain.
    method SetCdr(a: Addr, v: Value)
      requires Valid() && a in mem && mem[a].obj.Pair? && (IsPointer(v) ==> v.addr in mem)
      requires Unfolding.HasTree(Objs(), v, {a})
      modifies `mem
      ensures Valid() && Objs() == old(Objs())[a := old(Objs())[a].(cdr := v)]
      ensures mem.Keys == old(mem.Keys)
    {
      StoreObject(mem, gcHead, list, a, mem[a].obj.(cdr := v));
      Unfolding.PatchKeepsAcyclic(Objs(), a, v);
      mem := mem[a := mem[a].(obj := mem[a].obj.(cdr := v))];
      forall b | b in Objs() ensures WellFormed(Objs()[b]) && Refs(Objs()[b]) <= Objs().Keys {
        assert WellFormed(old(Objs())[b]) && Refs(old(Objs())[b]) <= Objs().Keys;
      }
    }

    // A frame's arrays, grown or rewritten in place: what define and set! do to the heap.
    method SetBindings(a: Addr, names: seq<Value>, values: seq<Value>, capacity: nat)
      requires Valid() && a in mem && mem[a].obj.Env?
      requires |names| == |values| <= capacity && Pointers(names + values) <= mem.Keys
      modifies `mem
      ensures Valid() && mem.Keys == old(mem.Keys)
      ensures Objs() == old(Objs())[a := Env(old(Objs())[a].parent, names, values, capacity)]
    {
      var o := Env(mem[a].obj.parent, names, values, capacity);
      StoreObject(mem, gcHead, list, a, o);
      Unfolding.BindingKeepsAcyclic(Objs(), a, o);
      mem := mem[a := mem[a].(obj := o)];
      forall b | b in Objs() ensures WellFormed(Objs()[b]) && Refs(Objs()[b]) <= Objs().Keys {
        assert WellFormed(old(Objs())[b]) && Refs(old(Objs())[b]) <= Objs().Keys;
        if b == a {
          BindingRefs(o, old(Objs())[a]);
        }
      }
    }

    // Destroy-time bulk free: every object is freed once, in list order.
    method FreeAll()
      requires Valid()
      modifies `mem, `gcHead, `liveObjects, `list, `freed
      ensures mem.Keys == {} && gcHead == 0 && liveObjects == 0 && list == []
      ensures freed == old(freed) + old(list)
    {
      ghost var i := 0;
      var o := gcHead;
      LastLink(mem, list, 0);
      while o != 0
        modifies `mem, `freed
        invariant i <= |list| && o == At(list, i, 0) && (o != 0 <==> i < |list|)
        invariant freed == old(freed) + list[..i]
        invariant Remains(old(mem), {}, mem, list, i) && Untouched(old(mem), mem, list, i)
        decreases |list| - i
      {
        FreeStep(old(mem), mem, list, i);
        var next := mem[o].next;
        FreeObject(o);
        o := next;
        i := i + 1;
        LastLink(old(mem), list, i);
      }
      assert list[..i] == list;
      SweepMembers(old(mem), {}, mem, list);
      gcHead, liveObjects, list := 0, 0, [];
    }
  }
}
