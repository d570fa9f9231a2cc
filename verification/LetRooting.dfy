/**
 * The let forms over the collected heap: the frame is rooted from its allocation
 * until the body has run, whatever the initialisers and the body do.
 *
 * A nested evaluation is any sequence of actions on rooted values: objects made
 * (with a collection before any of them), fields fetched, names defined and
 * assigned, values dropped.  It never changes an object other than the contents
 * of frames, and leaves the protect stack as it was.
 */
module LetRooting {
  import opened Basics
  import opened Graph
  import opened Gc
  import opened Unfolding
  import opened EnvHeap
  import Text

  // ---------------------------------------------------------------- what evaluation keeps

  function Frozen(o: Object): Object {
    if o.Env? then Env(o.parent, [], [], 0) else o
  }

  // The heap without the contents of frames; parent links stay.
  ghost function Skeleton(g: ObjectMap): ObjectMap {
    map a | a in g :: Frozen(g[a])
  }

  // What is reachable from `roots` other than through a binding is unchanged,
  // and its frames have lost no name.
  ghost predicate Evolved(g: ObjectMap, g': ObjectMap, roots: set<Addr>) {
    && Retained(Skeleton(g), Skeleton(g'), roots)
    && forall a | a in Reach(Skeleton(g), roots) && g[a].Env? :: a in g' && g'[a].Env? && g[a].names <= g'[a].names
  }

  lemma FrozenRefs(o: Object)
    ensures Refs(Frozen(o)) <= Refs(o)
  {
    forall b | b in Refs(Frozen(o)) ensures b in Refs(o) {
      var v :| v in Children(Frozen(o)) && IsPointer(v) && v.addr == b;
      assert v in Children(o);
    }
  }

  lemma SkeletonIsClosed(g: ObjectMap)
    requires Closed(g)
    ensures Closed(Skeleton(g))
  {
    forall a | a in g ensures WellFormed(Frozen(g[a])) && Refs(Frozen(g[a])) <= g.Keys {
      FrozenRefs(g[a]);
    }
  }

  lemma SkeletonReach(g: ObjectMap, roots: set<Addr>)
    ensures Reach(Skeleton(g), roots) <= Reach(g, roots)
  {
    var r := Reach(g, roots);
    ReachIsLeastAbsorbing(g, roots);
    ReachIsLeastAbsorbing(Skeleton(g), roots);
    assert Absorbs(Skeleton(g), roots, r) by {
      forall a | a in r && a in g ensures Refs(Skeleton(g)[a]) * g.Keys <= r {
        FrozenRefs(g[a]);
      }
    }
  }

  lemma RetainedEvolves(g: ObjectMap, g': ObjectMap, roots: set<Addr>)
    requires Retained(g, g', roots)
    ensures Evolved(g, g', roots)
  {
    SkeletonReach(g, roots);
  }

  lemma BindingEvolves(g: ObjectMap, a: Addr, o: Object, roots: set<Addr>)
    requires a in g && g[a].Env? && o.Env? && o.parent == g[a].parent && g[a].names <= o.names
    ensures Evolved(g, g[a := o], roots)
  {
    assert Skeleton(g[a := o]) == Skeleton(g);
  }

  lemma EvolvedTransitive(g0: ObjectMap, g1: ObjectMap, g2: ObjectMap, roots: set<Addr>, more: set<Addr>)
    requires Closed(g0) && roots <= g0.Keys && roots <= more
    requires Evolved(g0, g1, roots) && Evolved(g1, g2, more)
    ensures Evolved(g0, g2, roots)
  {
    SkeletonIsClosed(g0);
    RetainedTransitive(Skeleton(g0), Skeleton(g1), Skeleton(g2), roots, more);
    RetainedReach(Skeleton(g0), Skeleton(g1), roots);
    ReachIsMonotone(Skeleton(g1), roots, more);
  }

  // Trees do not look into frames.
  lemma {:induction false} SkeletonTree(g: ObjectMap, names: Names, v: Value, d: Text.Datum)
    ensures Builds(Skeleton(g), names, v, d, {}) <==> Builds(g, names, v, d, {})
    decreases d
  {
    if d.Pair? && IsCell(g, v, {}) && g[v.addr].Pair? {
      SkeletonTree(g, names, g[v.addr].car, d.car);
      SkeletonTree(g, names, g[v.addr].cdr, d.cdr);
    }
  }

  /** A rooted form is immutable data: evaluation leaves the tree it unfolds to alone. */
  lemma FormSurvives(g: ObjectMap, g': ObjectMap, roots: set<Addr>, names: Names, v: Value, d: Text.Datum)
    requires Closed(g) && roots <= g.Keys && Evolved(g, g', roots)
    requires Live(v, Reach(Skeleton(g), roots)) && Builds(g, names, v, d, {})
    ensures Builds(g', names, v, d, {}) && Live(v, Reach(Skeleton(g'), roots))
  {
    SkeletonIsClosed(g);
    SkeletonTree(g, names, v, d);
    SkeletonTree(g', names, v, d);
    BuildsRetained(Skeleton(g), Skeleton(g'), roots, names, v, d, {}, {});
    RetainedReach(Skeleton(g), Skeleton(g'), roots);
  }

  // ---------------------------------------------------------------- nested evaluation

  // Operands are slots of the protect stack.
  datatype Action =
    | Make(o: Object, size: nat)              // a new object, pushed
    | Load(i: nat, k: nat)                    // the k-th field of the object in slot i, pushed
    | Define(i: nat, name: Value, j: nat)
    | Assign(i: nat, name: Value, j: nat)
    | Drop

  // The heap, the roots and the refused requests when an evaluation was entered.
  datatype Entry = Entry(g: ObjectMap, toplevel: Value, protect: seq<Value>, refusals: nat) {
    ghost function Roots(): set<Addr> {
      Pointers([toplevel] + protect)
    }
  }

  ghost function Here(heap: Heap): Entry
    reads heap
  {
    Entry(heap.Objs(), heap.toplevel, heap.protect, heap.refusals)
  }

  // Since the entry `e` nothing rooted there was lost, and the stack is at least as high.
  ghost predicate Since(heap: Heap, e: Entry)
    reads heap
  {
    && Closed(e.g) && e.Roots() <= e.g.Keys
    && heap.Valid() && heap.toplevel == e.toplevel && e.protect <= heap.protect
    && heap.refusals >= e.refusals
    && Evolved(e.g, heap.Objs(), e.Roots())
  }

  // And the stack is as it was.
  ghost predicate Kept(heap: Heap, e: Entry)
    reads heap
  {
    Since(heap, e) && heap.protect == e.protect
  }

  // Out of memory only when some request since the entry was refused.
  ghost predicate Honest(heap: Heap, e: Entry, st: Status)
    reads heap
  {
    st == NoMem ==> heap.refusals > e.refusals
  }

  lemma MoreRoots(toplevel: Value, protect: seq<Value>, more: seq<Value>)
    requires protect <= more
    ensures Pointers([toplevel] + protect) <= Pointers([toplevel] + more)
  {
    forall v | v in [toplevel] + protect ensures v in [toplevel] + more {
      if v in protect {
        var i :| 0 <= i < |protect| && protect[i] == v;
        assert more[i] == v;
      }
    }
  }

  // One more step after the entry.
  lemma OneMore(heap: Heap, e: Entry, mid: Entry)
    requires Closed(e.g) && e.Roots() <= e.g.Keys && e.toplevel == mid.toplevel && e.protect <= mid.protect
    requires e.refusals <= mid.refusals <= heap.refusals && Evolved(e.g, mid.g, e.Roots())
    requires heap.Valid() && heap.toplevel == e.toplevel && e.protect <= heap.protect
    requires Evolved(mid.g, heap.Objs(), mid.Roots())
    ensures Since(heap, e)
  {
    MoreRoots(e.toplevel, e.protect, mid.protect);
    EvolvedTransitive(e.g, mid.g, heap.Objs(), e.Roots(), mid.Roots());
  }

  lemma Unchanged(heap: Heap)
    requires heap.Valid()
    ensures Kept(heap, Here(heap))
    ensures InHeap(heap.Objs(), heap.toplevel) && forall v | v in heap.protect :: InHeap(heap.Objs(), v)
  {
    RetainedEvolves(heap.Objs(), heap.Objs(), heap.Roots());
    forall v | v in [heap.toplevel] + heap.protect ensures InHeap(heap.Objs(), v) {
      assert IsPointer(v) ==> v.addr in heap.Roots();
    }
    assert heap.toplevel in [heap.toplevel] + heap.protect;
    assert forall v | v in heap.protect :: v in [heap.toplevel] + heap.protect;
  }

  predicate IsRooted(v: Value, protect: seq<Value>) {
    IsPointer(v) ==> v in protect
  }

  lemma RootedRefs(g: ObjectMap, toplevel: Value, protect: seq<Value>, o: Object)
    requires Pointers([toplevel] + protect) <= g.Keys
    requires forall v | v in Children(o) :: IsRooted(v, protect)
    ensures Refs(o) <= Reach(g, Pointers([toplevel] + protect))
  {
    forall b | b in Refs(o) ensures b in Reach(g, Pointers([toplevel] + protect)) {
      var v :| v in Children(o) && IsPointer(v) && v.addr == b;
      assert v in [toplevel] + protect;
      RootIsReachable(g, Pointers([toplevel] + protect), b);
    }
  }

  // A new object, rooted at once.
  method MakeObject(heap: Heap, o: Object, size: nat) returns (st: Status, out: Value)
    requires heap.Valid() && WellFormed(o) && Refs(o) <= Reach(heap.Objs(), heap.Roots())
    modifies heap
    ensures Since(heap, old(Here(heap))) && Honest(heap, old(Here(heap)), st)
    ensures st == OK || st == NoMem
    ensures if st == OK
            then heap.protect == old(heap.protect) + [out] && IsPointer(out) && out.addr in heap.Objs() &&
                 heap.Objs()[out.addr] == o
            else heap.protect == old(heap.protect)
  {
    ghost var g, roots := heap.Objs(), heap.Roots();
    st, out := heap.Alloc(o, size);
    RetainedEvolves(g, heap.Objs(), roots);
    if st == OK {
      st := heap.Protect(out);
    }
  }

  // A store into a frame, the stack as it was.
  lemma FrameChanged(heap: Heap, e: Entry, a: Addr, o: Object)
    requires Closed(e.g) && e.Roots() <= e.g.Keys && heap.Valid()
    requires heap.toplevel == e.toplevel && heap.protect == e.protect && heap.refusals >= e.refusals
    requires a in e.g && e.g[a].Env? && o.Env? && o.parent == e.g[a].parent && e.g[a].names <= o.names
    requires heap.Objs() == e.g[a := o]
    ensures Kept(heap, e)
  {
    BindingEvolves(e.g, a, o, e.Roots());
  }

  method DefineName(heap: Heap, env: Value, name: Value, value: Value) returns (st: Status)
    requires heap.Valid() && InHeap(heap.Objs(), env) && InHeap(heap.Objs(), value)
    modifies heap
    ensures Kept(heap, old(Here(heap))) && Honest(heap, old(Here(heap)), st)
    ensures st == OK ==> IsFrame(heap.Objs(), env) && name in heap.Objs()[env.addr].names
  {
    hide Heap.Valid;
    ghost var e := Here(heap);
    Unchanged(heap);
    st := EnvDefine(heap, env, name, value);
    if st == OK {
      FrameChanged(heap, e, env.addr, Bound(e.g[env.addr], name, value));
    }
  }

  method AssignName(heap: Heap, env: Value, name: Value, value: Value) returns (st: Status)
    requires heap.Valid() && InHeap(heap.Objs(), env) && InHeap(heap.Objs(), value)
    modifies heap
    ensures Kept(heap, old(Here(heap))) && st != NoMem
  {
    ghost var e := Here(heap);
    Unchanged(heap);
    st := EnvSet(heap, env, name, value);
    if st == OK {
      ghost var h := Holder(e.g, env, name);
      FrameChanged(heap, e, h.value, Bound(e.g[h.value], name, value));
    }
  }

  // One action; one that names no slot does nothing.
  method Act(heap: Heap, base: nat, a: Action) returns (st: Status)
    requires heap.Valid() && base <= |heap.protect|
    modifies heap
    ensures Closed(old(heap.Objs())) && old(heap.Roots()) <= old(heap.Objs()).Keys
    ensures heap.Valid() && heap.toplevel == old(heap.toplevel) && heap.refusals >= old(heap.refusals)
    ensures base <= |heap.protect| && heap.protect[..base] == old(heap.protect)[..base]
    ensures Evolved(old(heap.Objs()), heap.Objs(), old(heap.Roots()))
    ensures Honest(heap, old(Here(heap)), st)
  {
    Unchanged(heap);
    var protect := heap.protect;
    st := OK;
    match a
    case Make(o, size) =>
      if WellFormed(o) && forall v | v in Children(o) :: IsRooted(v, protect) {
        RootedRefs(heap.Objs(), heap.toplevel, protect, o);
        var out;
        st, out := MakeObject(heap, o, size);
      }
    case Load(i, k) =>
      if i < |protect| && IsPointer(protect[i]) && k < |Children(heap.mem[protect[i].addr].obj)| {
        st := PushField(heap, protect[i].addr, k);
      }
    case Define(i, name, j) =>
      if i < |protect| && j < |protect| {
        st := DefineName(heap, protect[i], name, protect[j]);
      }
    case Assign(i, name, j) =>
      if i < |protect| && j < |protect| {
        st := AssignName(heap, protect[i], name, protect[j]);
      }
    case Drop =>
      if |protect| > base {
        heap.Unprotect(1);
      }
  }

  method PushField(heap: Heap, a: Addr, k: nat) returns (st: Status)
    requires heap.Valid() && a in heap.mem && k < |Children(heap.mem[a].obj)|
    modifies heap
    ensures Since(heap, old(Here(heap))) && Honest(heap, old(Here(heap)), st)
  {
    var v := Children(heap.mem[a].obj)[k];
    Unchanged(heap);
    assert InHeap(heap.Objs(), v) by {
      assert Refs(heap.Objs()[a]) <= heap.Objs().Keys;
      assert IsPointer(v) ==> v.addr in Refs(heap.Objs()[a]);
    }
    st := heap.Protect(v);
  }

  /**
   * A nested evaluation: it may collect, allocate and rebind at will, and leaves
   * every rooted object, chain and form in place.
   */
  method Evaluate(heap: Heap, script: seq<Action>) returns (st: Status, v: Value)
    requires heap.Valid()
    modifies heap
    ensures Kept(heap, old(Here(heap))) && Honest(heap, old(Here(heap)), st)
    ensures InHeap(heap.Objs(), v)
  {
    ghost var e := Here(heap);
    var base, i := |heap.protect|, 0;
    st := OK;
    Unchanged(heap);
    while i < |script| && st == OK
      invariant Since(heap, e) && Honest(heap, e, st)
    {
      ghost var mid := Here(heap);
      st := Act(heap, base, script[i]);
      OneMore(heap, e, mid);
      i := i + 1;
    }
    Unchanged(heap);
    v := if |heap.protect| > base then heap.protect[|heap.protect| - 1] else Undef;
    heap.Restore(base);
  }

  // ---------------------------------------------------------------- the let forms

  // A binding is (name init).
  predicate IsBinding(g: ObjectMap, v: Value) {
    && IsPointer(v) && v.addr in g && g[v.addr].Pair?
    && g[v.addr].car.Sym?
    && IsPointer(g[v.addr].cdr) && g[v.addr].cdr.addr in g && g[g[v.addr].cdr.addr].Pair?
    && g[g[v.addr].cdr.addr].cdr.Nil?
  }

  // The names of the well-formed bindings of a list, in order.
  ghost function NamesOf(g: ObjectMap, v: Value, d: Text.Datum): seq<Value>
    decreases d
  {
    if !d.Pair? || !IsCell(g, v, {}) || !g[v.addr].Pair? then []
    else (if IsBinding(g, g[v.addr].car) then [g[g[v.addr].car.addr].car] else []) + NamesOf(g, g[v.addr].cdr, d.cdr)
  }

  // `v` is rooted, other than through a binding, and unfolds to `d`.
  ghost predicate IsForm(g: ObjectMap, roots: set<Addr>, v: Value, d: Text.Datum) {
    Live(v, Reach(Skeleton(g), roots)) && Builds(g, [], v, d, {})
  }

  lemma PartsAreForms(g: ObjectMap, roots: set<Addr>, v: Value, d: Text.Datum)
    requires Closed(g) && IsForm(g, roots, v, d) && d.Pair?
    ensures IsForm(g, roots, g[v.addr].car, d.car) && IsForm(g, roots, g[v.addr].cdr, d.cdr)
  {
    SkeletonIsClosed(g);
    var o := g[v.addr];
    ChildIsLive(Skeleton(g), roots, v.addr, o.car);
    ChildIsLive(Skeleton(g), roots, v.addr, o.cdr);
  }

  // A binding is the same binding after any evaluation.
  lemma BindingSurvives(g: ObjectMap, g': ObjectMap, roots: set<Addr>, v: Value, d: Text.Datum)
    requires Closed(g) && roots <= g.Keys && Evolved(g, g', roots) && IsForm(g, roots, v, d)
    ensures IsBinding(g', v) <==> IsBinding(g, v)
    ensures IsBinding(g, v) ==> g'[v.addr].car == g[v.addr].car
  {
    FormSurvives(g, g', roots, [], v, d);
    SkeletonIsClosed(g);
    if d.Pair? {
      assert Skeleton(g')[v.addr] == Skeleton(g)[v.addr];
      PartsAreForms(g, roots, v, d);
      var rest := g[v.addr].cdr;
      FormSurvives(g, g', roots, [], rest, d.cdr);
      if d.cdr.Pair? {
        assert Skeleton(g')[rest.addr] == Skeleton(g)[rest.addr];
      }
    }
  }

  lemma {:induction false} NamesSurvive(g: ObjectMap, g': ObjectMap, roots: set<Addr>, v: Value, d: Text.Datum)
    requires Closed(g) && roots <= g.Keys && Evolved(g, g', roots) && IsForm(g, roots, v, d)
    ensures NamesOf(g', v, d) == NamesOf(g, v, d)
    decreases d
  {
    FormSurvives(g, g', roots, [], v, d);
    if d.Pair? {
      assert Skeleton(g')[v.addr] == Skeleton(g)[v.addr];
      PartsAreForms(g, roots, v, d);
      BindingSurvives(g, g', roots, g[v.addr].car, d.car);
      NamesSurvive(g, g', roots, g[v.addr].cdr, d.cdr);
    }
  }

  // A frame on the protect stack at `e` is still that frame, with every name it had.
  lemma FrameSurvives(heap: Heap, e: Entry, inner: Value)
    requires Since(heap, e) && inner in e.protect && IsFrame(e.g, inner)
    ensures IsFrame(heap.Objs(), inner)
    ensures heap.Objs()[inner.addr].parent == e.g[inner.addr].parent
    ensures e.g[inner.addr].names <= heap.Objs()[inner.addr].names
  {
    assert inner in [e.toplevel] + e.protect;
    RootIsReachable(Skeleton(e.g), e.Roots(), inner.addr);
    assert Skeleton(heap.Objs())[inner.addr] == Skeleton(e.g)[inner.addr];
  }

  // The value is on the protect stack while the frame's arrays may grow.
  method DefineRooted(heap: Heap, inner: Value, name: Value, v: Value) returns (st: Status)
    requires heap.Valid() && InHeap(heap.Objs(), inner) && InHeap(heap.Objs(), v)
    modifies heap
    ensures Kept(heap, old(Here(heap))) && Honest(heap, old(Here(heap)), st)
    ensures st == OK ==> IsFrame(heap.Objs(), inner) && name in heap.Objs()[inner.addr].names
  {
    ghost var e := Here(heap);
    Unchanged(heap);
    var saved := |heap.protect|;
    st := heap.Protect(v);
    if st != OK {
      return;
    }
    ghost var mid := Here(heap);
    st := DefineName(heap, inner, name, v);
    OneMore(heap, e, mid);
    heap.Restore(saved);
  }

  // Predefining binds a name to the undefined mark, initialising to its evaluated init.
  datatype Phase = Predefine | Initialise

  // The frame, allocated and rooted.
  method OpenFrame(heap: Heap, env: Value) returns (st: Status, inner: Value)
    requires heap.Valid() && env in heap.protect
    modifies heap
    ensures Since(heap, old(Here(heap))) && Honest(heap, old(Here(heap)), st)
    ensures if st == OK
            then heap.protect == old(heap.protect) + [inner] && IsFrame(heap.Objs(), inner) &&
                 heap.Objs()[inner.addr] == Env(env, [], [], 0)
            else heap.protect == old(heap.protect)
  {
    RootedRefs(heap.Objs(), heap.toplevel, heap.protect, Env(env, [], [], 0));
    st, inner := MakeObject(heap, Env(env, [], [], 0), 48);
  }

  // One binding: its init evaluated with the frame rooted.
  method BindOne(heap: Heap, phase: Phase, pair: Value, script: seq<Action>, inner: Value) returns (st: Status)
    requires heap.Valid() && InHeap(heap.Objs(), pair) && inner in heap.protect && IsFrame(heap.Objs(), inner)
    modifies heap
    ensures Kept(heap, old(Here(heap))) && Honest(heap, old(Here(heap)), st)
    ensures IsFrame(heap.Objs(), inner)
    ensures !IsBinding(old(heap.Objs()), pair) ==> st == Syntax
    ensures st == OK ==> old(heap.Objs())[pair.addr].car in heap.Objs()[inner.addr].names
  {
    ghost var e := Here(heap);
    Unchanged(heap);
    var proper := IsBindingCell(heap, pair);
    if !proper {
      return Syntax;
    }
    var name, v := heap.mem[pair.addr].obj.car, Undef;
    st := OK;
    if phase.Initialise? {
      st, v := Evaluate(heap, script);
    }
    ghost var mid := Here(heap);
    FrameSurvives(heap, e, inner);
    if st == OK {
      st := DefineRooted(heap, inner, name, v);
      OneMore(heap, e, mid);
      FrameSurvives(heap, e, inner);
    }
  }

  method IsBindingCell(heap: Heap, v: Value) returns (b: bool)
    requires heap.Valid() && InHeap(heap.Objs(), v)
    ensures b == IsBinding(heap.Objs(), v)
  {
    if !IsPointer(v) || !heap.mem[v.addr].obj.Pair? {
      return false;
    }
    var o := heap.mem[v.addr].obj;
    assert Refs(heap.Objs()[v.addr]) <= heap.Objs().Keys;
    assert o.cdr in Children(o);
    b := o.car.Sym? && IsPointer(o.cdr) && heap.mem[o.cdr.addr].obj.Pair? && heap.mem[o.cdr.addr].obj.cdr.Nil?;
  }

  predicate AllIn(some: seq<Value>, names: seq<Value>) {
    forall n | n in some :: n in names
  }

  lemma OneMoreName(done: seq<Value>, names: seq<Value>, names': seq<Value>, name: Value)
    requires AllIn(done, names) && names <= names' && name in names'
    ensures AllIn(done + [name], names')
  {
    assert forall n | n in names :: n in names';
  }

  // One turn of the loop: the names gain the binding's, and the rest of the list is as it was.
  method BindNext(heap: Heap, phase: Phase, cur: Value, script: seq<Action>, inner: Value, ghost tail: Text.Datum)
    returns (st: Status, next: Value, ghost name: Value)
    requires heap.Valid() && inner in heap.protect && IsFrame(heap.Objs(), inner)
    requires tail.Pair? && IsForm(heap.Objs(), heap.Roots(), cur, tail)
    modifies heap
    ensures Kept(heap, old(Here(heap))) && Honest(heap, old(Here(heap)), st)
    ensures IsFrame(heap.Objs(), inner)
    ensures old(heap.Objs())[inner.addr].names <= heap.Objs()[inner.addr].names
    ensures IsForm(heap.Objs(), heap.Roots(), next, tail.cdr)
    ensures st == OK ==>
      && name in heap.Objs()[inner.addr].names
      && NamesOf(old(heap.Objs()), cur, tail) == [name] + NamesOf(heap.Objs(), next, tail.cdr)
  {
    hide Heap.Valid, Evolved;
    ghost var e := Here(heap);
    Unchanged(heap);
    PartsAreForms(e.g, e.Roots(), cur, tail);
    var pair := heap.mem[cur.addr].obj.car;
    next := heap.mem[cur.addr].obj.cdr;
    BuiltIsInHeap(e.g, [], pair, tail.car, {});
    name := if IsBinding(e.g, pair) then e.g[pair.addr].car else Undef;
    st := BindOne(heap, phase, pair, script, inner);
    FormSurvives(e.g, heap.Objs(), e.Roots(), [], next, tail.cdr);
    NamesSurvive(e.g, heap.Objs(), e.Roots(), next, tail.cdr);
    FrameSurvives(heap, e, inner);
  }

  // The loop over the bindings.
  method BindAll(heap: Heap, phase: Phase, bindings: Value, inits: seq<seq<Action>>, inner: Value, ghost d: Text.Datum)
    returns (st: Status)
    requires heap.Valid() && inner in heap.protect && IsFrame(heap.Objs(), inner)
    requires IsForm(heap.Objs(), heap.Roots(), bindings, d)
    modifies heap
    ensures Kept(heap, old(Here(heap))) && Honest(heap, old(Here(heap)), st)
    ensures IsFrame(heap.Objs(), inner)
    ensures st == OK ==> AllIn(NamesOf(old(heap.Objs()), bindings, d), heap.Objs()[inner.addr].names)
  {
    hide Heap.Valid, Evolved, IsForm, AllIn, NamesOf;
    EmptyNames(heap.Objs()[inner.addr].names);
    ghost var e, all, done, tail := Here(heap), NamesOf(heap.Objs(), bindings, d), [], d;
    var cur, i := bindings, 0;
    st := OK;
    Unchanged(heap);
    var more := IsCellWord(heap, cur, tail);
    while st == OK && more
      invariant Kept(heap, e) && Honest(heap, e, st)
      invariant IsFrame(heap.Objs(), inner) && IsForm(heap.Objs(), heap.Roots(), cur, tail)
      invariant st == OK ==> more == tail.Pair? && done + NamesOf(heap.Objs(), cur, tail) == all
      invariant st == OK ==> AllIn(done, heap.Objs()[inner.addr].names)
      decreases tail
    {
      ghost var mid, cell := Here(heap), cur;
      ghost var name;
      st, cur, name := BindNext(heap, phase, cur, if i < |inits| then inits[i] else [], inner, tail);
      OneMore(heap, e, mid);
      if st == OK {
        OneMoreName(done, mid.g[inner.addr].names, heap.Objs()[inner.addr].names, name);
        assert done + NamesOf(mid.g, cell, tail) == (done + [name]) + NamesOf(heap.Objs(), cur, tail.cdr);
        done := done + [name];
      }
      tail, i := tail.cdr, i + 1;
      more := IsCellWord(heap, cur, tail);
    }
    if st == OK {
      NoMoreNames(heap.Objs(), cur, tail, done);
    }
  }

  lemma EmptyNames(names: seq<Value>)
    ensures AllIn([], names)
  {
  }

  lemma NoMoreNames(g: ObjectMap, v: Value, d: Text.Datum, done: seq<Value>)
    requires !d.Pair?
    ensures done + NamesOf(g, v, d) == done
  {
  }

  // ml_is_pair on a form.
  method IsCellWord(heap: Heap, v: Value, ghost d: Text.Datum) returns (b: bool)
    requires heap.Valid() && IsForm(heap.Objs(), heap.Roots(), v, d)
    ensures b == d.Pair?
  {
    b := IsPointer(v) && heap.mem[v.addr].obj.Pair?;
  }

  lemma TreeOf(heap: Heap, v: Value) returns (d: Text.Datum)
    requires heap.Valid() && InHeap(heap.Objs(), v)
    ensures Builds(heap.Objs(), [], v, d, {})
  {
    ValueHasTree(heap.Objs(), v);
    d :| Builds(heap.Objs(), [], v, d, {});
  }

  /**
   * A let form up to the last expression of its body: the frame is allocated,
   * rooted, filled and still there, with its parent and a binding for every name
   * of the list, when the body's other forms have run; every value it holds is
   * allocated, and so is all that was rooted before.
   */
  method LetForm(heap: Heap, env: Value, bindings: Value, recursive: bool, inits: seq<seq<Action>>, body: seq<Action>)
    returns (st: Status, inner: Value, ghost d: Text.Datum)
    requires heap.Valid() && env in heap.protect && IsFrame(heap.Objs(), env)
    requires Live(bindings, Reach(Skeleton(heap.Objs()), heap.Roots())) && InHeap(heap.Objs(), bindings)
    modifies heap
    ensures Kept(heap, old(Here(heap))) && Honest(heap, old(Here(heap)), st)
    ensures Builds(old(heap.Objs()), [], bindings, d, {})
    ensures st == OK ==>
      && IsFrame(heap.Objs(), inner)
      && var frame := heap.Objs()[inner.addr];
      && frame.parent == env
      && AllIn(NamesOf(old(heap.Objs()), bindings, d), frame.names)
      && (forall v | v in frame.values :: InHeap(heap.Objs(), v))
  {
    hide Heap.Valid, Evolved;
    ghost var e := Here(heap);
    Unchanged(heap);
    d := TreeOf(heap, bindings);
    var saved := |heap.protect|;
    st, inner := OpenFrame(heap, env);
    if st != OK {
      return;
    }
    ghost var inside := Here(heap);
    st := FillFrame(heap, bindings, recursive, inits, body, inner, d, e);
    OneMore(heap, e, inside);
    FrameSurvives(heap, inside, inner);
    Unchanged(heap);
    FrameFits(heap.Objs(), inner.addr);
    heap.Restore(saved);
  }

  // With the frame on top of the protect stack throughout.
  method FillFrame(heap: Heap, bindings: Value, recursive: bool, inits: seq<seq<Action>>, body: seq<Action>,
                   inner: Value, ghost d: Text.Datum, ghost e: Entry) returns (st: Status)
    requires Since(heap, e) && heap.protect == e.protect + [inner] && IsFrame(heap.Objs(), inner)
    requires IsForm(e.g, e.Roots(), bindings, d)
    modifies heap
    ensures Kept(heap, old(Here(heap))) && Honest(heap, old(Here(heap)), st)
    ensures IsFrame(heap.Objs(), inner)
    ensures st == OK ==> AllIn(NamesOf(e.g, bindings, d), heap.Objs()[inner.addr].names)
  {
    ghost var start := Here(heap);
    Unchanged(heap);
    StillForm(heap, e, bindings, d);
    st := OK;
    if recursive {
      st := BindAll(heap, Predefine, bindings, [], inner, d);
    }
    if st == OK {
      ghost var mid := Here(heap);
      FormSurvives(start.g, mid.g, start.Roots(), [], bindings, d);
      NamesSurvive(start.g, mid.g, start.Roots(), bindings, d);
      st := BindAll(heap, Initialise, bindings, inits, inner, d);
      OneMore(heap, start, mid);
    }
    if st == OK {
      ghost var filled := Here(heap);
      var ignored;
      st, ignored := Evaluate(heap, body);
      OneMore(heap, start, filled);
      FrameSurvives(heap, filled, inner);
    }
  }

  lemma StillForm(heap: Heap, e: Entry, v: Value, d: Text.Datum)
    requires Since(heap, e) && IsForm(e.g, e.Roots(), v, d)
    ensures IsForm(heap.Objs(), heap.Roots(), v, d)
    ensures NamesOf(heap.Objs(), v, d) == NamesOf(e.g, v, d)
  {
    FormSurvives(e.g, heap.Objs(), e.Roots(), [], v, d);
    NamesSurvive(e.g, heap.Objs(), e.Roots(), v, d);
    MoreRoots(e.toplevel, e.protect, heap.protect);
    ReachIsMonotone(Skeleton(heap.Objs()), e.Roots(), heap.Roots());
  }
}
