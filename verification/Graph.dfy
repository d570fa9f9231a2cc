/**
 * The heap as a graph: tagged values, heap objects, the references an object
 * holds, and reachability from a set of roots.
 */
module Graph {
  import opened Basics

  // Address 0 is the NULL pointer.
  type Addr = nat

  // A tagged word.  Raw pointers (tag 0) become `Ref`.
  datatype Value =
    | Nil
    | True
    | False
    | Eof
    | Undef
    | Fix(n: Fixnum)
    | Sym(idx: nat)
    | Ref(addr: Addr)

  datatype Object =
    | Pair(car: Value, cdr: Value)
    | Str(bytes: seq<Byte>)
    | Closure(env: Value, params: Value, body: Value, variadic: bool, arityMin: nat)
    | Prim(name: seq<Byte>, arityMin: nat, arityMax: nat)
    | Env(parent: Value, names: seq<Value>, values: seq<Value>, capacity: nat)

  type ObjectMap = map<Addr, Object>

  // What the collector follows: a tag-0 word that is not NULL.
  predicate IsPointer(v: Value) {
    v.Ref? && v.addr != 0
  }

  // The outgoing words of an object (the fields its case of the drain loop visits).
  function Children(o: Object): seq<Value> {
    match o
    case Pair(car, cdr) => [car, cdr]
    case Str(_) => []
    case Prim(_, _, _) => []
    case Closure(env, params, body, _, _) => [env, params, body]
    case Env(parent, names, values, _) => [parent] + values + names
  }

  function Pointers(vs: seq<Value>): set<Addr> {
    set v | v in vs && IsPointer(v) :: v.addr
  }

  function Refs(o: Object): set<Addr> {
    Pointers(Children(o))
  }

  // A frame's two arrays run in parallel and hold no more than its capacity.
  predicate WellFormed(o: Object) {
    o.Env? ==> |o.names| == |o.values| <= o.capacity
  }

  // Every object is well formed and refers only to addresses inside the graph.
  ghost predicate Closed(g: ObjectMap) {
    forall a | a in g :: WellFormed(g[a]) && Refs(g[a]) <= g.Keys
  }

  // `p` walks references from some root to its last address.
  ghost predicate Path(g: ObjectMap, roots: set<Addr>, p: seq<Addr>) {
    && |p| > 0
    && p[0] in roots
    && (forall i | 0 <= i < |p| :: p[i] in g)
    && (forall i | 0 <= i < |p| - 1 :: p[i + 1] in Refs(g[p[i]]))
  }

  ghost predicate PathTo(g: ObjectMap, roots: set<Addr>, p: seq<Addr>, a: Addr) {
    Path(g, roots, p) && p[|p| - 1] == a
  }

  ghost predicate Reachable(g: ObjectMap, roots: set<Addr>, a: Addr) {
    exists p :: PathTo(g, roots, p, a)
  }

  ghost function Reach(g: ObjectMap, roots: set<Addr>): (s: set<Addr>) {
    set a | a in g && Reachable(g, roots, a)
  }

  // A set that contains the roots and everything its members refer to.
  ghost predicate Absorbs(g: ObjectMap, roots: set<Addr>, s: set<Addr>) {
    && roots * g.Keys <= s
    && forall a | a in s && a in g :: Refs(g[a]) * g.Keys <= s
  }

  lemma RootIsReachable(g: ObjectMap, roots: set<Addr>, a: Addr)
    requires a in roots && a in g
    ensures a in Reach(g, roots)
  {
    assert PathTo(g, roots, [a], a);
  }

  lemma EdgeIsReachable(g: ObjectMap, roots: set<Addr>, a: Addr, b: Addr)
    requires a in Reach(g, roots) && b in Refs(g[a]) && b in g
    ensures b in Reach(g, roots)
  {
    var p :| PathTo(g, roots, p, a);
    var q := p + [b];
    assert forall i | 0 <= i < |q| - 1 :: q[i + 1] in Refs(g[q[i]]) by {
      forall i | 0 <= i < |q| - 1 ensures q[i + 1] in Refs(g[q[i]]) {
        if i < |p| - 1 {
          assert p[i + 1] in Refs(g[p[i]]);
        }
      }
    }
    assert PathTo(g, roots, q, b);
  }

  lemma {:induction false} PathStaysInside(g: ObjectMap, roots: set<Addr>, s: set<Addr>, p: seq<Addr>)
    requires Absorbs(g, roots, s) && Path(g, roots, p)
    ensures p[|p| - 1] in s
    decreases |p|
  {
    if |p| > 1 {
      var q := p[..|p| - 1];
      assert forall i | 0 <= i < |q| - 1 :: q[i + 1] in Refs(g[q[i]]) by {
        forall i | 0 <= i < |q| - 1 ensures q[i + 1] in Refs(g[q[i]]) {
          assert p[i + 1] in Refs(g[p[i]]);
        }
      }
      PathStaysInside(g, roots, s, q);
      assert p[|p| - 2 + 1] in Refs(g[p[|p| - 2]]);
    }
  }

  /** The reachable set is the least absorbing set. */
  lemma ReachIsLeastAbsorbing(g: ObjectMap, roots: set<Addr>)
    ensures Absorbs(g, roots, Reach(g, roots))
    ensures forall s | Absorbs(g, roots, s) :: Reach(g, roots) <= s
  {
    forall a | a in roots * g.Keys ensures a in Reach(g, roots) {
      RootIsReachable(g, roots, a);
    }
    forall a | a in Reach(g, roots) ensures Refs(g[a]) * g.Keys <= Reach(g, roots) {
      forall b | b in Refs(g[a]) * g.Keys ensures b in Reach(g, roots) {
        EdgeIsReachable(g, roots, a, b);
      }
    }
    forall s | Absorbs(g, roots, s) ensures Reach(g, roots) <= s {
      forall a | a in Reach(g, roots) ensures a in s {
        var p :| PathTo(g, roots, p, a);
        PathStaysInside(g, roots, s, p);
      }
    }
  }

  // Everything reachable from `roots` before is still there, unchanged.
  ghost predicate Retained(g: ObjectMap, g': ObjectMap, roots: set<Addr>) {
    forall a | a in Reach(g, roots) :: a in g' && g'[a] == g[a]
  }

  /** Retained roots reach exactly the same addresses afterwards, when the graph was closed. */
  lemma RetainedReach(g: ObjectMap, g': ObjectMap, roots: set<Addr>)
    requires Closed(g) && roots <= g.Keys && Retained(g, g', roots)
    ensures Reach(g', roots) == Reach(g, roots)
  {
    var r := Reach(g, roots);
    ReachIsLeastAbsorbing(g, roots);
    ReachIsLeastAbsorbing(g', roots);
    var r' := Reach(g', roots);
    assert Absorbs(g', roots, r);
    assert r' <= r;
    assert Absorbs(g, roots, r') by {
      forall a | a in r' ensures Refs(g[a]) <= r' {
        assert a in r;
        assert g'[a] == g[a];
      }
    }
  }

  lemma ReachIsMonotone(g: ObjectMap, roots: set<Addr>, more: set<Addr>)
    requires roots <= more
    ensures Reach(g, roots) <= Reach(g, more)
  {
    ReachIsLeastAbsorbing(g, roots);
    ReachIsLeastAbsorbing(g, more);
  }

  /** Retention composes, also when the second step protected more roots. */
  lemma RetainedTransitive(g0: ObjectMap, g1: ObjectMap, g2: ObjectMap, roots: set<Addr>, more: set<Addr>)
    requires Closed(g0) && roots <= g0.Keys && roots <= more
    requires Retained(g0, g1, roots) && Retained(g1, g2, more)
    ensures Retained(g0, g2, roots)
  {
    RetainedReach(g0, g1, roots);
    ReachIsMonotone(g1, roots, more);
  }

  // `g'` is `g`, perhaps after losing unreachable objects, plus the new object `a`.
  ghost predicate Allocated(g: ObjectMap, g': ObjectMap, roots: set<Addr>, a: Addr, o: Object) {
    && Retained(g, g', roots)
    && a != 0 && a !in Reach(g, roots)
    && a in g' && g'[a] == o
    && forall b | b in g' && b != a :: b in g && g'[b] == g[b]
  }

  // `g'` is `g`, perhaps after losing unreachable objects.
  ghost predicate Shrunk(g: ObjectMap, g': ObjectMap, roots: set<Addr>) {
    && Retained(g, g', roots)
    && forall b | b in g' :: b in g && g'[b] == g[b]
  }

  // ---------------------------------------------------------------- references, field by field

  predicate PointsInto(v: Value, s: set<Addr>) {
    v.Ref? && v.addr != 0 ==> v.addr in s
  }

  // Every word the object stores, whichever field it is in, points into `s` if it points at all.
  ghost predicate WordsIn(o: Object, s: set<Addr>) {
    match o
    case Pair(car, cdr) => PointsInto(car, s) && PointsInto(cdr, s)
    case Str(_) => true
    case Closure(env, params, body, _, _) => PointsInto(env, s) && PointsInto(params, s) && PointsInto(body, s)
    case Prim(_, _, _) => true
    case Env(parent, names, values, _) =>
      && PointsInto(parent, s)
      && (forall i | 0 <= i < |names| :: PointsInto(names[i], s))
      && (forall i | 0 <= i < |values| :: PointsInto(values[i], s))
  }

  // One of its fields is a pointer to `b`.
  ghost predicate Stores(o: Object, b: Addr) {
    match o
    case Pair(car, cdr) => car == Ref(b) || cdr == Ref(b)
    case Str(_) => false
    case Closure(env, params, body, _, _) => env == Ref(b) || params == Ref(b) || body == Ref(b)
    case Prim(_, _, _) => false
    case Env(parent, names, values, _) =>
      || parent == Ref(b)
      || (exists i :: 0 <= i < |names| && names[i] == Ref(b))
      || (exists i :: 0 <= i < |values| && values[i] == Ref(b))
  }

  lemma StoresIsReference(o: Object, b: Addr)
    requires b != 0
    ensures Stores(o, b) <==> b in Refs(o)
  {
    if b in Refs(o) {
      var v :| v in Children(o) && IsPointer(v) && v.addr == b;
      assert v == Ref(b);
    }
    if Stores(o, b) {
      assert Ref(b) in Children(o);
    }
  }

  lemma WordsAreReferences(o: Object, s: set<Addr>)
    ensures WordsIn(o, s) <==> Refs(o) <= s
  {
    if WordsIn(o, s) {
      forall b | b in Refs(o) ensures b in s {
        StoresIsReference(o, b);
      }
    }
    if Refs(o) <= s {
      forall v | v in Children(o) ensures PointsInto(v, s) {
        assert IsPointer(v) ==> v.addr in Refs(o);
      }
      if o.Env? {
        forall i | 0 <= i < |o.names| ensures PointsInto(o.names[i], s) {
          assert o.names[i] in Children(o);
        }
        forall i | 0 <= i < |o.values| ensures PointsInto(o.values[i], s) {
          assert o.values[i] in Children(o);
        }
      }
    }
  }

  // Named by the top-level environment or by an entry of the protect stack.
  predicate IsRoot(toplevel: Value, protect: seq<Value>, b: Addr) {
    b != 0 && (toplevel == Ref(b) || Ref(b) in protect)
  }

  /**
   * An address is reachable exactly when it is a root, or a field of a reachable
   * object holds it: car, cdr, env, params, body, parent, a name or a value.
   */
  lemma ReachableThroughFields(g: ObjectMap, toplevel: Value, protect: seq<Value>, b: Addr)
    requires Closed(g) && Pointers([toplevel] + protect) <= g.Keys
    ensures var live := Reach(g, Pointers([toplevel] + protect));
      b in live <==> b != 0 && (IsRoot(toplevel, protect, b) || exists a :: a in live && Stores(g[a], b))
  {
    var roots := Pointers([toplevel] + protect);
    var live := Reach(g, roots);
    RootsAreNamed(toplevel, protect, b);
    if b != 0 && exists a :: a in live && Stores(g[a], b) {
      var a :| a in live && Stores(g[a], b);
      StoresIsReference(g[a], b);
      EdgeIsReachable(g, roots, a, b);
    }
    if b in roots {
      RootIsReachable(g, roots, b);
    }
    if b in live && b !in roots {
      var p :| PathTo(g, roots, p, b);
      var q := p[..|p| - 1];
      var a := q[|q| - 1];
      assert p[|p| - 2 + 1] in Refs(g[p[|p| - 2]]);
      assert PathTo(g, roots, q, a) by {
        forall i | 0 <= i < |q| - 1 ensures q[i + 1] in Refs(g[q[i]]) {
          assert p[i + 1] in Refs(g[p[i]]);
        }
      }
      StoresIsReference(g[a], b);
    }
  }

  lemma RootsAreNamed(toplevel: Value, protect: seq<Value>, b: Addr)
    ensures b in Pointers([toplevel] + protect) <==> IsRoot(toplevel, protect, b)
  {
    if IsRoot(toplevel, protect, b) {
      assert Ref(b) in [toplevel] + protect;
    }
    if b in Pointers([toplevel] + protect) {
      var v :| v in [toplevel] + protect && IsPointer(v) && v.addr == b;
      assert v == Ref(b);
    }
  }

  /** And no smaller set than the reachable one has the roots and what the fields of its members hold. */
  lemma ReachIsLeastOverFields(g: ObjectMap, toplevel: Value, protect: seq<Value>, s: set<Addr>)
    requires Closed(g) && Pointers([toplevel] + protect) <= g.Keys
    requires forall b: Addr | IsRoot(toplevel, protect, b) :: b in s
    requires forall a, b | a in s && a in g && b != 0 && Stores(g[a], b) :: b in s
    ensures Reach(g, Pointers([toplevel] + protect)) <= s
  {
    var roots := Pointers([toplevel] + protect);
    forall b | b in roots ensures b in s {
      RootsAreNamed(toplevel, protect, b);
    }
    forall a | a in s && a in g ensures Refs(g[a]) <= s {
      forall b | b in Refs(g[a]) ensures b in s {
        StoresIsReference(g[a], b);
      }
    }
    ReachIsLeastAbsorbing(g, roots);
    assert Absorbs(g, roots, s);
  }
}
