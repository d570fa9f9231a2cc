/**
 * Heap values as trees: what a value unfolds to along car and cdr, how that
 * survives heap changes, and why every value of a reachable heap has a tree.
 */
module Unfolding {
  import opened Graph
  import Text
  import opened RoundTrip

  type Names = seq<Text.Bytes>

  // A value that is neither a datum's leaf nor a pair.
  predicate IsOpaque(g: ObjectMap, names: Names, v: Value) {
    match v
    case Eof => true
    case Undef => true
    case Sym(idx) => idx >= |names|
    case Ref(a) => a == 0 || (a in g && !g[a].Pair? && !g[a].Str?)
    case _ => false
  }

  function OpaqueKind(g: ObjectMap, names: Names, v: Value): (k: Text.Kind)
    requires IsOpaque(g, names, v)
  {
    if v.Eof? then Text.EofMark
    else if v.Undef? then Text.UndefinedMark
    else if v.Sym? then Text.Unnamed
    else if v.addr == 0 then Text.Unknown
    else if g[v.addr].Prim? then Text.Primitive(g[v.addr].name)
    else if g[v.addr].Closure? then Text.Procedure
    else Text.Environment
  }

  predicate IsCell(g: ObjectMap, v: Value, avoid: set<Addr>) {
    IsPointer(v) && v.addr in g && v.addr !in avoid
  }

  // `v` unfolds to the tree `d`, along pairs and strings none of which is in `avoid`.
  ghost predicate Builds(g: ObjectMap, names: Names, v: Value, d: Text.Datum, avoid: set<Addr>)
    decreases d
  {
    match d
    case Nil => v.Nil?
    case True => v.True?
    case False => v.False?
    case Fix(n) => v == Fix(n)
    case Sym(name) => v.Sym? && v.idx < |names| && names[v.idx] == name
    case Str(bytes) => IsCell(g, v, avoid) && g[v.addr] == Str(bytes)
    case Pair(car, cdr) =>
      && IsCell(g, v, avoid)
      && g[v.addr].Pair?
      && Builds(g, names, g[v.addr].car, car, avoid)
      && Builds(g, names, g[v.addr].cdr, cdr, avoid)
    case Opaque(kind) => IsOpaque(g, names, v) && kind == OpaqueKind(g, names, v)
  }

  /** A value has one tree only. */
  lemma {:induction false} TreeIsUnique(g: ObjectMap, names: Names, v: Value, d: Text.Datum, d': Text.Datum)
    requires Builds(g, names, v, d, {}) && Builds(g, names, v, d', {})
    ensures d == d'
    decreases d
  {
    if d.Pair? {
      assert d'.Pair?;
      TreeIsUnique(g, names, g[v.addr].car, d.car, d'.car);
      TreeIsUnique(g, names, g[v.addr].cdr, d.cdr, d'.cdr);
    }
  }

  lemma {:induction false} BuildsLess(g: ObjectMap, names: Names, v: Value, d: Text.Datum, avoid: set<Addr>,
                                      less: set<Addr>)
    requires Builds(g, names, v, d, avoid) && less <= avoid
    ensures Builds(g, names, v, d, less)
    decreases d
  {
    if d.Pair? {
      BuildsLess(g, names, g[v.addr].car, d.car, avoid, less);
      BuildsLess(g, names, g[v.addr].cdr, d.cdr, avoid, less);
    }
  }

  predicate Live(v: Value, live: set<Addr>) {
    IsPointer(v) ==> v.addr in live
  }

  lemma ChildIsLive(g: ObjectMap, roots: set<Addr>, a: Addr, v: Value)
    requires Closed(g) && a in Reach(g, roots) && v in Children(g[a])
    ensures Live(v, Reach(g, roots))
  {
    if IsPointer(v) {
      assert v.addr in Refs(g[a]);
      EdgeIsReachable(g, roots, a, v.addr);
    }
  }

  /** A rooted tree survives anything that retains the rooted part, and avoids all that is not rooted. */
  lemma {:induction false} BuildsRetained(g: ObjectMap, g': ObjectMap, roots: set<Addr>, names: Names, v: Value,
                                          d: Text.Datum, avoid: set<Addr>, avoid': set<Addr>)
    requires Closed(g) && Retained(g, g', roots)
    requires Builds(g, names, v, d, avoid) && Live(v, Reach(g, roots))
    requires avoid' * Reach(g, roots) <= avoid
    ensures Builds(g', names, v, d, avoid')
    decreases d
  {
    if d.Pair? {
      var o := g[v.addr];
      ChildIsLive(g, roots, v.addr, o.car);
      ChildIsLive(g, roots, v.addr, o.cdr);
      BuildsRetained(g, g', roots, names, o.car, d.car, avoid, avoid');
      BuildsRetained(g, g', roots, names, o.cdr, d.cdr, avoid, avoid');
    }
  }

  /** New names do not change a tree without opaque leaves. */
  lemma {:induction false} BuildsMoreNames(g: ObjectMap, names: Names, names': Names, v: Value, d: Text.Datum,
                                           avoid: set<Addr>)
    requires Builds(g, names, v, d, avoid) && names <= names' && Readable(d)
    ensures Builds(g, names', v, d, avoid)
    decreases d
  {
    if d.Pair? {
      BuildsMoreNames(g, names, names', g[v.addr].car, d.car, avoid);
      BuildsMoreNames(g, names, names', g[v.addr].cdr, d.cdr, avoid);
    }
  }

  /** Overwriting an avoided pair does not change a tree. */
  lemma {:induction false} BuildsStored(g: ObjectMap, a: Addr, o: Object, names: Names, v: Value, d: Text.Datum,
                                        avoid: set<Addr>)
    requires Builds(g, names, v, d, avoid) && a in avoid
    requires a in g && g[a].Pair? && o.Pair?
    ensures Builds(g[a := o], names, v, d, avoid)
    decreases d
  {
    if d.Pair? {
      BuildsStored(g, a, o, names, g[v.addr].car, d.car, avoid);
      BuildsStored(g, a, o, names, g[v.addr].cdr, d.cdr, avoid);
    }
  }

  // ---------------------------------------------------------------- no cycles

  ghost predicate HasTree(g: ObjectMap, v: Value, avoid: set<Addr>) {
    exists d :: Builds(g, [], v, d, avoid)
  }

  predicate IsFrame(g: ObjectMap, v: Value) {
    IsPointer(v) && v.addr in g && g[v.addr].Env?
  }

  // The parent chain from `v` has at most `n` frames.
  ghost predicate Climbs(g: ObjectMap, v: Value, n: nat)
    decreases n
  {
    IsFrame(g, v) ==> n > 0 && Climbs(g, g[v.addr].parent, n - 1)
  }

  ghost predicate HasHeight(g: ObjectMap, v: Value) {
    exists n: nat :: Climbs(g, v, n)
  }

  // No cycle along car and cdr, and none along frame parents.
  ghost predicate Acyclic(g: ObjectMap) {
    forall a | a in g && a != 0 :: HasTree(g, Ref(a), {}) && HasHeight(g, Ref(a))
  }

  predicate InHeap(g: ObjectMap, v: Value) {
    IsPointer(v) ==> v.addr in g
  }

  lemma BuiltIsInHeap(g: ObjectMap, names: Names, v: Value, d: Text.Datum, avoid: set<Addr>)
    requires Builds(g, names, v, d, avoid)
    ensures InHeap(g, v)
  {
  }

  /** In an acyclic heap every value unfolds, so walks along car and cdr end. */
  lemma ValueHasTree(g: ObjectMap, v: Value)
    requires Acyclic(g) && InHeap(g, v)
    ensures HasTree(g, v, {}) && HasHeight(g, v)
  {
    if !IsPointer(v) {
      var d := match v
        case Nil => Text.Nil
        case True => Text.True
        case False => Text.False
        case Fix(n) => Text.Fix(n)
        case _ => Text.Opaque(OpaqueKind(g, [], v));
      assert Builds(g, [], v, d, {});
      assert Climbs(g, v, 0);
    }
  }

  // The same with the names the symbols really have.
  lemma {:induction false} TreeWithNames(g: ObjectMap, names: Names, v: Value, d: Text.Datum, avoid: set<Addr>)
    returns (d': Text.Datum)
    requires Builds(g, [], v, d, avoid)
    ensures Builds(g, names, v, d', avoid)
    decreases d
  {
    if d.Pair? {
      var car := TreeWithNames(g, names, g[v.addr].car, d.car, avoid);
      var cdr := TreeWithNames(g, names, g[v.addr].cdr, d.cdr, avoid);
      d' := Text.Pair(car, cdr);
    } else if v.Sym? && v.idx < |names| {
      d' := Text.Sym(names[v.idx]);
    } else {
      d' := d;
    }
  }

  lemma {:induction false} TreeWithoutNames(g: ObjectMap, names: Names, v: Value, d: Text.Datum, avoid: set<Addr>)
    requires Builds(g, names, v, d, avoid)
    ensures HasTree(g, v, avoid)
    decreases d
  {
    if d.Pair? {
      var o := g[v.addr];
      TreeWithoutNames(g, names, o.car, d.car, avoid);
      TreeWithoutNames(g, names, o.cdr, d.cdr, avoid);
      var car :| Builds(g, [], o.car, car, avoid);
      var cdr :| Builds(g, [], o.cdr, cdr, avoid);
      assert Builds(g, [], v, Text.Pair(car, cdr), avoid);
    } else if v.Sym? {
      assert Builds(g, [], v, Text.Opaque(Text.Unnamed), avoid);
    } else {
      assert Builds(g, [], v, d, avoid);
    }
  }

  // Replacing one by the other does not show in a tree that has it as a leaf.
  predicate SameKind(o: Object, o': Object) {
    (o.Env? && o'.Env?) || (o.Pair? && o'.Pair?)
  }

  lemma LeafBuilds(g: ObjectMap, g': ObjectMap, names: Names, v: Value, d: Text.Datum, avoid: set<Addr>)
    requires !d.Pair? && Builds(g, names, v, d, avoid)
    requires IsPointer(v) ==> v.addr in g' && (g'[v.addr] == g[v.addr] || SameKind(g[v.addr], g'[v.addr]))
    ensures Builds(g', names, v, d, avoid)
  {
    if IsPointer(v) && d.Opaque? {
      assert OpaqueKind(g', names, v) == OpaqueKind(g, names, v);
    }
  }

  // The part of a graph below a value is the same in both graphs.
  ghost predicate Agrees(g: ObjectMap, g': ObjectMap) {
    forall a | a in g && a in g' :: g'[a] == g[a]
  }

  lemma {:induction false} TreeInAgreeing(g: ObjectMap, g': ObjectMap, v: Value, d: Text.Datum)
    requires Agrees(g, g') && Builds(g, [], v, d, {}) && InHeap(g, v) && InHeap(g', v)
    requires Closed(g) && Closed(g')
    ensures Builds(g', [], v, d, {})
    decreases d
  {
    if d.Pair? {
      var o := g[v.addr];
      assert o.car in Children(o) && o.cdr in Children(o);
      TreeInAgreeing(g, g', o.car, d.car);
      TreeInAgreeing(g, g', o.cdr, d.cdr);
    } else {
      LeafBuilds(g, g', [], v, d, {});
    }
  }

  lemma {:induction false} ClimbInAgreeing(g: ObjectMap, g': ObjectMap, v: Value, n: nat)
    requires Agrees(g, g') && Climbs(g, v, n) && InHeap(g, v) && InHeap(g', v)
    requires Closed(g) && Closed(g')
    ensures Climbs(g', v, n)
    decreases n
  {
    if IsFrame(g, v) {
      var o := g[v.addr];
      assert o.parent in Children(o);
      ClimbInAgreeing(g, g', o.parent, n - 1);
    }
  }

  lemma OldStaysAcyclic(g: ObjectMap, g': ObjectMap, v: Value)
    requires Acyclic(g) && Agrees(g, g') && Closed(g) && Closed(g') && InHeap(g, v) && InHeap(g', v)
    ensures HasTree(g', v, {}) && HasHeight(g', v)
  {
    ValueHasTree(g, v);
    var d :| Builds(g, [], v, d, {});
    TreeInAgreeing(g, g', v, d);
    var n: nat :| Climbs(g, v, n);
    ClimbInAgreeing(g, g', v, n);
  }

  /** Dropping objects makes no cycle. */
  lemma DroppingKeepsAcyclic(g: ObjectMap, g': ObjectMap)
    requires Acyclic(g) && Closed(g) && Closed(g') && g'.Keys <= g.Keys && Agrees(g, g')
    ensures Acyclic(g')
  {
    forall a | a in g' && a != 0 ensures HasTree(g', Ref(a), {}) && HasHeight(g', Ref(a)) {
      OldStaysAcyclic(g, g', Ref(a));
    }
  }

  /** A new object that refers to old ones makes no cycle. */
  lemma AllocationKeepsAcyclic(g: ObjectMap, a: Addr, o: Object)
    requires Acyclic(g) && Closed(g) && a !in g && WellFormed(o) && Refs(o) <= g.Keys
    ensures Acyclic(g[a := o])
  {
    var g' := g[a := o];
    assert Closed(g') by {
      forall b | b in g' ensures WellFormed(g'[b]) && Refs(g'[b]) <= g'.Keys {
        assert b != a ==> g'[b] == g[b];
      }
    }
    forall v | InHeap(g, v) ensures HasTree(g', v, {}) && HasHeight(g', v) {
      OldStaysAcyclic(g, g', v);
    }
    forall b | b in g' && b != 0 ensures HasTree(g', Ref(b), {}) && HasHeight(g', Ref(b)) {
      if b != a {
        assert InHeap(g, Ref(b));
      } else {
        NewObjectHasTree(g, a, o);
      }
    }
  }

  lemma NewObjectHasTree(g: ObjectMap, a: Addr, o: Object)
    requires a !in g && a != 0 && Refs(o) <= g.Keys
    requires forall v | InHeap(g, v) :: HasTree(g[a := o], v, {}) && HasHeight(g[a := o], v)
    ensures HasTree(g[a := o], Ref(a), {}) && HasHeight(g[a := o], Ref(a))
  {
    var g' := g[a := o];
    forall v | v in Children(o) ensures InHeap(g, v) {
    }
    match o
    case Pair(x, y) =>
      assert InHeap(g, x) && InHeap(g, y);
      var car :| Builds(g', [], x, car, {});
      var cdr :| Builds(g', [], y, cdr, {});
      assert Builds(g', [], Ref(a), Text.Pair(car, cdr), {});
      assert Climbs(g', Ref(a), 0);
    case Str(bytes) =>
      assert Builds(g', [], Ref(a), Text.Str(bytes), {});
      assert Climbs(g', Ref(a), 0);
    case Env(parent, _, _, _) =>
      assert Builds(g', [], Ref(a), Text.Opaque(OpaqueKind(g', [], Ref(a))), {});
      assert InHeap(g, parent);
      var n: nat :| Climbs(g', parent, n);
      assert Climbs(g', Ref(a), n + 1);
    case _ =>
      assert Builds(g', [], Ref(a), Text.Opaque(OpaqueKind(g', [], Ref(a))), {});
      assert Climbs(g', Ref(a), 0);
  }

  /** Patching a pair with a value whose tree does not contain the pair makes no cycle. */
  lemma PatchKeepsAcyclic(g: ObjectMap, a: Addr, v: Value)
    requires Acyclic(g) && a in g && g[a].Pair? && HasTree(g, v, {a})
    ensures Acyclic(g[a := g[a].(cdr := v)])
  {
    var g' := g[a := g[a].(cdr := v)];
    forall b | b in g' && b != 0 ensures HasTree(g', Ref(b), {}) && HasHeight(g', Ref(b)) {
      var d :| Builds(g, [], Ref(b), d, {});
      TreeAfterPatch(g, a, v, Ref(b), d);
      var n: nat :| Climbs(g, Ref(b), n);
      ClimbAfterStore(g, a, g[a].(cdr := v), Ref(b), n);
    }
  }

  lemma {:induction false} TreeAfterPatch(g: ObjectMap, a: Addr, v: Value, w: Value, d: Text.Datum)
    requires a in g && g[a].Pair? && HasTree(g, v, {a}) && Builds(g, [], w, d, {})
    ensures HasTree(g[a := g[a].(cdr := v)], w, {})
    decreases d
  {
    var o := g[a].(cdr := v);
    var g' := g[a := o];
    if !d.Pair? {
      LeafBuilds(g, g', [], w, d, {});
    } else {
      var p := g[w.addr];
      TreeAfterPatch(g, a, v, p.car, d.car);
      var car :| Builds(g', [], p.car, car, {});
      var cdr: Text.Datum;
      if w.addr == a {
        cdr :| Builds(g, [], v, cdr, {a});
        BuildsStored(g, a, o, [], v, cdr, {a});
        BuildsLess(g', [], v, cdr, {a}, {});
      } else {
        TreeAfterPatch(g, a, v, p.cdr, d.cdr);
        cdr :| Builds(g', [], p.cdr, cdr, {});
      }
      assert Builds(g', [], w, Text.Pair(car, cdr), {});
    }
  }

  lemma {:induction false} ClimbAfterStore(g: ObjectMap, a: Addr, o: Object, v: Value, n: nat)
    requires a in g && (g[a].Env? <==> o.Env?) && (o.Env? ==> o.parent == g[a].parent) && Climbs(g, v, n)
    ensures Climbs(g[a := o], v, n)
    decreases n
  {
    if IsFrame(g, v) {
      ClimbAfterStore(g, a, o, g[v.addr].parent, n - 1);
    }
  }

  /** Rewriting the bindings of a frame makes no cycle. */
  lemma BindingKeepsAcyclic(g: ObjectMap, a: Addr, o: Object)
    requires Acyclic(g) && a in g && g[a].Env? && o.Env? && o.parent == g[a].parent
    ensures Acyclic(g[a := o])
  {
    var g' := g[a := o];
    forall b | b in g' && b != 0 ensures HasTree(g', Ref(b), {}) && HasHeight(g', Ref(b)) {
      var d :| Builds(g, [], Ref(b), d, {});
      TreeAfterBinding(g, a, o, Ref(b), d);
      var n: nat :| Climbs(g, Ref(b), n);
      ClimbAfterStore(g, a, o, Ref(b), n);
    }
  }

  lemma {:induction false} TreeAfterBinding(g: ObjectMap, a: Addr, o: Object, v: Value, d: Text.Datum)
    requires a in g && g[a].Env? && o.Env? && Builds(g, [], v, d, {})
    ensures Builds(g[a := o], [], v, d, {})
    decreases d
  {
    if d.Pair? {
      TreeAfterBinding(g, a, o, g[v.addr].car, d.car);
      TreeAfterBinding(g, a, o, g[v.addr].cdr, d.cdr);
    } else {
      LeafBuilds(g, g[a := o], [], v, d, {});
    }
  }
}
