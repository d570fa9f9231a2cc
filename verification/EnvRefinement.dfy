/**
 * The frames of the collected heap, at addresses that come and go, implement the
 * numbered frames the evaluator is proved over, and so the scoped maps.
 */
module EnvRefinement {
  import opened Graph
  import opened Unfolding
  import opened EnvHeap
  import Frames
  import ScopedMaps
  import Terms

  // The number of each frame, and the term each word stands for.
  datatype Numbering = Numbering(ids: map<Addr, nat>, meaning: Value -> Terms.Value)

  function ParentId(g: ObjectMap, m: Numbering, v: Value): Terms.Option<nat> {
    if IsFrame(g, v) && v.addr in m.ids then Terms.Some(m.ids[v.addr]) else Terms.None
  }

  ghost predicate SameNames(names: seq<Value>, ns: seq<nat>) {
    |names| == |ns| && forall i | 0 <= i < |ns| :: names[i] == Sym(ns[i])
  }

  ghost predicate SameValues(m: Numbering, values: seq<Value>, vs: seq<Terms.Value>) {
    |values| == |vs| && forall i | 0 <= i < |vs| :: vs[i] == m.meaning(values[i])
  }

  // The frame at `a` has the contents of the frame with its number, and an older parent.
  ghost predicate Mirrors(g: ObjectMap, m: Numbering, frames: seq<Frames.Frame>, a: Addr)
    requires a in g && g[a].Env?
  {
    && a in m.ids && m.ids[a] < |frames|
    && var o, f := g[a], frames[m.ids[a]];
    && SameNames(o.names, f.names)
    && SameValues(m, o.values, f.values)
    && f.capacity == o.capacity
    && f.parent == ParentId(g, m, o.parent)
    && (IsFrame(g, o.parent) ==> f.parent.Some? && f.parent.value < m.ids[a])
  }

  ghost predicate Implements(g: ObjectMap, m: Numbering, frames: seq<Frames.Frame>) {
    && (forall a | a in g && g[a].Env? :: Mirrors(g, m, frames, a))
    && (forall a, b | a in g && b in g && g[a].Env? && g[b].Env? && a in m.ids && b in m.ids && m.ids[a] == m.ids[b] ::
          a == b)
  }

  // ---------------------------------------------------------------- lookup

  lemma {:induction false} PositionIsIndex(names: seq<Value>, ns: seq<nat>, k: nat)
    requires SameNames(names, ns)
    ensures Position(names, Sym(k)) == Frames.IndexOf(ns, k)
  {
    if ns != [] {
      assert SameNames(names[1..], ns[1..]);
      PositionIsIndex(names[1..], ns[1..], k);
    }
  }

  // The walk over addresses and the walk over numbers stop at the same frame; the
  // older-parent test of the latter never fails.
  lemma {:induction false} HolderMirrors(g: ObjectMap, m: Numbering, frames: seq<Frames.Frame>, v: Value, k: nat,
                                         n: nat)
    requires Implements(g, m, frames) && Climbs(g, v, n) && IsFrame(g, v)
    ensures v.addr in m.ids
    ensures var h := HolderWithin(g, v, Sym(k), n);
      (h.Some? ==> h.value in m.ids) &&
      Frames.Holder(frames, m.ids[v.addr], k) == if h.Some? then Terms.Some(m.ids[h.value]) else Terms.None
    decreases n
  {
    var o := g[v.addr];
    assert Mirrors(g, m, frames, v.addr);
    PositionIsIndex(o.names, frames[m.ids[v.addr]].names, k);
    if Position(o.names, Sym(k)).None? && IsFrame(g, o.parent) {
      HolderMirrors(g, m, frames, o.parent, k, n - 1);
    }
  }

  lemma HolderIsMirrored(g: ObjectMap, m: Numbering, frames: seq<Frames.Frame>, v: Value, k: nat)
    requires Implements(g, m, frames) && HasHeight(g, v) && IsFrame(g, v)
    ensures v.addr in m.ids
    ensures var h := Holder(g, v, Sym(k));
      (h.Some? ==> h.value in m.ids) &&
      Frames.Holder(frames, m.ids[v.addr], k) == if h.Some? then Terms.Some(m.ids[h.value]) else Terms.None
  {
    var n: nat :| Climbs(g, v, n);
    HolderAnyHeight(g, v, Sym(k), n);
    HolderMirrors(g, m, frames, v, k, n);
  }

  /** Lookup in the heap finds what lookup in the numbered frames finds. */
  lemma LookupIsMirrored(g: ObjectMap, m: Numbering, frames: seq<Frames.Frame>, v: Value, k: nat)
    requires Closed(g) && Implements(g, m, frames) && HasHeight(g, v) && IsFrame(g, v)
    ensures v.addr in m.ids
    ensures var h := Holder(g, v, Sym(k));
      (h.Some? ==> IsBindings(g[h.value])) &&
      Frames.Lookup(frames, m.ids[v.addr], k) ==
      if h.Some? then Terms.Some(m.meaning(ValueIn(g[h.value], Sym(k)))) else Terms.None
  {
    HolderIsMirrored(g, m, frames, v, k);
    var h := Holder(g, v, Sym(k));
    if h.Some? {
      FrameFits(g, h.value);
      assert Mirrors(g, m, frames, h.value);
      PositionIsIndex(g[h.value].names, frames[m.ids[h.value]].names, k);
    }
  }

  // ---------------------------------------------------------------- changes

  // Replacing a frame by one with the same parent that mirrors `f`.
  lemma ReplaceMirrored(g: ObjectMap, m: Numbering, frames: seq<Frames.Frame>, a: Addr, o: Object, f: Frames.Frame)
    requires Implements(g, m, frames) && a in g && g[a].Env? && o.Env? && o.parent == g[a].parent
    requires a in m.ids && m.ids[a] < |frames| && f.parent == frames[m.ids[a]].parent
    requires SameNames(o.names, f.names) && SameValues(m, o.values, f.values) && f.capacity == o.capacity
    ensures Implements(g[a := o], m, frames[m.ids[a] := f])
  {
    var g', frames' := g[a := o], frames[m.ids[a] := f];
    forall b | b in g' && g'[b].Env? ensures Mirrors(g', m, frames', b) {
      assert Mirrors(g, m, frames, b) && Mirrors(g, m, frames, a);
      assert IsFrame(g', g'[b].parent) == IsFrame(g, g[b].parent);
    }
  }

  /** Binding a name in the heap is defining it in the numbered frames. */
  lemma BindIsMirrored(g: ObjectMap, m: Numbering, frames: seq<Frames.Frame>, a: Addr, k: nat, w: Value)
    requires Implements(g, m, frames) && a in g && g[a].Env? && IsBindings(g[a])
    ensures a in m.ids && m.ids[a] < |frames|
    ensures Implements(g[a := Bound(g[a], Sym(k), w)], m, Frames.Define(frames, m.ids[a], k, m.meaning(w)))
  {
    assert Mirrors(g, m, frames, a);
    var f := frames[m.ids[a]];
    PositionIsIndex(g[a].names, f.names, k);
    ReplaceMirrored(g, m, frames, a, Bound(g[a], Sym(k), w), Frames.DefineIn(f, k, m.meaning(w)));
  }

  /** Assignment along addresses is assignment in the numbered frames. */
  lemma AssignIsMirrored(g: ObjectMap, m: Numbering, frames: seq<Frames.Frame>, v: Value, k: nat, w: Value)
    requires Closed(g) && Implements(g, m, frames) && HasHeight(g, v) && IsFrame(g, v)
    ensures v.addr in m.ids
    ensures var h, frames' := Holder(g, v, Sym(k)), Frames.Set(frames, m.ids[v.addr], k, m.meaning(w));
      (h.Some? <==> frames'.Some?) &&
      (h.Some? ==> IsBindings(g[h.value]) && Implements(g[h.value := Bound(g[h.value], Sym(k), w)], m, frames'.value))
  {
    HolderIsMirrored(g, m, frames, v, k);
    var h := Holder(g, v, Sym(k));
    if h.Some? {
      FrameFits(g, h.value);
      BindIsMirrored(g, m, frames, h.value, k, w);
    }
  }

  lemma GrowIsMirrored(g: ObjectMap, m: Numbering, frames: seq<Frames.Frame>, a: Addr)
    requires Implements(g, m, frames) && a in g && g[a].Env?
    ensures a in m.ids && m.ids[a] < |frames|
    ensures var f, c := frames[m.ids[a]], Frames.Doubled(g[a].capacity);
      Implements(g[a := g[a].(capacity := c)], m, frames[m.ids[a] := f.(capacity := c)])
  {
    assert Mirrors(g, m, frames, a);
    var f, c := frames[m.ids[a]], Frames.Doubled(g[a].capacity);
    ReplaceMirrored(g, m, frames, a, g[a].(capacity := c), f.(capacity := c));
  }

  // The words that frames hold mean the same.
  ghost predicate SameMeaning(g: ObjectMap, m: Numbering, m': Numbering) {
    forall a, v | a in g && g[a].Env? && v in g[a].values :: m'.meaning(v) == m.meaning(v)
  }

  // A change that keeps the frames that remain, with their parents.
  lemma OtherIsMirrored(g: ObjectMap, g': ObjectMap, m: Numbering, m': Numbering, frames: seq<Frames.Frame>)
    requires Implements(g, m, frames) && m'.ids == m.ids && SameMeaning(g, m, m')
    requires forall a | a in g' && g'[a].Env? :: a in g && g'[a] == g[a]
    requires forall a | a in g' && g'[a].Env? :: IsFrame(g', g'[a].parent) == IsFrame(g, g[a].parent)
    ensures Implements(g', m', frames)
  {
    forall a | a in g' && g'[a].Env? ensures Mirrors(g', m', frames, a) {
      assert Mirrors(g, m, frames, a);
    }
  }

  // A new frame gets the next number, also when its address was another frame's before.
  lemma OpenIsMirrored(g: ObjectMap, m: Numbering, m': Numbering, frames: seq<Frames.Frame>, a: Addr, parent: Value)
    requires Closed(g) && Implements(g, m, frames) && a != 0 && a !in g && InHeap(g, parent)
    requires m'.ids == m.ids[a := |frames|] && SameMeaning(g, m, m')
    ensures Implements(g[a := Env(parent, [], [], 0)], m', frames + [Frames.EmptyFrame(ParentId(g, m, parent))])
  {
    var g', frames' := g[a := Env(parent, [], [], 0)], frames + [Frames.EmptyFrame(ParentId(g, m, parent))];
    forall b | b in g && g[b].Env? ensures Mirrors(g', m', frames', b) {
      assert Mirrors(g, m, frames, b);
      FrameFits(g, b);
    }
    if IsFrame(g, parent) {
      assert Mirrors(g, m, frames, parent.addr);
    }
    assert Mirrors(g', m', frames', a);
    forall b | b in g && g[b].Env? ensures b in m.ids && m.ids[b] < |frames| {
      assert Mirrors(g, m, frames, b);
    }
  }

  // ---------------------------------------------------------------- runs

  // What can happen to the heap: a collection, an object that is no frame made
  // or changed, and what allocation, env_grow, define and set! do to frames.
  datatype HeapOp =
    | Collect
    | Link(a: Addr, o: Object)
    | Patch(a: Addr, o: Object)
    | Open(a: Addr, parent: Value)
    | Grow(a: Addr)
    | Bind(a: Addr, name: nat, value: Value)
    | Assign(env: Value, name: nat, value: Value)

  datatype State = State(g: ObjectMap, m: Numbering, frames: seq<Frames.Frame>, scopes: seq<ScopedMaps.Scope>)

  // The same operation on numbered frames and on scopes, where it shows there.
  ghost function Effect(s: State, op: HeapOp): Terms.Option<ScopedMaps.EnvOp> {
    match op
    case Collect => Terms.None
    case Link(_, _) => Terms.None
    case Patch(_, _) => Terms.None
    case Open(_, parent) => Terms.Some(ScopedMaps.NewFrame(ParentId(s.g, s.m, parent)))
    case Grow(a) => if a in s.m.ids then Terms.Some(ScopedMaps.Grow(s.m.ids[a])) else Terms.None
    case Bind(a, k, w) =>
      if a in s.m.ids then Terms.Some(ScopedMaps.DefineName(s.m.ids[a], k, s.m.meaning(w))) else Terms.None
    case Assign(v, k, w) =>
      if v.Ref? && v.addr in s.m.ids then Terms.Some(ScopedMaps.Assign(s.m.ids[v.addr], k, s.m.meaning(w)))
      else Terms.None
  }

  // The heap after the operation.
  ghost predicate HeapStep(g: ObjectMap, g': ObjectMap, op: HeapOp) {
    match op
    case Collect => forall a | a in g' :: a in g && g'[a] == g[a]
    case Link(a, o) => a != 0 && a !in g && !o.Env? && g' == g[a := o]
    case Patch(a, o) => a in g && !g[a].Env? && !o.Env? && g' == g[a := o]
    case Open(a, parent) => a != 0 && a !in g && InHeap(g, parent) && g' == g[a := Env(parent, [], [], 0)]
    case Grow(a) => a in g && g[a].Env? && g' == g[a := g[a].(capacity := Frames.Doubled(g[a].capacity))]
    case Bind(a, k, w) => a in g && g[a].Env? && IsBindings(g[a]) && g' == g[a := Bound(g[a], Sym(k), w)]
    case Assign(v, k, w) =>
      && HasHeight(g, v) && IsFrame(g, v)
      && var h := Holder(g, v, Sym(k));
         if h.Some? then IsBindings(g[h.value]) && g' == g[h.value := Bound(g[h.value], Sym(k), w)] else g' == g
  }

  ghost predicate NumberStep(s: State, s': State, op: HeapOp) {
    && s'.m.ids == (if op.Open? then s.m.ids[op.a := |s.frames|] else s.m.ids)
    && (if op.Link? || op.Patch? || op.Open? then SameMeaning(s.g, s.m, s'.m) else s'.m == s.m)
  }

  ghost predicate Step(s: State, s': State, op: HeapOp) {
    && Closed(s'.g) && HeapStep(s.g, s'.g, op) && NumberStep(s, s', op)
    && var e := Effect(s, op);
       if e.Some? then
         s'.frames == ScopedMaps.Apply(s.frames, e.value) && s'.scopes == ScopedMaps.Update(s.scopes, e.value)
       else s'.frames == s.frames && s'.scopes == s.scopes
  }

  ghost predicate Good(s: State) {
    && Closed(s.g)
    && Implements(s.g, s.m, s.frames)
    && Frames.GoodFrames(s.frames)
    && ScopedMaps.Implements(s.frames, s.scopes)
  }

  lemma FrameStep(s: State, s': State, op: HeapOp)
    requires Good(s) && Step(s, s', op)
    ensures Implements(s'.g, s'.m, s'.frames)
  {
    match op
    case Open(a, parent) =>
      if IsFrame(s.g, parent) {
        assert Mirrors(s.g, s.m, s.frames, parent.addr);
      }
      OpenIsMirrored(s.g, s.m, s'.m, s.frames, a, parent);
    case Grow(a) =>
      assert Mirrors(s.g, s.m, s.frames, a);
      GrowIsMirrored(s.g, s.m, s.frames, a);
    case Bind(a, k, w) =>
      BindIsMirrored(s.g, s.m, s.frames, a, k, w);
    case Assign(v, k, w) =>
      AssignIsMirrored(s.g, s.m, s.frames, v, k, w);
    case _ =>
      OtherStep(s, s', op);
  }

  // Collections, and objects that are no frames, leave the frames alone.
  lemma OtherStep(s: State, s': State, op: HeapOp)
    requires Good(s) && Step(s, s', op) && (op.Collect? || op.Link? || op.Patch?)
    ensures Implements(s'.g, s'.m, s'.frames)
  {
    forall a | a in s'.g && s'.g[a].Env?
      ensures a in s.g && s'.g[a] == s.g[a] && IsFrame(s'.g, s'.g[a].parent) == IsFrame(s.g, s.g[a].parent)
    {
      FrameFits(s'.g, a);
      FrameFits(s.g, a);
    }
    OtherIsMirrored(s.g, s'.g, s.m, s'.m, s.frames);
  }

  lemma StepKeepsGood(s: State, s': State, op: HeapOp)
    requires Good(s) && Step(s, s', op)
    ensures Good(s')
  {
    FrameStep(s, s', op);
    var e := Effect(s, op);
    if e.Some? {
      ScopedMaps.ApplyKeepsGood(s.frames, e.value);
      ScopedMaps.ApplyIsUpdate(s.frames, s.scopes, e.value);
    }
  }

  ghost predicate IsRun(run: seq<State>, ops: seq<HeapOp>) {
    && |run| == |ops| + 1
    && run[0].g == map[] && run[0].frames == [] && run[0].scopes == []
    && forall i | 0 <= i < |ops| :: Step(run[i], run[i + 1], ops[i])
  }

  lemma {:induction false} RunStaysGood(run: seq<State>, ops: seq<HeapOp>, i: nat)
    requires IsRun(run, ops) && i < |run|
    ensures Good(run[i])
  {
    if i > 0 {
      RunStaysGood(run, ops, i - 1);
      assert Step(run[i - 1], run[i - 1 + 1], ops[i - 1]);
      StepKeepsGood(run[i - 1], run[i], ops[i - 1]);
    }
  }

  /**
   * From an empty heap, across any mix of collections, allocations at fresh or
   * recycled addresses, patches, growths, definitions and assignments: lookup
   * along the parent chain of a live frame finds what the scoped maps bind.
   */
  lemma HeapLooksUpScopes(run: seq<State>, ops: seq<HeapOp>, i: nat, v: Value, k: nat)
    requires IsRun(run, ops) && i < |run| && IsFrame(run[i].g, v) && HasHeight(run[i].g, v)
    ensures var s := run[i];
      && v.addr in s.m.ids
      && var h := Holder(s.g, v, Sym(k));
      && (h.Some? ==> IsBindings(s.g[h.value]))
      && ScopedMaps.Find(s.scopes, s.m.ids[v.addr], k) ==
         if h.Some? then Terms.Some(s.m.meaning(ValueIn(s.g[h.value], Sym(k)))) else Terms.None
  {
    RunStaysGood(run, ops, i);
    var s := run[i];
    LookupIsMirrored(s.g, s.m, s.frames, v, k);
    ScopedMaps.LookupIsFind(s.frames, s.scopes, s.m.ids[v.addr], k);
  }
}
