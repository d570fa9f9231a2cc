/**
 * Environment frames in the collected heap: growth, definition, assignment and
 * lookup along the parent chain, and how they implement the frames of `Frames`.
 */
module EnvHeap {
  import opened Basics
  import opened Graph
  import opened Gc
  import opened Unfolding
  import Frames
  import Terms

  // ---------------------------------------------------------------- frames and chains

  // The first slot that holds `name`.
  function Position(names: seq<Value>, name: Value): (r: Terms.Option<nat>)
    ensures r.Some? ==> r.value < |names| && names[r.value] == name && name !in names[..r.value]
    ensures r.None? ==> name !in names
  {
    if names == [] then Terms.None
    else if names[0] == name then Terms.Some(0)
    else
      var r := Position(names[1..], name);
      if r.Some? then Terms.Some(r.value + 1) else Terms.None
  }

  lemma {:induction false} PositionAt(names: seq<Value>, name: Value, i: nat)
    requires i < |names| && names[i] == name && name !in names[..i]
    ensures Position(names, name) == Terms.Some(i)
  {
    if i > 0 {
      assert names[..i][0] == names[0];
      assert names[1..][..i - 1] == names[..i][1..];
      PositionAt(names[1..], name, i - 1);
    }
  }

  predicate IsBindings(o: Object) {
    o.Env? && |o.names| == |o.values| <= o.capacity
  }

  // The frame after binding `name`: the value replaced, or both arrays extended.
  function Bound(o: Object, name: Value, value: Value): (r: Object)
    requires IsBindings(o)
    ensures r.Env? && r.parent == o.parent && o.names <= r.names
  {
    var p := Position(o.names, name);
    if p.Some? then Env(o.parent, o.names, o.values[p.value := value], o.capacity)
    else
      Env(o.parent, o.names + [name], o.values + [value],
          if |o.names| == o.capacity then Frames.Doubled(o.capacity) else o.capacity)
  }

  // The innermost frame from `v` outwards that binds `name`.
  ghost function HolderWithin(g: ObjectMap, v: Value, name: Value, n: nat): (r: Terms.Option<Addr>)
    requires Climbs(g, v, n)
    ensures r.Some? ==> r.value in g && g[r.value].Env? && Position(g[r.value].names, name).Some?
    decreases n
  {
    if !IsFrame(g, v) then Terms.None
    else if Position(g[v.addr].names, name).Some? then Terms.Some(v.addr)
    else HolderWithin(g, g[v.addr].parent, name, n - 1)
  }

  lemma {:induction false} HolderIsUnique(g: ObjectMap, v: Value, name: Value, n: nat, m: nat)
    requires Climbs(g, v, n) && Climbs(g, v, m)
    ensures HolderWithin(g, v, name, n) == HolderWithin(g, v, name, m)
    decreases n
  {
    if IsFrame(g, v) && Position(g[v.addr].names, name).None? {
      HolderIsUnique(g, g[v.addr].parent, name, n - 1, m - 1);
    }
  }

  ghost function Holder(g: ObjectMap, v: Value, name: Value): (r: Terms.Option<Addr>)
    requires HasHeight(g, v)
    ensures r.Some? ==> r.value in g && g[r.value].Env? && Position(g[r.value].names, name).Some?
  {
    var n: nat :| Climbs(g, v, n);
    HolderWithin(g, v, name, n)
  }

  lemma HolderUnfolds(g: ObjectMap, v: Value, name: Value)
    requires HasHeight(g, v)
    ensures IsFrame(g, v) ==> HasHeight(g, g[v.addr].parent)
    ensures Holder(g, v, name) ==
            if !IsFrame(g, v) then Terms.None
            else if Position(g[v.addr].names, name).Some? then Terms.Some(v.addr)
            else Holder(g, g[v.addr].parent, name)
  {
    var n: nat :| Climbs(g, v, n);
    HolderAnyHeight(g, v, name, n);
    if IsFrame(g, v) {
      HolderAnyHeight(g, g[v.addr].parent, name, n - 1);
    }
  }

  lemma HolderAnyHeight(g: ObjectMap, v: Value, name: Value, n: nat)
    requires Climbs(g, v, n)
    ensures HasHeight(g, v) && Holder(g, v, name) == HolderWithin(g, v, name, n)
  {
    forall m: nat | Climbs(g, v, m) ensures HolderWithin(g, v, name, m) == HolderWithin(g, v, name, n) {
      HolderIsUnique(g, v, name, n, m);
    }
  }

  // What the holder binds `name` to.
  function ValueIn(o: Object, name: Value): (v: Value)
    requires IsBindings(o) && Position(o.names, name).Some?
    ensures v in o.values
  {
    o.values[Position(o.names, name).value]
  }

  lemma FrameFits(g: ObjectMap, a: Addr)
    requires Closed(g) && a in g && g[a].Env?
    ensures IsBindings(g[a]) && Pointers(g[a].names + g[a].values) <= g.Keys
    ensures InHeap(g, g[a].parent)
    ensures forall v | v in g[a].values :: InHeap(g, v)
  {
    assert WellFormed(g[a]) && Refs(g[a]) <= g.Keys;
    forall v | v in Children(g[a]) ensures InHeap(g, v) {
      assert IsPointer(v) ==> v.addr in Refs(g[a]);
    }
    assert forall v | v in g[a].names + g[a].values :: v in Children(g[a]);
  }

  // ---------------------------------------------------------------- the operations

  // Everything of the heap but the contents of frames, and the requests refused.
  twostate predicate OnlyFrames(heap: Heap)
    reads heap
  {
    && heap.Valid() && heap.mem.Keys == old(heap.mem.Keys)
    && heap.toplevel == old(heap.toplevel) && heap.protect == old(heap.protect)
  }

  // The scan of one frame's names.
  method FindName(names: seq<Value>, name: Value) returns (found: bool, i: nat)
    ensures Position(names, name) == if found then Terms.Some(i) else Terms.None
  {
    i := 0;
    while i < |names|
      invariant i <= |names| && name !in names[..i]
    {
      if names[i] == name {
        PositionAt(names, name, i);
        return true, i;
      }
      i := i + 1;
    }
    assert names[..|names|] == names;
    found := false;
  }

  // values[i] = value
  method Replace(heap: Heap, e: Addr, i: nat, value: Value, ghost name: Value)
    requires heap.Valid() && e in heap.mem && IsBindings(heap.mem[e].obj) && InHeap(heap.Objs(), value)
    requires Position(heap.mem[e].obj.names, name) == Terms.Some(i)
    modifies heap`mem
    ensures OnlyFrames(heap)
    ensures heap.Objs() == old(heap.Objs())[e := Bound(old(heap.Objs())[e], name, value)]
  {
    var o := heap.mem[e].obj;
    FrameFits(heap.Objs(), e);
    heap.SetBindings(e, o.names, o.values[i := value], o.capacity);
  }

  // The pair of stores behind the last binding, in a frame that has room.
  method Append(heap: Heap, e: Addr, name: Value, value: Value)
    requires heap.Valid() && e in heap.mem && IsBindings(heap.mem[e].obj) && InHeap(heap.Objs(), value) && name.Sym?
    requires |heap.mem[e].obj.names| < heap.mem[e].obj.capacity
    modifies heap`mem
    ensures OnlyFrames(heap)
    ensures var o := old(heap.Objs())[e];
      heap.Objs() == old(heap.Objs())[e := Env(o.parent, o.names + [name], o.values + [value], o.capacity)]
  {
    var o := heap.mem[e].obj;
    FrameFits(heap.Objs(), e);
    heap.SetBindings(e, o.names + [name], o.values + [value], o.capacity);
  }

  // Two fresh arrays of twice the capacity, the bindings copied.
  method EnvGrow(heap: Heap, e: Addr) returns (st: Status)
    requires heap.Valid() && e in heap.mem && heap.mem[e].obj.Env?
    modifies heap`mem, heap`refusals
    ensures OnlyFrames(heap)
    ensures st == OK || st == NoMem
    ensures heap.refusals == old(heap.refusals) + if st == NoMem then 1 else 0
    ensures heap.Objs() == if st == NoMem then old(heap.Objs())
                           else var o := old(heap.Objs())[e];
                                old(heap.Objs())[e := o.(capacity := Frames.Doubled(o.capacity))]
  {
    var o := heap.mem[e].obj;
    var newCap := Frames.Doubled(o.capacity);
    if newCap * POINTER_SIZE > SIZE_MAX {
      heap.refusals := heap.refusals + 1;
      return NoMem;
    }
    var granted := heap.RawAlloc(newCap * POINTER_SIZE);
    if granted {
      granted := heap.RawAlloc(newCap * POINTER_SIZE);
    }
    if !granted {
      return NoMem;
    }
    FrameFits(heap.Objs(), e);
    heap.SetBindings(e, o.names, o.values, newCap);
    st := OK;
  }

  // A new name, in larger arrays where these are full.
  method AddBinding(heap: Heap, e: Addr, name: Value, value: Value) returns (st: Status)
    requires heap.Valid() && e in heap.mem && IsBindings(heap.mem[e].obj) && InHeap(heap.Objs(), value) && name.Sym?
    requires Position(heap.mem[e].obj.names, name).None?
    modifies heap`mem, heap`refusals
    ensures OnlyFrames(heap)
    ensures st == OK || st == NoMem
    ensures heap.refusals == old(heap.refusals) + if st == NoMem then 1 else 0
    ensures st == NoMem ==> |old(heap.mem)[e].obj.names| == old(heap.mem)[e].obj.capacity
    ensures heap.Objs() == if st == NoMem then old(heap.Objs())
                           else old(heap.Objs())[e := Bound(old(heap.Objs())[e], name, value)]
  {
    hide Heap.Valid;
    st := OK;
    if |heap.mem[e].obj.names| == heap.mem[e].obj.capacity {
      st := EnvGrow(heap, e);
    }
    if st == OK {
      assert heap.Objs()[e].capacity > |heap.Objs()[e].names|;
      Append(heap, e, name, value);
    }
  }

  /** ml_env_define: only a new name in a full frame asks for memory. */
  method EnvDefine(heap: Heap, env: Value, name: Value, value: Value) returns (st: Status)
    requires heap.Valid() && InHeap(heap.Objs(), env) && InHeap(heap.Objs(), value)
    modifies heap`mem, heap`refusals
    ensures OnlyFrames(heap)
    ensures heap.refusals == old(heap.refusals) + if st == NoMem then 1 else 0
    ensures (!IsFrame(old(heap.Objs()), env) || !name.Sym?) <==> st == InvalidArg
    ensures st == OK ==>
      var o := old(heap.Objs())[env.addr];
      IsBindings(o) && heap.Objs() == old(heap.Objs())[env.addr := Bound(o, name, value)]
    ensures st != OK ==> heap.Objs() == old(heap.Objs())
    ensures st == OK || st == InvalidArg || st == NoMem
    ensures st == NoMem ==>
      var o := old(heap.Objs())[env.addr];
      Position(o.names, name).None? && |o.names| == o.capacity
  {
    if !env.Ref? || env.addr == 0 || !heap.mem[env.addr].obj.Env? || !name.Sym? {
      return InvalidArg;
    }
    hide Bound;
    var e := env.addr;
    FrameFits(heap.Objs(), e);
    var o := heap.mem[e].obj;
    var found, i := FindName(o.names, name);
    if found {
      Replace(heap, e, i, value, name);
      return OK;
    }
    st := AddBinding(heap, e, name, value);
  }

  /** ml_env_set: the walk needs no bound, the chain of a valid heap ends. */
  method EnvSet(heap: Heap, env: Value, name: Value, value: Value) returns (st: Status)
    requires heap.Valid() && InHeap(heap.Objs(), env) && InHeap(heap.Objs(), value)
    modifies heap`mem
    ensures OnlyFrames(heap)
    ensures HasHeight(old(heap.Objs()), env)
    ensures var h := Holder(old(heap.Objs()), env, name);
      if !name.Sym? then st == InvalidArg && heap.Objs() == old(heap.Objs())
      else if h.None? then st == Unbound && heap.Objs() == old(heap.Objs())
      else
        var o := old(heap.Objs())[h.value];
        st == OK && IsBindings(o) && heap.Objs() == old(heap.Objs())[h.value := Bound(o, name, value)]
  {
    ValueHasTree(heap.Objs(), env);
    if !name.Sym? {
      return InvalidArg;
    }
    ghost var n: nat :| Climbs(heap.Objs(), env, n);
    var cur := env;
    while cur.Ref? && cur.addr != 0 && heap.mem[cur.addr].obj.Env?
      invariant heap.mem == old(heap.mem) && OnlyFrames(heap)
      invariant InHeap(heap.Objs(), cur) && Climbs(heap.Objs(), cur, n)
      invariant Holder(heap.Objs(), cur, name) == Holder(heap.Objs(), env, name)
      decreases n
    {
      HolderUnfolds(heap.Objs(), cur, name);
      FrameFits(heap.Objs(), cur.addr);
      var o := heap.mem[cur.addr].obj;
      var found, i := FindName(o.names, name);
      if found {
        Replace(heap, cur.addr, i, value, name);
        return OK;
      }
      cur, n := o.parent, n - 1;
    }
    HolderUnfolds(heap.Objs(), cur, name);
    st := Unbound;
  }

  /** ml_env_lookup. */
  method EnvLookup(heap: Heap, env: Value, name: Value) returns (st: Status, v: Value)
    requires heap.Valid() && InHeap(heap.Objs(), env)
    ensures HasHeight(heap.Objs(), env)
    ensures var h := Holder(heap.Objs(), env, name);
      if !name.Sym? then st == InvalidArg
      else if h.None? then st == Unbound
      else
        var o := heap.Objs()[h.value];
        st == OK && IsBindings(o) && v == ValueIn(o, name) && InHeap(heap.Objs(), v)
  {
    v := Undef;
    ValueHasTree(heap.Objs(), env);
    if !name.Sym? {
      return InvalidArg, v;
    }
    ghost var n: nat :| Climbs(heap.Objs(), env, n);
    var cur := env;
    while cur.Ref? && cur.addr != 0 && heap.mem[cur.addr].obj.Env?
      invariant InHeap(heap.Objs(), cur) && Climbs(heap.Objs(), cur, n)
      invariant Holder(heap.Objs(), cur, name) == Holder(heap.Objs(), env, name)
      decreases n
    {
      HolderUnfolds(heap.Objs(), cur, name);
      FrameFits(heap.Objs(), cur.addr);
      var o := heap.mem[cur.addr].obj;
      var found, i := FindName(o.names, name);
      if found {
        return OK, o.values[i];
      }
      cur, n := o.parent, n - 1;
    }
    HolderUnfolds(heap.Objs(), cur, name);
    st := Unbound;
  }
}
