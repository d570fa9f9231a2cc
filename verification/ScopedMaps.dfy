/**
 * Frame chains as scoped maps, over whole runs: parallel arrays, growth and
 * linear search implement finite maps with parent links.
 */
module ScopedMaps {
  import opened Terms
  import opened Frames

  datatype Scope = Scope(parent: Option<nat>, bindings: map<nat, Value>)

  // What can happen to the frames of a state.
  datatype EnvOp =
    | NewFrame(parent: Option<nat>)
    | Grow(e: nat)
    | DefineName(e: nat, name: nat, value: Value)
    | Assign(e: nat, name: nat, value: Value)

  // ---------------------------------------------------------------- frames

  // The frames after an operation; one on a frame that does not exist, or an
  // assignment to an unbound name, fails and changes nothing.
  function Apply(frames: seq<Frame>, op: EnvOp): seq<Frame> {
    match op
    case NewFrame(parent) =>
      if parent.Some? && parent.value >= |frames| then frames else frames + [EmptyFrame(parent)]
    case Grow(e) =>
      if e >= |frames| then frames else frames[e := frames[e].(capacity := Doubled(frames[e].capacity))]
    case DefineName(e, name, v) =>
      if e >= |frames| then frames else Define(frames, e, name, v)
    case Assign(e, name, v) =>
      if Set(frames, e, name, v).None? then frames else Set(frames, e, name, v).value
  }

  function ApplyAll(frames: seq<Frame>, ops: seq<EnvOp>): seq<Frame>
    decreases |ops|
  {
    if ops == [] then frames else ApplyAll(Apply(frames, ops[0]), ops[1..])
  }

  // ---------------------------------------------------------------- scopes

  // The innermost scope, from `e` outwards, that binds `name`.
  function Binder(scopes: seq<Scope>, e: nat, name: nat): (r: Option<nat>)
    ensures r.Some? ==> r.value < |scopes| && name in scopes[r.value].bindings
    decreases e
  {
    if e >= |scopes| then None
    else if name in scopes[e].bindings then Some(e)
    else if scopes[e].parent.Some? && scopes[e].parent.value < e then Binder(scopes, scopes[e].parent.value, name)
    else None
  }

  function Find(scopes: seq<Scope>, e: nat, name: nat): Option<Value> {
    var b := Binder(scopes, e, name);
    if b.Some? then Some(scopes[b.value].bindings[name]) else None
  }

  function Bind(scopes: seq<Scope>, e: nat, name: nat, v: Value): seq<Scope>
    requires e < |scopes|
  {
    scopes[e := scopes[e].(bindings := scopes[e].bindings[name := v])]
  }

  // Growth does not show.
  function Update(scopes: seq<Scope>, op: EnvOp): seq<Scope> {
    match op
    case NewFrame(parent) =>
      if parent.Some? && parent.value >= |scopes| then scopes else scopes + [Scope(parent, map[])]
    case Grow(_) => scopes
    case DefineName(e, name, v) => if e >= |scopes| then scopes else Bind(scopes, e, name, v)
    case Assign(e, name, v) =>
      var b := Binder(scopes, e, name);
      if b.None? then scopes else Bind(scopes, b.value, name, v)
  }

  function UpdateAll(scopes: seq<Scope>, ops: seq<EnvOp>): seq<Scope>
    decreases |ops|
  {
    if ops == [] then scopes else UpdateAll(Update(scopes, ops[0]), ops[1..])
  }

  // ---------------------------------------------------------------- refinement

  ghost function ScopeOf(f: Frame): Scope {
    Scope(f.parent, Bindings(f))
  }

  ghost predicate Implements(frames: seq<Frame>, scopes: seq<Scope>) {
    |frames| == |scopes| && forall e | 0 <= e < |frames| :: scopes[e] == ScopeOf(frames[e])
  }

  lemma {:induction false} HolderIsBinder(frames: seq<Frame>, scopes: seq<Scope>, e: nat, name: nat)
    requires Implements(frames, scopes)
    ensures Holder(frames, e, name) == Binder(scopes, e, name)
    decreases e
  {
    if e < |frames| {
      assert scopes[e] == ScopeOf(frames[e]);
      assert name in Bindings(frames[e]) <==> IndexOf(frames[e].names, name).Some?;
      if frames[e].parent.Some? && frames[e].parent.value < e {
        HolderIsBinder(frames, scopes, frames[e].parent.value, name);
      }
    }
  }

  /** What lookup finds along parallel arrays is what the scopes bind. */
  lemma LookupIsFind(frames: seq<Frame>, scopes: seq<Scope>, e: nat, name: nat)
    requires Implements(frames, scopes)
    ensures Lookup(frames, e, name) == Find(scopes, e, name)
  {
    HolderIsBinder(frames, scopes, e, name);
    var h := Holder(frames, e, name);
    if h.Some? {
      assert scopes[h.value] == ScopeOf(frames[h.value]);
    }
  }

  lemma DefineIsBind(frames: seq<Frame>, scopes: seq<Scope>, e: nat, name: nat, v: Value)
    requires Implements(frames, scopes) && e < |frames|
    ensures Implements(Define(frames, e, name, v), Bind(scopes, e, name, v))
  {
    DefineIsMapUpdate(frames[e], name, v);
    assert scopes[e] == ScopeOf(frames[e]);
  }

  lemma ApplyIsUpdate(frames: seq<Frame>, scopes: seq<Scope>, op: EnvOp)
    requires Implements(frames, scopes)
    ensures Implements(Apply(frames, op), Update(scopes, op))
  {
    match op
    case NewFrame(parent) =>
      assert Bindings(EmptyFrame(parent)) == map[];
    case Grow(e) =>
      if e < |frames| {
        assert scopes[e] == ScopeOf(frames[e]);
        var grown: Frame := frames[e].(capacity := Doubled(frames[e].capacity));
        assert Bindings(grown) == Bindings(frames[e]);
      }
    case DefineName(e, name, v) =>
      if e < |frames| {
        DefineIsBind(frames, scopes, e, name, v);
      }
    case Assign(e, name, v) =>
      HolderIsBinder(frames, scopes, e, name);
      var h := Holder(frames, e, name);
      if h.Some? {
        DefineIsBind(frames, scopes, h.value, name, v);
      }
  }

  lemma ApplyKeepsGood(frames: seq<Frame>, op: EnvOp)
    requires GoodFrames(frames)
    ensures GoodFrames(Apply(frames, op))
  {
    match op
    case NewFrame(parent) =>
      if parent.None? || parent.value < |frames| {
        AllocKeepsGood(frames, parent);
      }
    case Grow(e) =>
      if e < |frames| {
        assert GoodFrame(frames[e], e);
      }
    case DefineName(e, name, v) =>
      if e < |frames| {
        DefineKeepsGood(frames, e, name, v);
      }
    case Assign(e, name, v) =>
      var h := Holder(frames, e, name);
      if h.Some? {
        DefineKeepsGood(frames, h.value, name, v);
      }
  }

  /**
   * Across any mix of frame creations, growths, definitions and assignments:
   * names stay unique in every frame, arrays fit their capacities, parents stay
   * older than their children, and the frames implement the scopes that the same
   * operations give on maps.
   */
  lemma {:induction false} RunRefinesScopes(frames: seq<Frame>, scopes: seq<Scope>, ops: seq<EnvOp>)
    requires GoodFrames(frames) && Implements(frames, scopes)
    ensures GoodFrames(ApplyAll(frames, ops))
    ensures Implements(ApplyAll(frames, ops), UpdateAll(scopes, ops))
    decreases |ops|
  {
    if ops != [] {
      ApplyKeepsGood(frames, ops[0]);
      ApplyIsUpdate(frames, scopes, ops[0]);
      RunRefinesScopes(Apply(frames, ops[0]), Update(scopes, ops[0]), ops[1..]);
    }
  }

  /** From no frames at all, every lookup after any run finds what the scopes say. */
  lemma RunLooksUpScopes(ops: seq<EnvOp>, e: nat, name: nat)
    ensures Lookup(ApplyAll([], ops), e, name) == Find(UpdateAll([], ops), e, name)
  {
    RunRefinesScopes([], [], ops);
    LookupIsFind(ApplyAll([], ops), UpdateAll([], ops), e, name);
  }
}
