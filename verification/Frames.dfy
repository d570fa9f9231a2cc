/**
 * Environment frames: parallel arrays of names and values with a parent link.
 */
module Frames {
  import opened Basics
  import opened Terms

  datatype FrameArrays = FrameArrays(parent: Option<nat>, names: seq<nat>, values: seq<Value>, capacity: nat)

  // The two arrays always run in parallel; their length is the frame's `count`.
  type Frame = f: FrameArrays | |f.names| == |f.values| witness FrameArrays(None, [], [], 0)

  function EmptyFrame(parent: Option<nat>): Frame {
    FrameArrays(parent, [], [], 0)
  }

  function IndexOf(names: seq<nat>, name: nat): (r: Option<nat>)
    ensures r.Some? ==> r.value < |names| && names[r.value] == name && name !in names[..r.value]
    ensures r.None? ==> name !in names
  {
    if names == [] then None
    else if names[0] == name then Some(0)
    else match IndexOf(names[1..], name) case None => None case Some(i) => Some(i + 1)
  }

  // The capacity after a growth step of env_grow.
  function Doubled(capacity: nat): nat {
    if capacity == 0 then 8 else capacity * 2
  }

  function DefineIn(f: Frame, name: nat, v: Value): Frame {
    match IndexOf(f.names, name)
    case Some(i) => f.(values := f.values[i := v])
    case None =>
      FrameArrays(f.parent, f.names + [name], f.values + [v],
                  if |f.names| == f.capacity then Doubled(f.capacity) else f.capacity)
  }

  // The frame that holds the innermost binding of `name` seen from `e`.  A parent
  // that is not older ends the chain like a non-frame does; GoodFrames rules it out.
  function Holder(frames: seq<Frame>, e: nat, name: nat): (r: Option<nat>)
    ensures r.Some? ==> r.value < |frames| && r.value <= e && IndexOf(frames[r.value].names, name).Some?
    decreases e
  {
    if e >= |frames| then None
    else if IndexOf(frames[e].names, name).Some? then Some(e)
    else
      match frames[e].parent
      case None => None
      case Some(p) => if p < e then Holder(frames, p, name) else None
  }

  function Lookup(frames: seq<Frame>, e: nat, name: nat): Option<Value> {
    match Holder(frames, e, name)
    case None => None
    case Some(h) => Some(frames[h].values[IndexOf(frames[h].names, name).value])
  }

  function Define(frames: seq<Frame>, e: nat, name: nat, v: Value): seq<Frame>
    requires e < |frames|
  {
    frames[e := DefineIn(frames[e], name, v)]
  }

  function Set(frames: seq<Frame>, e: nat, name: nat, v: Value): Option<seq<Frame>> {
    match Holder(frames, e, name)
    case None => None
    case Some(h) => Some(Define(frames, h, name, v))
  }

  ghost predicate Unique(names: seq<nat>) {
    forall i, j | 0 <= i < j < |names| :: names[i] != names[j]
  }

  ghost predicate GoodFrame(f: Frame, e: nat) {
    && Unique(f.names)
    && |f.names| <= f.capacity
    && (f.parent.Some? ==> f.parent.value < e)
  }

  // Names are unique per frame, the arrays fit, and parents are older: the chain is acyclic.
  ghost predicate GoodFrames(frames: seq<Frame>) {
    forall e | 0 <= e < |frames| :: GoodFrame(frames[e], e)
  }

  // ------------------------------------------------------------ the loops

  class EnvStore {
    var frames: seq<Frame>
    ghost var refusals: nat    // requests the allocator refused or that no allocator could meet

    constructor ()
      ensures frames == [] && refusals == 0
    {
      frames, refusals := [], 0;
    }

    // The embedder's allocator may refuse.
    method RawAlloc() returns (ok: bool)
      modifies `refusals
      ensures refusals == old(refusals) + if ok then 0 else 1
    {
      if * {
        return true;
      }
      refusals := refusals + 1;
      ok := false;
    }

    method AllocEnv(parent: Option<nat>) returns (st: Status, e: nat)
      modifies this
      ensures st == OK || st == NoMem
      ensures refusals == old(refusals) + if st == NoMem then 1 else 0
      ensures st == OK ==> e == old(|frames|) && frames == old(frames) + [EmptyFrame(parent)]
      ensures st == NoMem ==> frames == old(frames)
    {
      e := |frames|;
      var ok := RawAlloc();
      if !ok {
        return NoMem, e;
      }
      frames := frames + [EmptyFrame(parent)];
      st := OK;
    }

    method EnvGrow(e: nat) returns (st: Status)
      requires e < |frames|
      modifies this
      ensures st == OK || st == NoMem
      ensures refusals == old(refusals) + if st == NoMem then 1 else 0
      ensures st == OK ==> frames == old(frames)[e := old(frames)[e].(capacity := Doubled(old(frames)[e].capacity))]
      ensures st == NoMem ==> frames == old(frames)
    {
      var newCap := Doubled(frames[e].capacity);
      if newCap * 8 > SIZE_MAX {
        refusals := refusals + 1;
        return NoMem;
      }
      var ok := RawAlloc();
      if !ok {
        return NoMem;
      }
      ok := RawAlloc();
      if !ok {
        return NoMem;
      }
      frames := frames[e := frames[e].(capacity := newCap)];
      st := OK;
    }

    // Only a new name in a full frame asks for memory.
    method EnvDefine(e: nat, name: nat, value: Value) returns (st: Status)
      modifies this
      ensures e >= old(|frames|) ==> st == InvalidArg
      ensures e < old(|frames|) ==> st == OK || st == NoMem
      ensures refusals == old(refusals) + if st == NoMem then 1 else 0
      ensures st == NoMem ==> name !in old(frames)[e].names && |old(frames)[e].names| == old(frames)[e].capacity
      ensures st == OK ==> frames == Define(old(frames), e, name, value)
      ensures st != OK ==> frames == old(frames)
    {
      if e >= |frames| {
        return InvalidArg;
      }
      ghost var f := frames[e];
      for i := 0 to |frames[e].names|
        invariant frames == old(frames) && refusals == old(refusals)
        invariant name !in f.names[..i]
      {
        if frames[e].names[i] == name {
          FoundAt(f.names, name, i);
          frames := frames[e := frames[e].(values := frames[e].values[i := value])];
          return OK;
        }
      }
      assert f.names[..|f.names|] == f.names;
      if |frames[e].names| == frames[e].capacity {
        st := EnvGrow(e);
        if st != OK {
          return;
        }
      }
      var g := frames[e];
      frames := frames[e := FrameArrays(g.parent, g.names + [name], g.values + [value], g.capacity)];
      st := OK;
    }

    method EnvSet(e: nat, name: nat, value: Value) returns (st: Status)
      modifies `frames
      ensures st == if Set(old(frames), e, name, value).Some? then OK else Unbound
      ensures frames == if st == OK then Set(old(frames), e, name, value).value else old(frames)
    {
      var cur: Option<nat> := Some(e);
      while cur.Some? && cur.value < |frames|
        invariant frames == old(frames)
        invariant Holder(frames, e, name) == if cur.Some? then Holder(frames, cur.value, name) else None
        decreases if cur.Some? then cur.value + 1 else 0
      {
        var f := frames[cur.value];
        for i := 0 to |f.names|
          invariant frames == old(frames)
          invariant name !in f.names[..i]
        {
          if f.names[i] == name {
            FoundAt(f.names, name, i);
            frames := frames[cur.value := f.(values := f.values[i := value])];
            return OK;
          }
        }
        assert f.names[..|f.names|] == f.names;
        cur := if f.parent.Some? && f.parent.value < cur.value then f.parent else None;
      }
      st := Unbound;
    }

    method EnvLookup(e: nat, name: nat) returns (st: Status, v: Value)
      ensures st == if Lookup(frames, e, name).Some? then OK else Unbound
      ensures st == OK ==> v == Lookup(frames, e, name).value
    {
      v := Undef;
      var cur: Option<nat> := Some(e);
      while cur.Some? && cur.value < |frames|
        invariant Holder(frames, e, name) == if cur.Some? then Holder(frames, cur.value, name) else None
        decreases if cur.Some? then cur.value + 1 else 0
      {
        var f := frames[cur.value];
        for i := 0 to |f.names|
          invariant name !in f.names[..i]
        {
          if f.names[i] == name {
            FoundAt(f.names, name, i);
            return OK, f.values[i];
          }
        }
        assert f.names[..|f.names|] == f.names;
        cur := if f.parent.Some? && f.parent.value < cur.value then f.parent else None;
      }
      st := Unbound;
    }
  }

  lemma {:induction false} FoundAt(names: seq<nat>, name: nat, i: nat)
    requires i < |names| && names[i] == name && name !in names[..i]
    ensures IndexOf(names, name) == Some(i)
  {
    if i > 0 {
      assert names[..i][0] == names[0];
      assert names[1..][..i - 1] == names[..i][1..];
      FoundAt(names[1..], name, i - 1);
    }
  }

  // ------------------------------------------------------------ frames as maps

  // A frame as a finite map.
  ghost function Bindings(f: Frame): map<nat, Value> {
    map name | name in f.names :: f.values[IndexOf(f.names, name).value]
  }

  lemma {:induction false} IndexOfAppend(names: seq<nat>, last: nat, name: nat)
    ensures IndexOf(names + [last], name) ==
            if IndexOf(names, name).Some? then IndexOf(names, name)
            else if name == last then Some(|names|) else None
  {
    if names != [] {
      assert (names + [last])[1..] == names[1..] + [last];
      IndexOfAppend(names[1..], last, name);
    } else {
      assert names + [last] == [last];
      assert [last][1..] == [];
    }
  }

  lemma IndexAfterDefine(f: Frame, name: nat, v: Value, m: nat)
    ensures IndexOf(DefineIn(f, name, v).names, m) ==
            if IndexOf(f.names, m).Some? then IndexOf(f.names, m)
            else if m == name then Some(|f.names|) else None
  {
    IndexOfAppend(f.names, name, m);
  }

  /** Defining a name is updating the frame's map at that name, grown or not. */
  lemma DefineIsMapUpdate(f: Frame, name: nat, v: Value)
    ensures Bindings(DefineIn(f, name, v)) == Bindings(f)[name := v]
  {
    var f' := DefineIn(f, name, v);
    forall m: nat ensures m in f'.names <==> m in f.names || m == name {
      IndexAfterDefine(f, name, v, m);
    }
    forall m | m in f'.names ensures Bindings(f')[m] == Bindings(f)[name := v][m] {
      IndexAfterDefine(f, name, v, m);
      IndexAfterDefine(f, name, v, name);
      if m != name {
        DistinctIndices(f'.names, m, name);
      }
    }
  }

  /** Names stay unique, the arrays fit their capacity and chains stay acyclic. */
  lemma DefineKeepsGood(frames: seq<Frame>, e: nat, name: nat, v: Value)
    requires GoodFrames(frames) && e < |frames|
    ensures GoodFrames(Define(frames, e, name, v))
  {
    assert GoodFrame(frames[e], e);
    assert GoodFrame(DefineIn(frames[e], name, v), e);
  }

  lemma AllocKeepsGood(frames: seq<Frame>, parent: Option<nat>)
    requires GoodFrames(frames) && (parent.Some? ==> parent.value < |frames|)
    ensures GoodFrames(frames + [EmptyFrame(parent)])
  {
  }

  // A new frame is out of sight of the older ones.
  lemma {:induction false} HolderAppend(frames: seq<Frame>, f: Frame, e: nat, name: nat)
    requires e < |frames|
    ensures Holder(frames + [f], e, name) == Holder(frames, e, name)
    decreases e
  {
    if frames[e].parent.Some? && frames[e].parent.value < e {
      HolderAppend(frames, f, frames[e].parent.value, name);
    }
  }

  // How a definition changes what every environment can see.
  lemma {:induction false} HolderAfterDefine(frames: seq<Frame>, e: nat, name: nat, v: Value, e2: nat, m: nat)
    requires e < |frames|
    ensures m != name || IndexOf(frames[e].names, name).Some? ==>
              Holder(Define(frames, e, name, v), e2, m) == Holder(frames, e2, m)
    decreases e2
  {
    IndexAfterDefine(frames[e], name, v, m);
    if e2 < |frames| && frames[e2].parent.Some? && frames[e2].parent.value < e2 {
      HolderAfterDefine(frames, e, name, v, frames[e2].parent.value, m);
    }
  }

  /** ml_env_define makes the name visible in its frame and touches no other name anywhere. */
  lemma DefineAffectsOneName(frames: seq<Frame>, e: nat, name: nat, v: Value, e2: nat, m: nat)
    requires e < |frames|
    ensures Lookup(Define(frames, e, name, v), e, name) == Some(v)
    ensures m != name ==> Lookup(Define(frames, e, name, v), e2, m) == Lookup(frames, e2, m)
  {
    IndexAfterDefine(frames[e], name, v, name);
    HolderAfterDefine(frames, e, name, v, e2, m);
    var h := Holder(frames, e2, m);
    if m != name && h == Some(e) {
      IndexAfterDefine(frames[e], name, v, m);
      DistinctIndices(DefineIn(frames[e], name, v).names, m, name);
    }
  }

  /** ml_env_set changes exactly the binding that lookup would find, seen from every environment. */
  lemma SetChangesTheVisibleBinding(frames: seq<Frame>, e: nat, name: nat, v: Value, e2: nat, m: nat)
    ensures Set(frames, e, name, v).Some? <==> Lookup(frames, e, name).Some?
    ensures Set(frames, e, name, v).Some? ==>
      Lookup(Set(frames, e, name, v).value, e2, m) ==
      if m == name && Holder(frames, e2, m) == Holder(frames, e, name) then Some(v) else Lookup(frames, e2, m)
  {
    if Holder(frames, e, name).Some? {
      var h := Holder(frames, e, name).value;
      HolderAfterDefine(frames, h, name, v, e2, m);
      if Holder(frames, e2, m) == Some(h) {
        DistinctIndices(frames[h].names, name, m);
      }
    }
  }

  lemma DistinctIndices(names: seq<nat>, a: nat, b: nat)
    requires IndexOf(names, a).Some? && IndexOf(names, b).Some?
    ensures IndexOf(names, a) == IndexOf(names, b) <==> a == b
  {
  }
}
