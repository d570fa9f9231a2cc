/**
 * Symbol interning: names get stable, unique indices.
 */
module Symbols {
  import opened Basics
  import opened Text

  const ENTRY_SIZE: nat := 16
  const MAX_INDEX: nat := 0x0FFF_FFFF

  ghost predicate Unique(names: seq<Bytes>) {
    forall i, j | 0 <= i < j < |names| :: names[i] != names[j]
  }

  // The table after interning `name`.
  function Interned(names: seq<Bytes>, name: Bytes): (r: seq<Bytes>)
    ensures names <= r && name in r
  {
    if name in names then names else names + [name]
  }

  // The table after interning each of `more` in turn.
  function InternAll(names: seq<Bytes>, more: seq<Bytes>): (r: seq<Bytes>)
    ensures names <= r
  {
    if more == [] then names else Interned(InternAll(names, more[..|more| - 1]), more[|more| - 1])
  }

  // The index of a name: where interning finds or puts it.
  function IndexOf(names: seq<Bytes>, name: Bytes): (i: nat)
    requires name in names
    ensures i < |names| && names[i] == name
  {
    if names[0] == name then 0 else 1 + IndexOf(names[1..], name)
  }

  lemma {:induction false} UniqueIndex(names: seq<Bytes>, i: nat)
    requires Unique(names) && i < |names|
    ensures IndexOf(names, names[i]) == i
  {
    var j := IndexOf(names, names[i]);
    assert names[j] == names[i];
  }

  lemma {:induction false} InterningKeepsUnique(names: seq<Bytes>, more: seq<Bytes>)
    requires Unique(names)
    ensures Unique(InternAll(names, more))
    ensures forall name | name in more :: name in InternAll(names, more)
  {
    if more != [] {
      InterningKeepsUnique(names, more[..|more| - 1]);
    }
  }

  lemma {:induction false} InternAllGrows(names: seq<Bytes>, more: seq<Bytes>, k: nat)
    requires k <= |more|
    ensures InternAll(names, more[..k]) <= InternAll(names, more)
    decreases |more|
  {
    if k == |more| {
      assert more[..k] == more;
    } else {
      var shorter := more[..|more| - 1];
      InternAllGrows(names, shorter, k);
      assert shorter[..k] == more[..k];
    }
  }

  /** The index a name got when it was interned is the one it has ever after. */
  lemma IndexIsStable(names: seq<Bytes>, more: seq<Bytes>, k: nat)
    requires Unique(names) && k < |more|
    ensures more[k] in InternAll(names, more[..k + 1]) && more[k] in InternAll(names, more)
    ensures IndexOf(InternAll(names, more[..k + 1]), more[k]) == IndexOf(InternAll(names, more), more[k])
  {
    var early, late := InternAll(names, more[..k + 1]), InternAll(names, more);
    assert more[..k + 1][k] == more[k];
    InterningKeepsUnique(names, more[..k + 1]);
    InterningKeepsUnique(names, more);
    InternAllGrows(names, more, k + 1);
    UniqueIndex(late, IndexOf(early, more[k]));
  }

  /** Two occurrences in a source get the same index exactly when they spell the same name. */
  lemma SameIndexSameName(names: seq<Bytes>, more: seq<Bytes>, i: nat, j: nat)
    requires Unique(names) && i < |more| && j < |more|
    ensures more[i] in InternAll(names, more[..i + 1]) && more[j] in InternAll(names, more[..j + 1])
    ensures IndexOf(InternAll(names, more[..i + 1]), more[i]) == IndexOf(InternAll(names, more[..j + 1]), more[j])
       <==> more[i] == more[j]
  {
    InterningKeepsUnique(names, more);
    assert more[i] in more && more[j] in more;
    IndexIsStable(names, more, i);
    IndexIsStable(names, more, j);
  }

  class SymbolTable {
    var entries: seq<Bytes>
    var capacity: nat
    ghost var refusals: nat    // requests refused, for memory or for an index past the ceiling

    ghost predicate Valid()
      reads `entries, `capacity
    {
      Unique(entries) && |entries| <= capacity && |entries| <= MAX_INDEX + 1
    }

    constructor ()
      ensures Valid() && entries == []
    {
      entries, capacity, refusals := [], 0, 0;
    }

    method RawAlloc(size: nat) returns (ok: bool)
      modifies `refusals
      ensures refusals == old(refusals) + if ok then 0 else 1
    {
      if * {
        ok := true;
      } else {
        ok := false;
        refusals := refusals + 1;
      }
    }

    // Doubles the table.
    method Grow() returns (ok: bool)
      requires |entries| <= capacity
      modifies `capacity, `refusals
      ensures refusals == old(refusals) + if ok then 0 else 1
      ensures if ok then |entries| < capacity else capacity == old(capacity)
    {
      var newCapacity := if capacity == 0 then 32 else capacity * 2;
      if newCapacity * ENTRY_SIZE > SIZE_MAX {
        refusals := refusals + 1;
        return false;
      }
      ok := RawAlloc(newCapacity * ENTRY_SIZE);
      if ok {
        capacity := newCapacity;
      }
    }

    // Finds or adds `name`; a table that knows the name never fails.
    method Intern(name: Bytes) returns (st: Status, idx: nat)
      requires Valid()
      modifies this
      ensures Valid()
      ensures st == OK || st == NoMem
      ensures st == OK ==> entries == Interned(old(entries), name) && idx == IndexOf(entries, name)
      ensures st == NoMem ==> entries == old(entries) && name !in entries
      ensures refusals == old(refusals) + if st == OK then 0 else 1
    {
      idx := 0;
      while idx < |entries|
        invariant idx <= |entries|
        invariant name !in entries[..idx]
        invariant entries == old(entries) && capacity == old(capacity) && refusals == old(refusals)
      {
        if entries[idx] == name {
          UniqueIndex(entries, idx);
          return OK, idx;
        }
        assert entries[..idx + 1] == entries[..idx] + [entries[idx]];
        idx := idx + 1;
      }
      assert entries[..idx] == entries;
      if |entries| == capacity {
        var grown := Grow();
        if !grown {
          return NoMem, idx;
        }
      }
      if |entries| > MAX_INDEX {
        refusals := refusals + 1;
        return NoMem, idx;
      }
      var owned := RawAlloc(|name| + 1);
      if !owned {
        return NoMem, idx;
      }
      entries := entries + [name];
      UniqueIndex(entries, idx);
      st := OK;
    }

    // ml_sym_intern as its callers see it: a missing name with a length is invalid.
    method InternChecked(missing: bool, name: Bytes) returns (st: Status, idx: nat)
      requires Valid()
      modifies this
      ensures Valid()
      ensures st == InvalidArg <==> missing && name != []
      ensures st == InvalidArg ==> entries == old(entries)
      ensures st == OK ==> entries == Interned(old(entries), name) && idx == IndexOf(entries, name)
      ensures st == NoMem ==> entries == old(entries) && name !in entries && refusals > old(refusals)
      ensures st == OK || st == NoMem || st == InvalidArg
    {
      if missing && |name| != 0 {
        return InvalidArg, 0;
      }
      st, idx := Intern(name);
    }

    // The name of a symbol, empty when the index is not in use.
    function Name(idx: nat): (name: Bytes)
      reads this
      ensures Valid() && idx < |entries| ==> name in entries && IndexOf(entries, name) == idx
      ensures idx >= |entries| ==> name == []
    {
      if idx < |entries| then
        assert Valid() ==> IndexOf(entries, entries[idx]) == idx by {
          if Valid() {
            UniqueIndex(entries, idx);
          }
        }
        entries[idx]
      else []
    }
  }
}
