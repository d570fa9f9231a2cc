/**
 * The printer: a recursive walk over heap values that writes chunks into a
 * growable buffer.
 */
module Printer {
  import opened Basics
  import opened Graph
  import opened Memory
  import opened Gc
  import opened Symbols
  import opened Unfolding
  import Text

  // ---------------------------------------------------------------- the buffer

  class PrintBuf {
    var bytes: array?<Byte>
    var len: nat
    var cap: nat

    ghost var text: Text.Bytes    // everything written
    ghost var refusals: nat       // requests refused, or too large to be made

    // There is always room for a terminating NUL once anything was written.
    ghost predicate Valid()
      reads this, bytes
    {
      if bytes == null then len == 0 && cap == 0 && text == []
      else len < cap == bytes.Length && text == bytes[..len]
    }

    // The buffer is the old one or was allocated since.
    twostate predicate Owned()
      reads this
    {
      bytes == old(bytes) || fresh(bytes)
    }

    constructor ()
      ensures Valid() && text == [] && bytes == null && refusals == 0
    {
      bytes, len, cap, text, refusals := null, 0, 0, [], 0;
    }

    method RawAlloc(size: nat) returns (ok: bool)
      modifies `refusals
      ensures refusals == old(refusals) + if ok then 0 else 1
    {
      if * {
        ok := true;
      } else {
        ok := false;
        refusals := refusals + 1;
      }
    }

    // The buffer is the old one or was allocated since, and the status is NOMEM
    // exactly when a request was refused.
    twostate predicate Wrote(st: Status)
      reads this
    {
      Owned() && refusals == old(refusals) + if st == NoMem then 1 else 0
    }

    // Doubles the capacity until `need` bytes fit.
    method Reserve(need: nat) returns (st: Status)
      requires Valid() && len < need <= SIZE_MAX
      modifies this
      ensures Valid() && Wrote(st) && len == old(len)
      ensures st == OK || st == NoMem
      ensures st == OK ==> cap >= need && bytes != null
      ensures text == old(text)
    {
      if need > cap {
        var newCap := if cap == 0 then 64 else cap;
        while newCap < need
          invariant newCap > 0
          decreases need - newCap
        {
          if newCap * 2 > SIZE_MAX {
            refusals := refusals + 1;
            return NoMem;
          }
          newCap := newCap * 2;
        }
        var granted := RawAlloc(newCap);
        if !granted {
          return NoMem;
        }
        var grown := new Byte[newCap](_ => 0);
        if bytes != null {
          forall i | 0 <= i < len {
            grown[i] := bytes[i];
          }
          assert grown[..len] == bytes[..len];
        }
        bytes := grown;
        cap := newCap;
      }
      st := OK;
    }

    // The sink: after any sequence of chunks the buffer holds their concatenation.
    method Sink(chunk: Text.Bytes) returns (st: Status)
      requires Valid()
      modifies this, bytes
      ensures Valid() && Wrote(st)
      ensures st == OK || st == NoMem
      ensures st == OK ==> bytes != null
      ensures text == if st == OK then old(text) + chunk else old(text)
    {
      if |chunk| > SIZE_MAX - len - 1 {
        refusals := refusals + 1;
        return NoMem;
      }
      st := Reserve(len + |chunk| + 1);
      if st == OK {
        forall i | 0 <= i < |chunk| {
          bytes[len + i] := chunk[i];
        }
        len := len + |chunk|;
        text := text + chunk;
      }
    }

    // Empty chunks do not reach the sink.
    method Emit(chunk: Text.Bytes) returns (st: Status)
      requires Valid()
      modifies this, bytes
      ensures Valid() && Wrote(st)
      ensures st == OK || st == NoMem
      ensures text == if st == OK then old(text) + chunk else old(text)
    {
      if |chunk| == 0 {
        return OK;
      }
      st := Sink(chunk);
    }

    // Makes room for the NUL if nothing was ever written, and puts it.
    method Terminate() returns (st: Status)
      requires Valid()
      modifies this, bytes
      ensures Valid() && Wrote(st) && len == old(len)
      ensures st == OK || st == NoMem
      ensures st == OK ==> bytes != null && bytes[len] == 0 && bytes[..len] == text == old(text)
      ensures st == NoMem ==> old(cap) == 0
    {
      if cap == 0 {
        var granted := RawAlloc(1);
        if !granted {
          return NoMem;
        }
        bytes, cap := new Byte[1](_ => 0), 1;
      }
      bytes[len] := 0;
      st := OK;
    }
  }

  // ---------------------------------------------------------------- strings

  ghost function EscapedUpTo(bytes: Text.Bytes, i: nat): Text.Bytes
    requires i <= |bytes|
  {
    Text.Escape(bytes[..i])
  }

  ghost predicate PlainRun(bytes: Text.Bytes, i: nat, j: nat) {
    i <= j <= |bytes| && forall k | i <= k < j :: !Text.NeedsEscape(bytes[k])
  }

  lemma {:induction false} PlainRunIsItself(bytes: Text.Bytes, i: nat, j: nat)
    requires PlainRun(bytes, i, j)
    ensures EscapedUpTo(bytes, j) == EscapedUpTo(bytes, i) + bytes[i..j]
    decreases j
  {
    if i < j {
      PlainRunIsItself(bytes, i, j - 1);
      EscapeNext(bytes, j - 1);
      assert bytes[i..j] == bytes[i..j - 1] + [bytes[j - 1]];
      Text.Regroup(EscapedUpTo(bytes, i), bytes[i..j - 1], [bytes[j - 1]]);
    }
  }

  lemma EscapeNext(bytes: Text.Bytes, i: nat)
    requires i < |bytes|
    ensures EscapedUpTo(bytes, i + 1) == EscapedUpTo(bytes, i) + Text.EscapeByte(bytes[i])
  {
    assert bytes[..i + 1][..i] == bytes[..i];
  }

  // The text written is `prefix` and the first `i` bytes, escaped.
  ghost predicate Escaped(text: Text.Bytes, prefix: Text.Bytes, bytes: Text.Bytes, i: int) {
    0 <= i <= |bytes| && text == prefix + EscapedUpTo(bytes, i)
  }

  lemma NothingEscaped(prefix: Text.Bytes, bytes: Text.Bytes)
    ensures PlainRun(bytes, 0, 0) && Escaped(prefix, prefix, bytes, 0)
  {
  }

  lemma QuotedIsEscaped(before: Text.Bytes, bytes: Text.Bytes)
    ensures before + [Text.DOUBLE_QUOTE] + EscapedUpTo(bytes, |bytes|) + [Text.DOUBLE_QUOTE]
         == before + Text.QuotedString(bytes)
  {
    assert bytes[..|bytes|] == bytes;
    Text.Regroup(before + [Text.DOUBLE_QUOTE], Text.Escape(bytes), [Text.DOUBLE_QUOTE]);
    Text.Regroup(before, [Text.DOUBLE_QUOTE], Text.Escape(bytes) + [Text.DOUBLE_QUOTE]);
    Text.Regroup([Text.DOUBLE_QUOTE], Text.Escape(bytes), [Text.DOUBLE_QUOTE]);
  }

  // Writes out the plain bytes seen since the last escape.
  method FlushRun(buf: PrintBuf, bytes: Text.Bytes, run: nat, i: nat, ghost prefix: Text.Bytes) returns (st: Status)
    requires buf.Valid() && run <= i && PlainRun(bytes, i - run, i)
    requires Escaped(buf.text, prefix, bytes, i - run)
    modifies buf, buf.bytes
    ensures buf.Valid() && buf.Wrote(st)
    ensures st == OK || st == NoMem
    ensures st == OK ==> Escaped(buf.text, prefix, bytes, i)
  {
    PlainRunIsItself(bytes, i - run, i);
    Text.Regroup(prefix, EscapedUpTo(bytes, i - run), bytes[i - run..i]);
    st := OK;
    if run > 0 {
      st := buf.Emit(bytes[i - run..i]);
    }
  }

  method EmitEscape(buf: PrintBuf, bytes: Text.Bytes, i: nat, ghost prefix: Text.Bytes) returns (st: Status)
    requires buf.Valid() && i < |bytes|
    requires Escaped(buf.text, prefix, bytes, i)
    modifies buf, buf.bytes
    ensures buf.Valid() && buf.Wrote(st)
    ensures st == OK || st == NoMem
    ensures st == OK ==> Escaped(buf.text, prefix, bytes, i + 1)
  {
    EscapeNext(bytes, i);
    Text.Regroup(prefix, EscapedUpTo(bytes, i), Text.EscapeByte(bytes[i]));
    st := buf.Emit(Text.EscapeByte(bytes[i]));
  }

  // One byte: it ends the run or joins it.
  method EmitByte(buf: PrintBuf, bytes: Text.Bytes, run: nat, i: nat, ghost prefix: Text.Bytes) returns (st: Status,
                  newRun: nat)
    requires buf.Valid() && run <= i < |bytes| && PlainRun(bytes, i - run, i)
    requires Escaped(buf.text, prefix, bytes, i - run)
    modifies buf, buf.bytes
    ensures buf.Valid() && buf.Wrote(st) && newRun <= i + 1 && PlainRun(bytes, i + 1 - newRun, i + 1)
    ensures st == OK || st == NoMem
    ensures st == OK ==> Escaped(buf.text, prefix, bytes, i + 1 - newRun)
  {
    if !Text.NeedsEscape(bytes[i]) {
      return OK, run + 1;
    }
    newRun := 0;
    st := FlushRun(buf, bytes, run, i, prefix);
    if st == OK {
      st := EmitEscape(buf, bytes, i, prefix);
    }
  }

  // The bytes of a string literal: runs of plain bytes go out as one chunk each.
  method EmitRuns(buf: PrintBuf, bytes: Text.Bytes) returns (st: Status)
    requires buf.Valid()
    modifies buf, buf.bytes
    ensures buf.Valid() && buf.Wrote(st)
    ensures st == OK || st == NoMem
    ensures st == OK ==> Escaped(buf.text, old(buf.text), bytes, |bytes|)
  {
    hide PrintBuf.Valid, Escaped, PlainRun, EscapedUpTo;
    ghost var prefix := buf.text;
    var i: nat, run: nat := 0, 0;
    st := OK;
    NothingEscaped(prefix, bytes);
    while st == OK && i < |bytes|
      invariant i <= |bytes|
      invariant run <= i && PlainRun(bytes, i - run, i)
      invariant buf.Valid() && buf.Wrote(st)
      invariant st == OK || st == NoMem
      invariant st == OK ==> Escaped(buf.text, prefix, bytes, i - run)
    {
      st, run := EmitByte(buf, bytes, run, i, prefix);
      i := i + 1;
    }
    if st == OK {
      st := FlushRun(buf, bytes, run, i, prefix);
    }
  }

  // However the runs fall, the text is that of escaping byte by byte.
  method EmitStringQuoted(buf: PrintBuf, bytes: Text.Bytes) returns (st: Status)
    requires buf.Valid()
    modifies buf, buf.bytes
    ensures buf.Valid() && buf.Wrote(st)
    ensures st == OK || st == NoMem
    ensures st == OK ==> buf.text == old(buf.text) + Text.QuotedString(bytes)
  {
    QuotedIsEscaped(buf.text, bytes);
    st := buf.Emit([Text.DOUBLE_QUOTE]);
    if st == OK {
      st := EmitRuns(buf, bytes);
    }
    if st == OK {
      st := buf.Emit([Text.DOUBLE_QUOTE]);
    }
  }

  // ---------------------------------------------------------------- the walk

  // The text and height of a list from its first element on.
  ghost function ListText(d: Text.Datum, write: bool): Text.Bytes
    requires d.Pair?
  {
    Text.Render(d.car, write) + Text.RenderTail(d.cdr, write)
  }

  ghost function ListHeight(d: Text.Datum): nat
    requires d.Pair?
  {
    Text.Max(Text.PrintHeight(d.car), Text.TailHeight(d.cdr))
  }

  lemma PairText(before: Text.Bytes, d: Text.Datum, write: bool)
    requires d.Pair?
    ensures before + [Text.LPAREN] + ListText(d, write) == before + Text.Render(d, write)
    ensures Text.PrintHeight(d) == 1 + ListHeight(d)
  {
    Text.Regroup([Text.LPAREN], Text.Render(d.car, write), Text.RenderTail(d.cdr, write));
    Text.Regroup(before, [Text.LPAREN], Text.Render(d.car, write) + Text.RenderTail(d.cdr, write));
  }

  lemma ElementText(before: Text.Bytes, d: Text.Datum, write: bool)
    requires d.Pair?
    ensures before + [Text.SPACE] + Text.Render(d.car, write) + Text.RenderTail(d.cdr, write)
         == before + Text.RenderTail(d, write)
  {
    Text.Regroup(before, [Text.SPACE], Text.Render(d.car, write));
    Text.Regroup(before, [Text.SPACE] + Text.Render(d.car, write), Text.RenderTail(d.cdr, write));
  }

  lemma EndText(before: Text.Bytes, d: Text.Datum, write: bool)
    requires !d.Nil? && !d.Pair?
    ensures before + [Text.SPACE, Text.DOT, Text.SPACE] + Text.Render(d, write) + [Text.RPAREN]
         == before + Text.RenderTail(d, write)
  {
    Text.Regroup(before, [Text.SPACE, Text.DOT, Text.SPACE], Text.Render(d, write));
    Text.Regroup(before, [Text.SPACE, Text.DOT, Text.SPACE] + Text.Render(d, write), [Text.RPAREN]);
  }

  lemma NilTail(write: bool)
    ensures Text.RenderTail(Text.Nil, write) == [Text.RPAREN] && Text.TailHeight(Text.Nil) == 0
  {
  }

  // The walk only reads the heap, so it sees memory and symbol names as values.
  class Printer {
    var depth: nat    // print_depth
    const max: nat    // max_print_depth
    const mem: Mem
    const names: Names

    constructor (mem: Mem, names: Names, max: nat)
      ensures this.mem == mem && this.names == names && this.max == max && depth == 0
    {
      this.mem, this.names, this.max, depth := mem, names, max, 0;
    }

    ghost predicate Tree(v: Value, d: Text.Datum) {
      Builds(Objects(mem), names, v, d, {})
    }

    predicate IsPair(v: Value) {
      v.Ref? && v.addr != 0 && v.addr in mem && mem[v.addr].obj.Pair?
    }

    // What printing appends, and when the depth limit stops it.
    ghost predicate Outcome(st: Status, after: Text.Bytes, expected: Text.Bytes, height: nat)
      reads this
    {
      && (st == OK || st == NoMem || st == PrintDepth)
      && (st == OK ==> after == expected && depth + height <= max)
      && (st == PrintDepth ==> depth + height > max)
    }

    /** Prints exactly the text of the value's tree, unless the buffer or the depth gives out. */
    method PrintValue(v: Value, write: bool, buf: PrintBuf, ghost d: Text.Datum) returns (st: Status)
      requires buf.Valid() && Tree(v, d)
      modifies `depth, buf, buf.bytes
      ensures buf.Valid() && buf.Wrote(st) && depth == old(depth)
      ensures Outcome(st, buf.text, old(buf.text) + Text.Render(d, write), Text.PrintHeight(d))
      decreases d, 3
    {
      if depth >= max {
        return PrintDepth;
      }
      depth := depth + 1;
      st := PrintValueInner(v, write, buf, d);
      depth := depth - 1;
    }

    method PrintValueInner(v: Value, write: bool, buf: PrintBuf, ghost d: Text.Datum) returns (st: Status)
      requires buf.Valid() && Tree(v, d) && 0 < depth <= max
      modifies `depth, buf, buf.bytes
      ensures buf.Valid() && buf.Wrote(st) && depth == old(depth)
      ensures Outcome(st, buf.text, old(buf.text) + Text.Render(d, write), Text.PrintHeight(d) - 1)
      decreases d, 2
    {
      match v
      case Fix(n) => st := buf.Emit(Text.Decimal(n));
      case Nil => st := buf.Emit([Text.LPAREN, Text.RPAREN]);
      case True => st := buf.Emit([Text.HASH, Text.LETTER_T]);
      case False => st := buf.Emit([Text.HASH, Text.LETTER_F]);
      case Eof => st := PrintMark(Text.EofMark, write, buf, d);
      case Undef => st := PrintMark(Text.UndefinedMark, write, buf, d);
      case Sym(idx) => st := buf.Emit(if idx < |names| then names[idx] else []);
      case Ref(a) =>
        if a == 0 {
          st := PrintMark(Text.Unknown, write, buf, d);
        } else {
          st := PrintObject(a, write, buf, d);
        }
    }

    // What has no read syntax prints as a fixed mark, or a primitive's cut-off name.
    method PrintMark(kind: Text.Kind, write: bool, buf: PrintBuf, ghost d: Text.Datum) returns (st: Status)
      requires buf.Valid() && d == Text.Opaque(kind) && 0 < depth <= max
      modifies buf, buf.bytes
      ensures buf.Valid() && buf.Wrote(st)
      ensures Outcome(st, buf.text, old(buf.text) + Text.Render(d, write), Text.PrintHeight(d) - 1)
    {
      st := buf.Emit(Text.KindText(kind));
    }

    method PrintObject(a: Addr, write: bool, buf: PrintBuf, ghost d: Text.Datum) returns (st: Status)
      requires buf.Valid() && a != 0 && Tree(Ref(a), d) && 0 < depth <= max
      modifies `depth, buf, buf.bytes
      ensures buf.Valid() && buf.Wrote(st) && depth == old(depth)
      ensures Outcome(st, buf.text, old(buf.text) + Text.Render(d, write), Text.PrintHeight(d) - 1)
      decreases d, 1
    {
      match mem[a].obj
      case Str(bytes) =>
        assert d == Text.Str(bytes);
        if write {
          st := EmitStringQuoted(buf, bytes);
        } else {
          st := buf.Emit(bytes);
        }
      case Pair(car, cdr) => st := PrintPair(car, cdr, write, buf, d);
      case Prim(name, _, _) => st := PrintMark(Text.Primitive(name), write, buf, d);
      case Closure(_, _, _, _, _) => st := PrintMark(Text.Procedure, write, buf, d);
      case Env(_, _, _, _) => st := PrintMark(Text.Environment, write, buf, d);
    }

    method PrintPair(car: Value, cdr: Value, write: bool, buf: PrintBuf, ghost d: Text.Datum) returns (st: Status)
      requires buf.Valid() && d.Pair? && Tree(car, d.car) && Tree(cdr, d.cdr) && 0 < depth <= max
      modifies `depth, buf, buf.bytes
      ensures buf.Valid() && buf.Wrote(st) && depth == old(depth)
      ensures Outcome(st, buf.text, old(buf.text) + Text.Render(d, write), Text.PrintHeight(d) - 1)
      decreases d, 0, 2
    {
      PairText(buf.text, d, write);
      st := buf.Emit([Text.LPAREN]);
      if st == OK {
        st := PrintPairContents(car, cdr, write, buf, d, ListText(d, write), ListHeight(d));
      }
      if st == OK {
        st := buf.Emit([Text.RPAREN]);
      }
    }

    // The walk of a list in the middle: of `text`, only what follows from `tail`
    // is missing, and the depth suffices for the whole if it does for the tail.
    ghost predicate Midway(st: Status, now: Text.Bytes, tail: Text.Datum, write: bool, text: Text.Bytes, height: nat)
      reads this
    {
      && (st == OK || st == NoMem || st == PrintDepth)
      && (st == OK ==> now + Text.RenderTail(tail, write) == text)
      && (st == OK ==> (depth + height <= max <==> depth + Text.TailHeight(tail) <= max))
      && (st == PrintDepth ==> depth + height > max)
    }

    // Everything between the parentheses.
    method PrintPairContents(car: Value, cdr: Value, write: bool, buf: PrintBuf, ghost d: Text.Datum,
                             ghost text: Text.Bytes, ghost height: nat) returns (st: Status)
      requires buf.Valid() && d.Pair? && Tree(car, d.car) && Tree(cdr, d.cdr) && 0 < depth <= max
      requires text == ListText(d, write) && height == ListHeight(d)
      modifies `depth, buf, buf.bytes
      ensures buf.Valid() && buf.Wrote(st) && depth == old(depth)
      ensures Outcome(st, buf.text + [Text.RPAREN], old(buf.text) + text, height)
      decreases d, 0, 1
    {
      hide Text.Render, Text.PrintHeight, Text.RenderTail, Text.TailHeight;
      ghost var before, tail := buf.text, d.cdr;
      NilTail(write);
      Text.Regroup(before, Text.Render(d.car, write), Text.RenderTail(d.cdr, write));
      var rest := cdr;
      st := PrintValue(car, write, buf, d.car);
      while st == OK && IsPair(rest)
        invariant buf.Valid() && buf.Wrote(st) && depth == old(depth)
        invariant Tree(rest, tail) && tail < d
        invariant Midway(st, buf.text, tail, write, before + text, height)
        decreases tail
      {
        st := PrintElement(rest, write, buf, tail, before + text, height);
        rest, tail := mem[rest.addr].obj.cdr, tail.cdr;
      }
      if st == OK && !rest.Nil? {
        st := PrintEnd(rest, write, buf, tail, before + text, height);
      }
    }

    method PrintElement(cell: Value, write: bool, buf: PrintBuf, ghost tail: Text.Datum, ghost text: Text.Bytes,
                        ghost height: nat) returns (st: Status)
      requires buf.Valid() && IsPair(cell) && Tree(cell, tail) && tail.Pair? && 0 < depth <= max
      requires Midway(OK, buf.text, tail, write, text, height)
      modifies `depth, buf, buf.bytes
      ensures buf.Valid() && buf.Wrote(st) && depth == old(depth)
      ensures Midway(st, buf.text, tail.cdr, write, text, height)
      decreases tail, 0, 0
    {
      ElementText(buf.text, tail, write);
      st := buf.Emit([Text.SPACE]);
      if st == OK {
        st := PrintValue(mem[cell.addr].obj.car, write, buf, tail.car);
      }
    }

    method PrintEnd(v: Value, write: bool, buf: PrintBuf, ghost tail: Text.Datum, ghost text: Text.Bytes,
                    ghost height: nat) returns (st: Status)
      requires buf.Valid() && Tree(v, tail) && !tail.Nil? && !tail.Pair? && 0 < depth <= max
      requires Midway(OK, buf.text, tail, write, text, height)
      modifies `depth, buf, buf.bytes
      ensures buf.Valid() && buf.Wrote(st) && depth == old(depth)
      ensures Outcome(st, buf.text + [Text.RPAREN], text, height)
      decreases tail, 4
    {
      EndText(buf.text, tail, write);
      st := buf.Emit([Text.SPACE, Text.DOT, Text.SPACE]);
      if st == OK {
        st := PrintValue(v, write, buf, tail);
      }
    }
  }

  /**
   * Prints a value of a valid heap into a fresh, NUL-terminated buffer: the
   * text of the one tree `d` it unfolds to.
   */
  method PrintToAlloc(heap: Heap, table: SymbolTable, max: nat, v: Value, write: bool)
    returns (st: Status, out: array?<Byte>, len: nat, ghost d: Text.Datum, ghost refusals: nat)
    requires heap.Valid() && InHeap(heap.Objs(), v)
    ensures Builds(heap.Objs(), table.entries, v, d, {})
    ensures st == OK || st == NoMem || st == PrintDepth
    ensures st == OK ==> Text.PrintHeight(d) <= max
    ensures st == OK ==> out != null && len < out.Length && out[..len] == Text.Render(d, write) && out[len] == 0
    ensures st == PrintDepth ==> Text.PrintHeight(d) > max
    ensures refusals == if st == NoMem then 1 else 0
  {
    ValueHasTree(heap.Objs(), v);
    ghost var tree :| Builds(heap.Objs(), [], v, tree, {});
    d := TreeWithNames(heap.Objs(), table.entries, v, tree, {});
    out, len := null, 0;
    var printer := new Printer(heap.mem, table.entries, max);
    var buf := new PrintBuf();
    st := printer.PrintValue(v, write, buf, d);
    if st == OK {
      st := buf.Terminate();
    }
    if st == OK {
      out, len := buf.bytes, buf.len;
    }
    refusals := buf.refusals;
  }
}
