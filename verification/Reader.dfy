/**
 * The reader: a byte cursor, one method per kind of token, and lists built in
 * the heap while the collector may run at every allocation.
 */
module Reader {
  import opened Basics
  import opened Graph
  import opened Gc
  import opened Symbols
  import opened Unfolding
  import opened Inflight
  import opened RoundTrip
  import Grammar
  import Layout
  import Text

  // Bytes as the reader sees them: -1 past the end.
  predicate IsTerminator(c: int) {
    c < 0 || (c < 256 && Text.IsTerminator(c))
  }

  predicate IsDigit(c: int) {
    Text.ZERO <= c <= Text.NINE
  }

  function HexDigit(c: int): (h: int)
    ensures h == if 0 <= c < 256 then Grammar.HexValue(c) else -1
  {
    if IsDigit(c) then c - Text.ZERO
    else if 97 <= c <= 102 then 10 + c - 97
    else if 65 <= c <= 70 then 10 + c - 65
    else -1
  }

  // Heap, symbols and roots when a read was entered, and the requests refused by then.
  datatype Entry = Entry(g: ObjectMap, names: Names, toplevel: Value, protect: seq<Value>, refusals: nat) {
    ghost function Roots(): set<Addr> {
      Pointers([toplevel] + protect)
    }

    ghost function Live(): set<Addr> {
      Reach(g, Roots())
    }
  }

  class Reader {
    const input: Text.Bytes
    var pos: nat
    var depth: nat
    const max: nat            // max_read_depth
    const heap: Heap
    const table: SymbolTable
    const quoteSym: nat       // sym_quote

    constructor (input: Text.Bytes, max: nat, heap: Heap, table: SymbolTable, quoteSym: nat)
      requires heap.Valid() && table.Valid()
      requires quoteSym < |table.entries| && table.entries[quoteSym] == Grammar.QUOTE_NAME
      ensures Ready() && pos == 0 && depth == 0
      ensures this.input == input && this.max == max && this.heap == heap && this.table == table
    {
      this.input, this.max, this.heap, this.table, this.quoteSym := input, max, heap, table, quoteSym;
      pos, depth := 0, 0;
    }

    ghost predicate Ready()
      reads this, heap, table
    {
      && pos <= |input|
      && depth <= max
      && heap.Valid()
      && table.Valid()
      && quoteSym < |table.entries|
      && table.entries[quoteSym] == Grammar.QUOTE_NAME
    }

    // The unread input.
    ghost function Rest(): Text.Bytes
      reads this
    {
      if pos <= |input| then input[pos..] else []
    }

    // Requests refused so far.
    ghost function Refusals(): nat
      reads heap, table
    {
      heap.refusals + table.refusals
    }

    ghost function Here(): Entry
      reads heap, table
    {
      Entry(heap.Objs(), table.entries, heap.toplevel, heap.protect, Refusals())
    }

    // Since the entry `e`, everything rooted there is as it was, and names were only added.
    ghost predicate Since(e: Entry)
      reads heap, table
    {
      && heap.toplevel == e.toplevel
      && e.names <= table.entries
      && Refusals() >= e.refusals
      && Retained(e.g, heap.Objs(), e.Roots())
    }

    // What every read keeps, however it ends; the protect stack included.
    ghost predicate Kept(e: Entry)
      reads heap, table
    {
      Since(e) && heap.protect == e.protect
    }

    // Out of memory: some request since the entry was refused.
    ghost predicate Refused(e: Entry, st: Status)
      reads heap, table
    {
      st == NoMem && Refusals() > e.refusals
    }

    // The status and value of a read entered at `e` against the grammar's
    // answer; the value shares no cell with what was reachable there.
    ghost predicate Answers(st: Status, out: Value, r: Grammar.Reading, depth0: nat, e: Entry)
      reads this, heap, table
    {
      && (st == OK ==> !r.Failed? && (r.AtEnd? ==> out.Eof? && Rest() == [] && depth == depth0))
      && (st == OK && r.Read? ==>
            && Rest() == r.rest
            && depth == depth0
            && Readable(r.d)
            && Builds(heap.Objs(), table.entries, out, r.d, e.Live()))
      && (st != OK ==> Refused(e, st) || r == Grammar.Failed(st))
    }

    // ---------------------------------------------------------------- cursor

    function Peek(): (c: int)
      reads `pos
    {
      if pos >= |input| then -1 else input[pos]
    }

    method Advance() returns (c: int)
      requires pos <= |input|
      modifies `pos
      ensures c == old(Peek())
      ensures pos == (if old(pos) < |input| then old(pos) + 1 else old(pos)) && pos <= |input|
      ensures Rest() == if old(Rest()) == [] then [] else old(Rest())[1..]
    {
      if pos >= |input| {
        return -1;
      }
      c := input[pos];
      pos := pos + 1;
    }

    method SkipLine()
      requires pos <= |input|
      modifies `pos
      ensures old(pos) <= pos <= |input|
      ensures Rest() == Grammar.SkipLine(old(Rest()))
    {
      while Peek() >= 0 && Peek() != Text.NEWLINE
        invariant old(pos) <= pos <= |input|
        invariant Grammar.SkipLine(Rest()) == Grammar.SkipLine(old(Rest()))
        decreases |input| - pos
      {
        var c := Advance();
      }
    }

    method SkipSpace()
      requires pos <= |input|
      modifies `pos
      ensures old(pos) <= pos <= |input|
      ensures Rest() == Grammar.SkipSpace(old(Rest()))
      ensures Layout.Skips(old(Rest()), Rest())
    {
      Layout.SkipSpaceSkips(Rest());
      while Peek() >= 0 && (Text.IsSpace(Peek()) || Peek() == Text.SEMICOLON)
        invariant old(pos) <= pos <= |input|
        invariant Grammar.SkipSpace(Rest()) == Grammar.SkipSpace(old(Rest()))
        decreases |input| - pos
      {
        if Text.IsSpace(Peek()) {
          var c := Advance();
        } else {
          ghost var t := Rest();
          assert Grammar.SkipLine(t) == Grammar.SkipLine(t[1..]);
          assert |Grammar.SkipLine(t[1..])| <= |t[1..]|;
          SkipLine();
        }
      }
    }

    // ---------------------------------------------------------------- atoms

    lemma HeapIsClosed()
      requires heap.Valid()
      ensures Closed(heap.Objs()) && heap.Roots() <= heap.Objs().Keys
    {
    }

    // What a read that leaves the heap alone keeps.
    lemma KeptTrivially()
      ensures Kept(Here())
    {
    }

    method ReadEscape() returns (st: Status, c: Byte)
      requires pos <= |input|
      modifies `pos
      ensures old(pos) <= pos <= |input| && st != NoMem
      ensures Grammar.ReadEscape(old(Rest())) == if st == OK then Grammar.Scanned(c, Rest()) else Grammar.Bad(st)
    {
      c := 0;
      var escape := Advance();
      if escape < 0 {
        return ReadTruncated, c;
      }
      if escape == Text.LETTER_N {
        return OK, Text.NEWLINE;
      } else if escape == Text.LETTER_T {
        return OK, Text.TAB;
      } else if escape == Text.LETTER_R {
        return OK, Text.RETURN;
      } else if escape == Text.ZERO {
        return OK, 0;
      } else if escape == Text.DOUBLE_QUOTE {
        return OK, Text.DOUBLE_QUOTE;
      } else if escape == Text.BACKSLASH {
        return OK, Text.BACKSLASH;
      } else if escape == Text.LETTER_X {
        var high := Advance();
        var low := Advance();
        var h1, h2 := HexDigit(high), HexDigit(low);
        if h1 < 0 || h2 < 0 {
          return ReadSyntax, c;
        }
        return OK, h1 * 16 + h2;
      }
      return ReadSyntax, c;
    }

    // Makes room in the scratch buffer; doubling it may fail.
    method GrowScratch(len: nat, cap: nat) returns (st: Status, newCap: nat)
      requires len <= cap && cap > 0
      modifies heap`refusals
      ensures st == OK || st == NoMem
      ensures st == OK ==> len < newCap
      ensures heap.refusals == old(heap.refusals) + if st == OK then 0 else 1
    {
      if len < cap {
        return OK, cap;
      }
      newCap := cap * 2;
      if newCap > SIZE_MAX {
        heap.refusals := heap.refusals + 1;
        return NoMem, newCap;
      }
      var granted := heap.RawAlloc(newCap);
      st := if granted then OK else NoMem;
    }

    // The bytes of a string literal up to and with the closing quote.
    method ScanString() returns (st: Status, bytes: Text.Bytes)
      requires pos <= |input|
      modifies `pos, heap`refusals
      ensures old(pos) <= pos <= |input|
      ensures heap.refusals == old(heap.refusals) + if st == NoMem then 1 else 0
      ensures st == OK ==> Grammar.ReadString(old(Rest()), []) == Grammar.Read(Text.Str(bytes), Rest())
      ensures st != OK ==> st == NoMem || Grammar.ReadString(old(Rest()), []) == Grammar.Failed(st)
    {
      bytes := [];
      var cap := 32;
      var granted := heap.RawAlloc(cap);
      if !granted {
        return NoMem, bytes;
      }
      st := OK;
      while Peek() != Text.DOUBLE_QUOTE
        invariant old(pos) <= pos <= |input| && |bytes| <= cap && cap > 0 && st == OK
        invariant heap.refusals == old(heap.refusals)
        invariant Grammar.ReadString(Rest(), bytes) == Grammar.ReadString(old(Rest()), [])
        decreases |input| - pos
      {
        if Peek() < 0 {
          return ReadTruncated, bytes;
        }
        var c;
        st, c := ScanChar();
        if st != OK {
          return st, bytes;
        }
        st, cap := GrowScratch(|bytes|, cap);
        if st != OK {
          return st, bytes;
        }
        bytes := bytes + [c];
      }
      var c := Advance();
    }

    // One byte of a string literal, escaped or not.
    method ScanChar() returns (st: Status, c: Byte)
      requires pos < |input|
      modifies `pos
      ensures old(pos) < pos <= |input| && st != NoMem
      ensures Grammar.ReadChar(old(Rest())) == if st == OK then Grammar.Scanned(c, Rest()) else Grammar.Bad(st)
    {
      var first := Advance();
      st, c := OK, first;
      if first == Text.BACKSLASH {
        st, c := ReadEscape();
      }
    }

    method ReadString() returns (st: Status, out: Value)
      requires Ready() && Peek() == Text.DOUBLE_QUOTE
      modifies `pos, heap
      ensures Ready() && Kept(old(Here()))
      ensures Answers(st, out, Grammar.ReadAtom(old(Rest())), old(depth), old(Here()))
    {
      hide Heap.Valid, Builds, Grammar.ReadString;
      out := Undef;
      var c := Advance();
      var bytes;
      st, bytes := ScanString();
      assert Ready() && Kept(old(Here()));
      if st == OK {
        st, out := KeepString(bytes);
      }
    }

    // The scanned bytes as a string in the heap.
    method KeepString(bytes: Text.Bytes) returns (st: Status, out: Value)
      requires Ready()
      modifies heap
      ensures Ready() && Kept(old(Here()))
      ensures st == OK || Refused(old(Here()), st)
      ensures st == OK ==> Builds(heap.Objs(), table.entries, out, Text.Str(bytes), old(Here()).Live())
    {
      st, out := heap.AllocString(bytes);
    }

    method ReadHash() returns (st: Status, out: Value)
      requires pos < |input| && input[pos] == Text.HASH
      modifies `pos
      ensures old(pos) <= pos <= |input|
      ensures st == OK ==>
        (Grammar.ReadAtom(old(Rest())) == Grammar.Read(if out.True? then Text.True else Text.False, Rest())
         && (out.True? || out.False?))
      ensures st != OK ==> Grammar.ReadAtom(old(Rest())) == Grammar.Failed(st)
    {
      ghost var t := Rest()[1..];
      var c := Advance();
      c := Advance();
      var next := Peek();
      assert t != [] ==> t[1..] == Rest() && t[0] == c;
      if c == Text.LETTER_T && IsTerminator(next) {
        return OK, True;
      }
      if c == Text.LETTER_F && IsTerminator(next) {
        return OK, False;
      }
      return ReadSyntax, Undef;
    }

    // Accumulates digits in 64 bits; an overflow consumes the remaining ones.
    method ScanDigits() returns (st: Status, value: int)
      requires pos <= |input|
      modifies `pos
      ensures old(pos) <= pos <= |input|
      ensures st == OK || st == Overflow
      ensures st == OK ==> Grammar.ScanDigits(old(Rest()), 0) == Grammar.Scanned(value, Rest()) && FitsInt64(-value)
      ensures st != OK ==> Grammar.ScanDigits(old(Rest()), 0) == Grammar.Bad(st)
      ensures st != OK ==> old(Rest()) != [] && IsDigit(old(Rest())[0])
      ensures st == OK ==> (pos == old(pos) <==> old(Rest()) == [] || !IsDigit(old(Rest())[0]))
    {
      ghost var t := Rest();
      value, st := 0, OK;
      while IsDigit(Peek())
        invariant old(pos) <= pos <= |input| && 0 <= value <= INT64_MAX
        invariant pos > old(pos) ==> t != [] && IsDigit(t[0])
        invariant Grammar.ScanDigits(Rest(), value) == Grammar.ScanDigits(t, 0)
        decreases |input| - pos
      {
        var digit := Peek() - Text.ZERO;
        var c := Advance();
        if !FitsInt64(value * 10) || !FitsInt64(value * 10 + digit) {
          SkipDigits();
          return Overflow, value;
        }
        value := value * 10 + digit;
      }
    }

    method ReadNumber(negative: bool) returns (st: Status, out: Value)
      requires pos <= |input|
      modifies `pos
      ensures old(pos) <= pos <= |input|
      ensures st == OK ==>
        out.Fix? && Grammar.ReadNumber(old(Rest()), negative) == Grammar.Read(Text.Fix(out.n), Rest())
      ensures st != OK ==> Grammar.ReadNumber(old(Rest()), negative) == Grammar.Failed(st)
    {
      out := Undef;
      var start := pos;
      var value;
      st, value := ScanDigits();
      if st != OK {
        return st, out;
      }
      if pos == start {
        return ReadSyntax, out;
      }
      if !IsTerminator(Peek()) {
        return ReadSyntax, out;
      }
      if negative {
        value := -value;
      }
      if value < FIX_MIN || value > FIX_MAX {
        return Overflow, out;
      }
      return OK, Fix(value);
    }

    method SkipDigits()
      requires pos <= |input|
      modifies `pos
      ensures old(pos) <= pos <= |input|
    {
      while IsDigit(Peek())
        invariant old(pos) <= pos <= |input|
        decreases |input| - pos
      {
        var c := Advance();
      }
    }

    // Moves to the end of the token.
    method ScanToken()
      requires pos <= |input|
      modifies `pos
      ensures old(pos) <= pos <= |input|
      ensures pos == old(pos) + Grammar.TokenLength(old(Rest()))
    {
      ghost var t := Rest();
      while !IsTerminator(Peek())
        invariant old(pos) <= pos <= |input|
        invariant Grammar.TokenLength(t) == pos - old(pos) + Grammar.TokenLength(Rest())
        decreases |input| - pos
      {
        var c := Advance();
      }
    }

    lemma TokenScanned(t: Text.Bytes, start: nat, end: nat)
      requires start <= end <= |t|
      ensures t[start..end] == t[start..][..end - start] && t[end..] == t[start..][end - start..]
    {
    }

    method ReadSymbol() returns (st: Status, out: Value)
      requires Ready() && Rest() != [] && Readable(Grammar.ReadSymbol(Rest()).d)
      modifies `pos, table
      ensures Ready() && Kept(old(Here()))
      ensures Answers(st, out, Grammar.ReadSymbol(old(Rest())), old(depth), old(Here()))
    {
      hide Heap.Valid, Readable, Closed, Retained;
      var start := pos;
      KeptTrivially();
      ScanToken();
      TokenScanned(input, start, pos);
      var idx;
      st, idx := table.Intern(input[start..pos]);
      out := Sym(idx);
    }

    // The dispatch of read_form on anything but lists and quotations.
    method ReadAtom() returns (st: Status, out: Value)
      requires Ready() && Rest() != [] && (Text.IsTerminator(Rest()[0]) ==> Rest()[0] == Text.DOUBLE_QUOTE)
      modifies `pos, heap, table
      ensures Ready() && Kept(old(Here()))
      ensures Answers(st, out, Grammar.ReadAtom(old(Rest())), old(depth), old(Here()))
    {
      hide Heap.Valid;
      KeptTrivially();
      AtomIsReadable(Rest());
      ghost var t := Rest();
      var c := Peek();
      if c == Text.DOUBLE_QUOTE {
        st, out := ReadString();
      } else if c == Text.HASH {
        st, out := ReadHash();
      } else if IsDigit(c) {
        st, out := ReadNumber(false);
      } else if (c == Text.PLUS || c == Text.MINUS) && pos + 1 < |input| && Text.IsDigit(input[pos + 1]) {
        var sign := Advance();
        st, out := ReadNumber(sign == Text.MINUS);
      } else {
        st, out := ReadSymbol();
      }
    }

    // ---------------------------------------------------------------- forms

    // One form, whatever collections happen on the way: the grammar's datum in
    // fresh cells, everything rooted before untouched.
    method ReadForm() returns (st: Status, out: Value)
      requires Ready()
      modifies `pos, `depth, heap, table
      ensures Ready() && Kept(old(Here()))
      ensures Answers(st, out, Grammar.ReadForm(old(Rest()), old(depth), max), old(depth), old(Here()))
      decreases |input| - pos, 2
    {
      hide Heap.Valid, Builds;
      KeptTrivially();
      SkipSpace();
      var c := Peek();
      if c < 0 {
        return OK, Eof;
      }
      if c == Text.LPAREN {
        c := Advance();
        st, out := ReadList();
      } else if c == Text.RPAREN {
        st, out := ReadSyntax, Undef;
      } else if c == Text.QUOTE_MARK {
        st, out := ReadQuote();
      } else {
        st, out := ReadAtom();
      }
    }

    lemma QuoteUnfolds(t: Text.Bytes, depth: nat, max: nat)
      ensures var form := Grammar.ReadForm(t, depth, max);
              var r := Grammar.ReadQuote(t, depth, max);
              && (form.Failed? ==> r == form)
              && (form.AtEnd? ==> r == Grammar.Failed(ReadTruncated))
              && (form.Read? ==> r == Grammar.Read(Grammar.Quoted(form.d), form.rest))
              && (form.Read? && Readable(form.d) ==> Readable(r.d))
    {
      hide Grammar.SkipSpace, Grammar.ReadAtom, Grammar.ReadList;
      var form := Grammar.ReadForm(t, depth, max);
      if form.Read? && Readable(form.d) {
        QuotedIsReadable(form.d);
      }
    }

    lemma QuotedIsReadable(d: Text.Datum)
      requires Readable(d)
      ensures Readable(Grammar.Quoted(d))
    {
      assert ReadableSymbol(Grammar.QUOTE_NAME);
    }

    // Only the end of input is reported by the end-of-file mark.
    lemma AtomsAreNotEof(r: Grammar.Reading, g: ObjectMap, names: Names, v: Value, avoid: set<Addr>)
      requires r.Read? ==> Readable(r.d) && Builds(g, names, v, r.d, avoid)
      ensures r.Read? ==> !v.Eof?
    {
    }

    method ReadQuote() returns (st: Status, out: Value)
      requires Ready() && Peek() == Text.QUOTE_MARK
      modifies `pos, `depth, heap, table
      ensures Ready() && Kept(old(Here()))
      ensures Answers(st, out, Grammar.ReadQuote(old(Rest())[1..], old(depth), max), old(depth), old(Here()))
      decreases |input| - pos, 1
    {
      ghost var e := Here();
      var c := Advance();
      ghost var r := Grammar.ReadForm(Rest(), depth, max);
      QuoteUnfolds(Rest(), depth, max);
      var form;
      st, form := ReadForm();
      if st != OK {
        return st, Undef;
      }
      AtomsAreNotEof(r, heap.Objs(), table.entries, form, e.Live());
      if form.Eof? {
        return ReadTruncated, Undef;
      }
      st, out := BuildQuote(form, r.d, e);
    }

    // (quote form): two conses, each with what it needs on the protect stack.
    method BuildQuote(form: Value, ghost d: Text.Datum, ghost e: Entry) returns (st: Status, out: Value)
      requires Ready() && Kept(e) && Closed(e.g) && e.Roots() <= e.g.Keys
      requires Builds(heap.Objs(), table.entries, form, d, e.Live()) && Readable(d)
      modifies heap
      ensures Ready() && Kept(e)
      ensures st == OK || Refused(e, st)
      ensures st == OK ==> Builds(heap.Objs(), table.entries, out, Grammar.Quoted(d), e.Live())
    {
      hide Builds, Heap.Valid, Allocated;
      out := Undef;
      ghost var g, more := heap.Objs(), e.Roots() + Pointers([form]);
      HeapIsClosed();
      BuiltIsInHeap(g, table.entries, form, d, e.Live());
      assert Live(form, Reach(g, more)) by {
        if IsPointer(form) {
          RootIsReachable(g, more, form.addr);
        }
      }
      var inner;
      st, inner := heap.ConsProtected(form, Nil);
      if st != OK {
        RetainedTransitive(e.g, g, heap.Objs(), e.Roots(), e.Roots());
        return st, out;
      }
      ConsBuilds(e.g, g, heap.Objs(), e.Roots(), more, table.entries, form, d, Nil, Text.Nil, inner.addr);
      st, out := ConsQuote(inner, Text.Pair(d, Text.Nil), e);
    }

    method ConsQuote(inner: Value, ghost d: Text.Datum, ghost e: Entry) returns (st: Status, out: Value)
      requires Ready() && Kept(e) && Closed(e.g) && e.Roots() <= e.g.Keys
      requires Builds(heap.Objs(), table.entries, inner, d, e.Live())
      modifies heap
      ensures Ready() && Kept(e)
      ensures st == OK || Refused(e, st)
      ensures st == OK ==>
        Builds(heap.Objs(), table.entries, out, Text.Pair(Text.Sym(Grammar.QUOTE_NAME), d), e.Live())
    {
      out := Undef;
      st := heap.Protect(inner);
      if st != OK {
        return st, out;
      }
      ghost var g, roots := heap.Objs(), heap.Roots();
      RootAdded(g, heap.toplevel, e.protect, inner);
      LiveFields(Sym(quoteSym), inner, Reach(g, roots));
      st, out := ConsSymbol(inner);
      if st == OK {
        ConsBuilds(e.g, g, heap.Objs(), e.Roots(), roots, table.entries, Sym(quoteSym), Text.Sym(Grammar.QUOTE_NAME),
                   inner, d, out.addr);
      } else {
        RetainedTransitive(e.g, g, heap.Objs(), e.Roots(), roots);
      }
    }

    // The cell that holds the symbol; the protected tail goes off the stack with it.
    method ConsSymbol(inner: Value) returns (st: Status, out: Value)
      requires Ready() && heap.protect != [] && Pointers([Sym(quoteSym), inner]) <= Reach(heap.Objs(), heap.Roots())
      modifies heap
      ensures Ready() && heap.toplevel == old(heap.toplevel) && Refusals() >= old(Refusals())
      ensures heap.protect == old(heap.protect)[..old(|heap.protect|) - 1]
      ensures st == OK || Refused(old(Here()), st)
      ensures st == OK ==>
        IsPointer(out)
        && Allocated(old(heap.Objs()), heap.Objs(), old(heap.Roots()), out.addr, Pair(Sym(quoteSym), inner))
      ensures st != OK ==> Retained(old(heap.Objs()), heap.Objs(), old(heap.Roots()))
    {
      st, out := heap.AllocPair(Sym(quoteSym), inner);
      heap.Restore(|heap.protect| - 1);
    }

    // After the opening parenthesis, counted in `depth` until the closing one.
    method ReadList() returns (st: Status, out: Value)
      requires Ready()
      modifies `pos, `depth, heap, table
      ensures Ready() && Kept(old(Here()))
      ensures Answers(st, out, Grammar.ReadList(old(Rest()), old(depth), max), old(depth), old(Here()))
      decreases |input| - pos, 10
    {
      hide Heap.Valid, Builds, Kept;
      if depth >= max {
        KeptTrivially();
        return ReadDepth, Undef;
      }
      ghost var r, e := Grammar.ReadItems(Rest(), true, depth + 1, max), Here();
      depth := depth + 1;
      st, out := ReadOpened();
      assert Answers(st, out, r, old(depth) + 1, e);
      if st == OK {
        depth := depth - 1;
        assert Answers(st, out, r, old(depth), e);
      }
    }

    lemma OpenedUnfolds(t: Text.Bytes, depth: nat, max: nat)
      ensures var u, r := Grammar.SkipSpace(t), Grammar.ReadItems(t, true, depth, max);
        && Grammar.ReadItems(u, true, depth, max) == r
        && (u != [] && u[0] == Text.RPAREN ==> r == Grammar.Read(Text.Nil, u[1..]))
    {
      Grammar.SkipFirst(t, depth, max);
    }

    // The empty list needs no cell.
    method ReadOpened() returns (st: Status, out: Value)
      requires Ready()
      modifies `pos, `depth, heap, table
      ensures Ready() && Kept(old(Here()))
      ensures Answers(st, out, Grammar.ReadItems(old(Rest()), true, old(depth), max), old(depth), old(Here()))
      decreases |input| - pos, 9
    {
      OpenedUnfolds(Rest(), depth, max);
      SkipSpace();
      if Peek() == Text.RPAREN {
        KeptTrivially();
        var c := Advance();
        return OK, Nil;
      }
      st, out := ReadItems();
    }

    // Between the parentheses: a dummy head is on top of the protect stack.
    ghost predicate OnStack(e: Entry, head: Addr)
      reads this, heap, table
    {
      Ready() && Since(e) && heap.protect == e.protect + [Ref(head)]
    }

    // And it heads a list under construction.
    ghost predicate InList(e: Entry, head: Addr, d: Text.Datum, tail: Addr)
      reads this, heap, table
    {
      OnStack(e, head) && Building(e.g, e.Roots(), heap.Objs(), table.entries, head, d, tail)
    }

    // A list that is given up: its head goes off the protect stack.
    method DropList(head: Addr, ghost e: Entry)
      requires OnStack(e, head)
      modifies heap`protect
      ensures Ready() && Kept(e) && Refusals() == old(Refusals())
    {
      heap.Restore(|heap.protect| - 1);
    }

    // The dummy head, on the protect stack.
    method OpenList() returns (st: Status, head: Addr)
      requires Ready()
      modifies heap
      ensures st == OK ==> InList(old(Here()), head, Text.Pair(Text.Nil, Text.Nil), head)
      ensures st != OK ==> Ready() && Kept(old(Here())) && Refused(old(Here()), st)
    {
      hide Builds, Unfolding.Acyclic;
      head := 0;
      var v;
      st, v := heap.AllocPair(Nil, Nil);
      if st == OK {
        head := v.addr;
        BuildingStarts(old(heap.Objs()), old(heap.Roots()), heap.Objs(), table.entries, head);
        st := heap.Protect(v);
      }
    }

    // One element, its cell, and the patch that links the cell.
    method ReadElement(head: Addr, tail: Addr, ghost d: Text.Datum, ghost e: Entry)
      returns (st: Status, newTail: Addr, ghost last: Text.Datum)
      requires InList(e, head, d, tail)
      requires !Grammar.ReadForm(Rest(), depth, max).AtEnd?
      modifies `pos, `depth, heap, table
      ensures st == OK ==>
        && InList(e, head, Snoc(d, last), newTail)
        && Grammar.ReadForm(old(Rest()), old(depth), max) == Grammar.Read(last, Rest())
        && depth == old(depth)
      ensures st != OK ==> Ready() && Kept(e)
      ensures st != OK ==> Refused(e, st) || Grammar.ReadForm(old(Rest()), old(depth), max) == Grammar.Failed(st)
      decreases |input| - pos, 4
    {
      hide Heap.Valid, Builds;
      newTail, last := tail, Text.Nil;
      ghost var r := Grammar.ReadForm(Rest(), depth, max);
      var v;
      st, v := ReadInList(head, tail, d, e);
      if st != OK {
        DropList(head, e);
        return st, tail, last;
      }
      last := r.d;
      st, newTail := AppendCell(head, tail, v, d, last, e);
    }

    // A form read while a list is under construction: the list is untouched, and
    // the form shares nothing with it.
    method ReadInList(head: Addr, tail: Addr, ghost d: Text.Datum, ghost e: Entry) returns (st: Status, v: Value)
      requires InList(e, head, d, tail)
      modifies `pos, `depth, heap, table
      ensures InList(e, head, d, tail)
      ensures var r := Grammar.ReadForm(old(Rest()), old(depth), max);
        && (st == OK ==> !r.Failed? && depth == old(depth))
        && (st == OK && r.AtEnd? ==> v.Eof? && Rest() == [])
        && (st == OK && r.Read? ==>
              && Rest() == r.rest && Readable(r.d)
              && Builds(heap.Objs(), table.entries, v, r.d, e.Live() + {tail}))
        && (st != OK ==> Refused(e, st) || r == Grammar.Failed(st))
      decreases |input| - pos, 3
    {
      hide Heap.Valid, Building, Builds;
      ghost var g, names, r := heap.Objs(), table.entries, Grammar.ReadForm(Rest(), depth, max);
      HeapIsClosed();
      BuildingHead(e.g, e.Roots(), g, names, head, d, tail);
      ListRoots(g, heap.toplevel, e.protect, head);
      st, v := ReadForm();
      StillBuilding(e.g, e.Roots(), g, heap.Objs(), names, table.entries, head, d, tail);
      if st == OK && r.Read? {
        AfterForm(e.g, e.Roots(), g, heap.Objs(), names, table.entries, head, d, tail, v, r.d);
      }
    }

    lemma ListRoots(g: ObjectMap, toplevel: Value, protect: seq<Value>, head: Addr)
      requires head in g && head != 0
      ensures Pointers([toplevel] + (protect + [Ref(head)])) == Pointers([toplevel] + protect) + {head}
    {
      RootAdded(g, toplevel, protect, Ref(head));
    }

    // The cell `c` waits to be linked behind `tail`; linked, it makes the list `d`.
    ghost predicate Linkable(e: Entry, head: Addr, d: Text.Datum, tail: Addr, c: Addr)
      reads this, heap, table
    {
      OnStack(e, head) && Unlinked(e.g, e.Roots(), heap.Objs(), table.entries, head, d, tail, c)
    }

    lemma ElementRooted(g: ObjectMap, roots: set<Addr>, head: Addr, v: Value)
      requires head in g && head != 0 && InHeap(g, v) && head in roots
      ensures Live(v, Reach(g, roots + Pointers([v])))
      ensures Pointers([Nil]) <= Reach(g, roots)
    {
      if IsPointer(v) {
        RootIsReachable(g, roots + Pointers([v]), v.addr);
      }
    }

    // The element is on the protect stack while its cell is allocated.
    method AllocForList(head: Addr, v: Value, ghost e: Entry) returns (st: Status, cell: Addr)
      requires Ready() && heap.toplevel == e.toplevel && heap.protect == e.protect + [Ref(head)]
      requires head in heap.Objs() && head != 0 && InHeap(heap.Objs(), v)
      modifies heap
      ensures Ready() && heap.toplevel == e.toplevel && heap.protect == e.protect + [Ref(head)]
      ensures Refusals() >= old(Refusals()) + if st == OK then 0 else 1
      ensures if st == OK
              then Allocated(old(heap.Objs()), heap.Objs(), e.Roots() + {head} + Pointers([v]), cell, Pair(v, Nil))
              else st == NoMem && Retained(old(heap.Objs()), heap.Objs(), e.Roots() + {head})
    {
      hide Heap.Valid, Allocated;
      cell := head;
      ListRoots(heap.Objs(), heap.toplevel, e.protect, head);
      ElementRooted(heap.Objs(), heap.Roots(), head, v);
      var c;
      st, c := heap.ConsProtected(v, Nil);
      if st == OK {
        cell := c.addr;
      }
    }

    method AllocCell(head: Addr, tail: Addr, v: Value, ghost d: Text.Datum, ghost last: Text.Datum, ghost e: Entry)
      returns (st: Status, cell: Addr)
      requires InList(e, head, d, tail) && Readable(last)
      requires Builds(heap.Objs(), table.entries, v, last, e.Live() + {tail})
      modifies heap
      ensures OnStack(e, head)
      ensures st == OK ==> Linkable(e, head, Snoc(d, last), tail, cell)
      ensures st != OK ==> Refused(e, st)
    {
      hide Unlinked, Building, Allocated, Builds, Heap.Valid;
      ghost var g, roots := heap.Objs(), e.Roots();
      HeapIsClosed();
      BuildingHead(e.g, roots, g, table.entries, head, d, tail);
      BuiltIsInHeap(g, table.entries, v, last, e.Live() + {tail});
      st, cell := AllocForList(head, v, e);
      if st == OK {
        ghost var more := roots + {head} + Pointers([v]);
        ElementRooted(g, roots + {head}, head, v);
        AfterCell(e.g, roots, g, heap.Objs(), more, table.entries, head, d, tail, v, last, cell);
      } else {
        RetainedTransitive(e.g, g, heap.Objs(), roots, roots + {head});
      }
    }

    method AppendCell(head: Addr, tail: Addr, v: Value, ghost d: Text.Datum, ghost last: Text.Datum, ghost e: Entry)
      returns (st: Status, cell: Addr)
      requires InList(e, head, d, tail) && Readable(last)
      requires Builds(heap.Objs(), table.entries, v, last, e.Live() + {tail})
      modifies heap
      ensures st == OK ==> InList(e, head, Snoc(d, last), cell)
      ensures st != OK ==> Ready() && Kept(e) && Refused(e, st)
    {
      hide Linkable;
      st, cell := AllocCell(head, tail, v, d, last, e);
      if st == OK {
        LinkCell(head, tail, cell, Snoc(d, last), e);
      } else {
        DropList(head, e);
      }
    }

    method LinkCell(head: Addr, tail: Addr, cell: Addr, ghost d: Text.Datum, ghost e: Entry)
      requires Linkable(e, head, d, tail, cell)
      modifies heap`mem
      ensures InList(e, head, d, cell)
    {
      hide Heap.Valid, HasTree, Builds;
      heap.SetCdr(tail, Ref(cell));
    }

    // The list is complete under the dummy head: `full` with the head cell in front.
    ghost predicate Complete(e: Entry, head: Addr, full: Text.Datum)
      reads this, heap, table
    {
      && OnStack(e, head)
      && full.Pair?
      && Readable(full)
      && Builds(heap.Objs(), table.entries, Ref(head), full, e.Live())
    }

    lemma DottedUnfolds(t: Text.Bytes, depth: nat, max: nat)
      ensures var form := Grammar.ReadForm(t, depth, max);
              var r := Grammar.ReadDotted(t, depth, max);
              && (form.Failed? ==> r == form)
              && (form.AtEnd? ==> r == Grammar.Failed(ReadSyntax))
              && (form.Read? ==> r == Grammar.Closed(form.d, form.rest))
    {
    }

    // After the dot: the form goes into the last cell before the parenthesis is looked for.
    method ReadDotted(head: Addr, tail: Addr, ghost d: Text.Datum, ghost e: Entry)
      returns (st: Status, ghost end: Text.Datum)
      requires InList(e, head, d, tail)
      modifies `pos, `depth, heap, table
      ensures st == OK ==>
        && Complete(e, head, Append(d, end))
        && Grammar.ReadDotted(old(Rest()), old(depth), max) == Grammar.Read(end, Rest())
        && depth == old(depth)
      ensures st != OK ==> Ready() && Kept(e)
      ensures st != OK ==> Refused(e, st) || Grammar.ReadDotted(old(Rest()), old(depth), max) == Grammar.Failed(st)
      decreases |input| - pos, 5
    {
      hide Heap.Valid, Building, Builds;
      var v;
      st, v, end := ReadTail(head, tail, d, e);
      if st == OK {
        st := ExpectClose(end);
      }
      if st != OK {
        DropList(head, e);
      }
    }

    method ExpectClose(ghost d: Text.Datum) returns (st: Status)
      requires pos <= |input|
      modifies `pos
      ensures old(pos) <= pos <= |input|
      ensures Grammar.Closed(d, old(Rest())) == if st == OK then Grammar.Read(d, Rest()) else Grammar.Failed(st)
    {
      SkipSpace();
      if Peek() != Text.RPAREN {
        return ReadSyntax;
      }
      var c := Advance();
      st := OK;
    }

    method StoreTail(head: Addr, tail: Addr, v: Value, ghost d: Text.Datum, ghost end: Text.Datum, ghost e: Entry)
      requires InList(e, head, d, tail)
      requires Builds(heap.Objs(), table.entries, v, end, e.Live() + {tail})
      modifies heap`mem
      ensures OnStack(e, head) && Builds(heap.Objs(), table.entries, Ref(head), Append(d, end), e.Live())
    {
      hide Building, Builds, HasTree, Heap.Valid;
      HeapIsClosed();
      AfterDot(e.g, e.Roots(), heap.Objs(), table.entries, head, d, tail, v, end);
      heap.SetCdr(tail, v);
    }

    // At the end of input the end-of-file mark is stored; the missing parenthesis is reported next.
    method ReadTail(head: Addr, tail: Addr, ghost d: Text.Datum, ghost e: Entry)
      returns (st: Status, v: Value, ghost end: Text.Datum)
      requires InList(e, head, d, tail)
      modifies `pos, `depth, heap, table
      ensures OnStack(e, head)
      ensures var r := Grammar.ReadDotted(old(Rest()), old(depth), max);
        && (st != OK ==> Refused(e, st) || r == Grammar.Failed(st))
        && (st == OK ==> depth == old(depth) && r == Grammar.Closed(end, Rest()))
        && (st == OK && r.Read? ==> Complete(e, head, Append(d, end)))
      decreases |input| - pos, 4
    {
      hide Heap.Valid, Building;
      end := Text.Opaque(Text.EofMark);
      BuildingHead(e.g, e.Roots(), heap.Objs(), table.entries, head, d, tail);
      DottedUnfolds(Rest(), depth, max);
      ghost var r := Grammar.ReadForm(Rest(), depth, max);
      st, v := ReadInList(head, tail, d, e);
      if st == OK {
        if r.Read? {
          end := r.d;
          AppendIsReadable(d, end);
        }
        StoreTail(head, tail, v, d, end, e);
      }
    }

    lemma {:induction false} AppendIsReadable(d: Text.Datum, end: Text.Datum)
      requires Readable(d) && Readable(end)
      ensures Readable(Append(d, end))
      decreases d
    {
      if d.Pair? {
        AppendIsReadable(d.cdr, end);
      }
    }

    // The grammar's answer for the whole list, given the elements so far (after
    // the head cell) and its answer for the rest.
    ghost predicate Splices(whole: Grammar.Reading, d: Text.Datum, r: Grammar.Reading) {
      d.Pair? && whole == if r.Read? then Grammar.Read(Append(d.cdr, r.d), r.rest) else r
    }

    lemma SpliceElement(whole: Grammar.Reading, d: Text.Datum, last: Text.Datum, r: Grammar.Reading)
      requires Splices(whole, d, WithFirst(last, r))
      ensures Splices(whole, Snoc(d, last), r)
      ensures !Snoc(d, last).cdr.Nil?
    {
      assert Snoc(d, last).cdr == Snoc(d.cdr, last);
      if r.Read? {
        AppendAfterSnoc(d.cdr, last, r.d);
      }
    }

    // The next item starts here, blanks being skipped.
    ghost predicate AtItem(t: Text.Bytes) {
      && t != []
      && Grammar.SkipSpace(t) == t
      && t[0] != Text.RPAREN
    }

    predicate StartsDot(t: Text.Bytes) {
      |t| > 1 && t[0] == Text.DOT && Text.IsTerminator(t[1])
    }

    lemma ItemsUnfold(t: Text.Bytes, first: bool, depth: nat, max: nat)
      requires AtItem(t) && !StartsDot(t)
      ensures !Grammar.ReadForm(t, depth, max).AtEnd?
      ensures var element := Grammar.ReadForm(t, depth, max);
              Grammar.ReadItems(t, first, depth, max) ==
              if element.Read? then WithFirst(element.d, Grammar.ReadItems(element.rest, false, depth, max))
              else element
    {
    }

    method ElementItem(head: Addr, tail: Addr, ghost whole: Grammar.Reading, ghost d: Text.Datum, ghost e: Entry)
      returns (st: Status, newTail: Addr, ghost d': Text.Datum)
      requires InList(e, head, d, tail)
      requires Splices(whole, d, Grammar.ReadItems(Rest(), d.cdr.Nil?, depth, max))
      requires AtItem(Rest()) && !StartsDot(Rest())
      modifies `pos, `depth, heap, table
      ensures st == OK ==>
        && InList(e, head, d', newTail) && depth == old(depth)
        && Splices(whole, d', Grammar.ReadItems(Rest(), d'.cdr.Nil?, depth, max))
        && old(pos) < pos
      ensures st != OK ==> Ready() && Kept(e)
      ensures st != OK ==> Refused(e, st) || whole == Grammar.Failed(st)
      decreases |input| - pos, 5
    {
      hide Heap.Valid, Builds;
      ghost var last, t := Text.Nil, Rest();
      ItemsUnfold(t, d.cdr.Nil?, depth, max);
      st, newTail, last := ReadElement(head, tail, d, e);
      d' := Snoc(d, last);
      if st == OK {
        SpliceElement(whole, d, last, Grammar.ReadItems(Rest(), false, depth, max));
      }
    }

    method DotItem(head: Addr, tail: Addr, ghost whole: Grammar.Reading, ghost d: Text.Datum, ghost e: Entry)
      returns (st: Status, ghost full: Text.Datum)
      requires InList(e, head, d, tail)
      requires Splices(whole, d, Grammar.ReadItems(Rest(), d.cdr.Nil?, depth, max))
      requires AtItem(Rest()) && StartsDot(Rest())
      modifies `pos, `depth, heap, table
      ensures st == OK ==>
        Complete(e, head, full) && depth == old(depth) && whole == Grammar.Read(full.cdr, Rest())
      ensures st != OK ==> Ready() && Kept(e)
      ensures st != OK ==> Refused(e, st) || whole == Grammar.Failed(st)
      decreases |input| - pos, 5
    {
      hide Heap.Valid, Builds;
      DotUnfolds(Rest(), d.cdr.Nil?, depth, max);
      full := d;
      var c := Advance();
      if tail == head {
        DropList(head, e);
        return ReadSyntax, full;
      }
      ghost var end;
      st, end := ReadDotted(head, tail, d, e);
      full := Append(d, end);
    }

    lemma DotUnfolds(t: Text.Bytes, first: bool, depth: nat, max: nat)
      requires AtItem(t) && StartsDot(t)
      ensures Grammar.ReadItems(t, first, depth, max) ==
              if first then Grammar.Failed(ReadSyntax) else Grammar.ReadDotted(t[1..], depth, max)
    {
    }

    method CloseItem(head: Addr, tail: Addr, ghost whole: Grammar.Reading, ghost d: Text.Datum, ghost e: Entry)
      requires InList(e, head, d, tail)
      requires Splices(whole, d, Grammar.ReadItems(Rest(), d.cdr.Nil?, depth, max))
      requires Peek() == Text.RPAREN
      modifies `pos
      ensures Complete(e, head, d) && whole == Grammar.Read(d.cdr, Rest())
    {
      hide Heap.Valid;
      HoledBuilds(heap.Objs(), table.entries, head, d, tail, e.Live());
      AppendNil(d.cdr);
      var c := Advance();
    }

    lemma BlanksBeforeItems(whole: Grammar.Reading, d: Text.Datum, t: Text.Bytes, depth: nat, max: nat)
      requires d.Pair? && Splices(whole, d, Grammar.ReadItems(t, d.cdr.Nil?, depth, max))
      ensures var u := Grammar.SkipSpace(t);
        && Splices(whole, d, Grammar.ReadItems(u, d.cdr.Nil?, depth, max))
        && Grammar.SkipSpace(u) == u
        && (u == [] ==> whole == Grammar.Failed(ReadTruncated))
    {
      Grammar.SkipFirst(t, depth, max);
    }

    method ReadItems() returns (st: Status, out: Value)
      requires Ready()
      modifies `pos, `depth, heap, table
      ensures Ready() && Kept(old(Here()))
      ensures Answers(st, out, Grammar.ReadItems(old(Rest()), true, old(depth), max), old(depth), old(Here()))
      decreases |input| - pos, 8
    {
      hide Heap.Valid;
      out := Undef;
      ghost var e, whole := Here(), Grammar.ReadItems(Rest(), true, depth, max);
      var head;
      st, head := OpenList();
      if st != OK {
        return st, out;
      }
      ghost var full;
      st, full := ReadItemsLoop(head, whole, e);
      if st == OK {
        out := heap.mem[head].obj.cdr;
        DropList(head, e);
      }
    }

    // One turn of the loop: an element, a dotted tail or the closing parenthesis.
    method ReadItem(head: Addr, tail: Addr, ghost whole: Grammar.Reading, ghost d: Text.Datum, ghost e: Entry)
      returns (st: Status, done: bool, newTail: Addr, ghost d': Text.Datum)
      requires InList(e, head, d, tail)
      requires Splices(whole, d, Grammar.ReadItems(Rest(), d.cdr.Nil?, depth, max))
      modifies `pos, `depth, heap, table
      ensures st == OK ==> depth == old(depth)
      ensures st == OK && done ==> Complete(e, head, d') && whole == Grammar.Read(d'.cdr, Rest())
      ensures st == OK && !done ==>
        && InList(e, head, d', newTail)
        && Splices(whole, d', Grammar.ReadItems(Rest(), d'.cdr.Nil?, depth, max))
        && old(pos) < pos
      ensures st != OK ==> Ready() && Kept(e)
      ensures st != OK ==> Refused(e, st) || whole == Grammar.Failed(st)
      decreases |input| - pos, 6
    {
      hide Heap.Valid, Building, Builds, Layout.Skips, Closed, Retained, Complete, Since;
      newTail, d' := tail, d;
      BlanksBeforeItems(whole, d, Rest(), depth, max);
      SkipSpace();
      done := true;
      if Peek() < 0 {
        DropList(head, e);
        st := ReadTruncated;
      } else if Peek() == Text.RPAREN {
        CloseItem(head, tail, whole, d, e);
        st := OK;
      } else if Peek() == Text.DOT && pos + 1 < |input| && Text.IsTerminator(input[pos + 1]) {
        st, d' := DotItem(head, tail, whole, d, e);
      } else {
        done := false;
        st, newTail, d' := ElementItem(head, tail, whole, d, e);
      }
    }

    method ReadItemsLoop(head: Addr, ghost whole: Grammar.Reading, ghost e: Entry)
      returns (st: Status, ghost d: Text.Datum)
      requires InList(e, head, Text.Pair(Text.Nil, Text.Nil), head)
      requires Grammar.ReadItems(Rest(), true, depth, max) == whole
      modifies `pos, `depth, heap, table
      ensures st == OK ==> Complete(e, head, d) && depth == old(depth) && whole == Grammar.Read(d.cdr, Rest())
      ensures st != OK ==> Ready() && Kept(e)
      ensures st != OK ==> Refused(e, st) || whole == Grammar.Failed(st)
      decreases |input| - pos, 7
    {
      var tail := head;
      d := Text.Pair(Text.Nil, Text.Nil);
      while true
        invariant old(pos) <= pos && depth == old(depth)
        invariant InList(e, head, d, tail)
        invariant Splices(whole, d, Grammar.ReadItems(Rest(), d.cdr.Nil?, depth, max))
        decreases |input| - pos
      {
        var done;
        st, done, tail, d := ReadItem(head, tail, whole, d, e);
        if st != OK || done {
          return st, d;
        }
      }
    }

    // One turn of the read loop: a form, protected while the caller works on
    // it and dropped after, or the end of the input.
    method ReadNext() returns (st: Status, done: bool, form: Value, ghost d: Text.Datum)
      requires Ready() && depth == 0
      modifies `pos, `depth, heap, table
      ensures Ready() && Kept(old(Here()))
      ensures st == OK && !done ==> Readable(d) && Builds(heap.Objs(), table.entries, form, d, old(Here()).Live())
      ensures var whole := RoundTrip.ReadAll(old(Rest()), max);
        && (st == OK && done ==> whole == Forms([]))
        && (st == OK && !done ==>
              depth == 0 && old(pos) < pos && whole == AfterForms([d], RoundTrip.ReadAll(Rest(), max)))
        && (st != OK ==> Refused(old(Here()), st) || whole == Stopped([], st))
    {
      hide Heap.Valid;
      ghost var r := Grammar.ReadForm(Rest(), 0, max);
      d, done := Text.Nil, false;
      st, form := ReadForm();
      if st != OK {
        return;
      }
      AtomsAreNotEof(r, heap.Objs(), table.entries, form, old(Here()).Live());
      if form.Eof? {
        return OK, true, form, d;
      }
      d := r.d;
      st := HoldBriefly(form);
    }

    // The form on the protect stack and off it again.
    method HoldBriefly(form: Value) returns (st: Status)
      requires Ready() && InHeap(heap.Objs(), form)
      modifies heap`protect, heap`protectCap, heap`refusals
      ensures Ready() && heap.protect == old(heap.protect)
      ensures st == OK || st == NoMem
      ensures heap.refusals == old(heap.refusals) + if st == OK then 0 else 1
    {
      var saved := |heap.protect|;
      st := heap.Protect(form);
      heap.Restore(saved);
    }

    /** The read loop of a source: form after form until the input ends or a read fails. */
    method ReadAll() returns (st: Status, ghost forms: seq<Text.Datum>)
      requires Ready() && depth == 0
      modifies `pos, `depth, heap, table
      ensures Ready() && Kept(old(Here()))
      ensures st == OK ==> RoundTrip.ReadAll(old(Rest()), max) == Forms(forms)
      ensures st != OK ==> Refused(old(Here()), st) || RoundTrip.ReadAll(old(Rest()), max) == Stopped(forms, st)
    {
      ghost var e, whole := Here(), RoundTrip.ReadAll(Rest(), max);
      forms := [];
      var done := false;
      st := OK;
      FormsStart(whole);
      KeptTrivially();
      while st == OK && !done
        invariant Ready() && Kept(e)
        invariant st == OK && !done ==> depth == 0 && whole == AfterForms(forms, RoundTrip.ReadAll(Rest(), max))
        invariant st == OK && done ==> whole == Forms(forms)
        invariant st != OK ==> Refused(e, st) || whole == Stopped(forms, st)
        decreases !done, st == OK, |input| - pos
      {
        ghost var here, d := Here(), Text.Nil;
        var form;
        st, done, form, d := ReadNext();
        KeptTransitive(e, here);
        if st != OK {
          FormsEnd(forms, st);
        } else if done {
          FormsEnd(forms, NoMem);
        } else {
          FormsAdded(forms, d, RoundTrip.ReadAll(Rest(), max));
          forms := forms + [d];
        }
      }
    }

    lemma KeptTransitive(e: Entry, here: Entry)
      requires Closed(e.g) && e.Roots() <= e.g.Keys && here.toplevel == e.toplevel && here.protect == e.protect
      requires e.names <= here.names && e.refusals <= here.refusals && Retained(e.g, here.g, e.Roots())
      requires Kept(here)
      ensures Kept(e)
    {
      RetainedTransitive(e.g, here.g, heap.Objs(), e.Roots(), e.Roots());
    }
  }
}
