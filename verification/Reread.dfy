/**
 * Printer and reader together, over one collected heap.
 */
module Reread {
  import opened Basics
  import opened Graph
  import opened Gc
  import opened Symbols
  import opened Unfolding
  import opened RoundTrip
  import Grammar
  import Printer
  import Reader
  import Text

  lemma StillThere(g: ObjectMap, g': ObjectMap, roots: set<Addr>, names: Names, names': Names, v: Value, d: Text.Datum)
    requires Closed(g) && Retained(g, g', roots) && Live(v, Reach(g, roots)) && names <= names'
    requires Builds(g, names, v, d, {}) && Readable(d)
    ensures Builds(g', names', v, d, {})
  {
    BuildsRetained(g, g', roots, names, v, d, {}, {});
    BuildsMoreNames(g', names, names', v, d, {});
  }

  /**
   * Writing a rooted value and reading the text back: when the value's tree `d`
   * reads at all, the result is a second copy of it, in cells that share nothing
   * with what was rooted, and the original is as it was.  Only a refused request
   * (`refused` counts them) or the print limit can prevent it.
   */
  method WriteAndReread(heap: Heap, table: SymbolTable, quoteSym: nat, maxPrint: nat, maxRead: nat, v: Value)
    returns (st: Status, copy: Value, ghost d: Text.Datum, ghost refused: nat)
    requires heap.Valid() && table.Valid() && quoteSym < |table.entries| &&
             table.entries[quoteSym] == Grammar.QUOTE_NAME
    requires InHeap(heap.Objs(), v) && Live(v, Reach(heap.Objs(), heap.Roots()))
    modifies heap, table
    ensures heap.Valid() && heap.toplevel == old(heap.toplevel) && heap.protect == old(heap.protect)
    ensures Builds(old(heap.Objs()), old(table.entries), v, d, {})
    ensures Readable(d) && NoDotElement(d) && Nesting(d) <= maxRead ==>
      && (st == OK || (st == NoMem && refused > 0) || st == PrintDepth)
      && (st == PrintDepth ==> Text.PrintHeight(d) > maxPrint)
      && (st == OK ==> Builds(heap.Objs(), table.entries, copy, d, Reach(old(heap.Objs()), old(heap.Roots()))))
      && (st == OK ==> Builds(heap.Objs(), table.entries, v, d, {}))
  {
    copy := Undef;
    var out, len;
    st, out, len, d, refused := Printer.PrintToAlloc(heap, table, maxPrint, v, true);
    if st != OK {
      return st, copy, d, refused;
    }
    st, copy := ReadText(heap, table, quoteSym, maxRead, out[..len], d);
    refused := refused + (heap.refusals + table.refusals - old(heap.refusals + table.refusals));
    if st == OK && Readable(d) {
      StillThere(old(heap.Objs()), heap.Objs(), old(heap.Roots()), old(table.entries), table.entries, v, d);
    }
  }

  // Reads the first form of a text that is the writing of `d`.
  method ReadText(heap: Heap, table: SymbolTable, quoteSym: nat, maxRead: nat, text: Text.Bytes, ghost d: Text.Datum)
    returns (st: Status, copy: Value)
    requires heap.Valid() && table.Valid() && quoteSym < |table.entries| &&
             table.entries[quoteSym] == Grammar.QUOTE_NAME
    requires text == Text.Write(d)
    modifies heap, table
    ensures heap.Valid() && heap.toplevel == old(heap.toplevel) && heap.protect == old(heap.protect)
    ensures old(table.entries) <= table.entries && Retained(old(heap.Objs()), heap.Objs(), old(heap.Roots()))
    ensures heap.refusals + table.refusals >= old(heap.refusals + table.refusals)
    ensures Readable(d) && NoDotElement(d) && Nesting(d) <= maxRead ==>
      && (st == OK || (st == NoMem && heap.refusals + table.refusals > old(heap.refusals + table.refusals)))
      && (st == OK ==> Builds(heap.Objs(), table.entries, copy, d, Reach(old(heap.Objs()), old(heap.Roots()))))
  {
    var reader := new Reader.Reader(text, maxRead, heap, table, quoteSym);
    assert text + [] == text && reader.Rest() == text;
    WriteThenRead(d, [], 0, maxRead);
    st, copy := reader.ReadForm();
  }
}
