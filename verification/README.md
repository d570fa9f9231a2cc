# microlisp, modelled and proved in Dafny

microlisp is an interpreter for a subset of Scheme (R5RS). This project models
its cores and proves what they promise:

- **Collector** (`Graph`, `Memory`, `Gc`). The heap is a map from addresses to
  cells with a mark bit and an intrusive `next` link; a class holds the list
  head, the mark worklist, the protect stack and the threshold. A completed
  collection keeps exactly what is reachable from the roots, in list order, and
  frees everything else once, whatever cycles the heap has; an aborted one
  changes nothing. Every allocation may collect, and every request to the
  embedder's allocator may be refused, so each allocator contract holds for any
  collection schedule. Refused requests are counted: NOMEM is returned only when
  one was refused. Validity of the heap includes that it has no cycle along car
  and cdr or along frame parents, and the bound on what sweeping has cost.
- **Environments in the heap** (`EnvHeap`, `EnvRefinement`, `LetRooting`). The
  operations of `src/env.c` on frames that the collector owns, with walks along
  parents that need no bound; their refinement of the evaluator's numbered frames
  and of scoped finite maps, over any run with collections and recycled
  addresses; and the rooting of a let frame while initialisers and body run.
- **Reader and printer** (`Text`, `Grammar`, `RoundTrip`, `Layout`, `Symbols`,
  `Unfolding`, `Inflight`, `Reader`, `HeapLists`, `Printer`, `Reread`). The
  reader is a byte cursor that builds lists in the collected heap behind a dummy
  head; it is proved against a grammar on byte strings, for any collection
  schedule. `Layout` states the external syntax without the reader, white space
  and comments included, and proves that the grammar accepts exactly that. The
  printer walks the heap into a doubling buffer and is proved
  against the text of the value's tree. Which printed trees read back as
  themselves is settled for all trees by an if-and-only-if.
- **Evaluator** (`Terms`, `Frames`, `ScopedMaps`, `Prims`, `Semantics`, `Stability`,
  `Evaluator`, `Width`, `Laws`, `Binding`, `Derived`, `TailCalls`, `Programs`,
  `ConstantSpace`, `Renaming`, `Simulation`, `LetLambda`, `LetStar`, `LetRec`).
  `Semantics` is a plain recursive evaluator in which every tail position is an
  ordinary recursive call; `Evaluator` is the loop of `eval_body` with its two
  protect slots, its handlers and its depth counter, each method proved to give
  the same status, value and store, with no bound on what is evaluated, and with
  a bound on the protect stack that no tail call adds to. On the recursive
  evaluator rest the results on the depth limit, tail calls, derived forms, `let`
  as application, `let*` and `letrec` as internal definitions, what a call binds,
  and the laws of the single forms and procedures, for forms whose cells are
  anywhere.
- **Whole sources** (`Source`). The read-eval loop from bytes to the last value or
  the first failure.
- **Arithmetic and equality** (`Arith`, `Equality`): fixnum loops with their
  64-bit intermediate values, the tagged encoding, and the depth-bounded
  `equal?` against structural equality. `Representation` ties the evaluator's
  values to heap values: identity to tagged words, `equal?` to trees.

`Basics` holds the machine constants, bytes and status codes.

## How to read it

A method that stands for a C function is proved against a specification
function, and lemmas prove what the source promises about that function. An
allocator that may fail appears as a nondeterministic choice. In the evaluator
the argument `n` is a budget, checked at every nested evaluation and every turn
of the loop. A run that uses it up stops there, with the protect stack and the
depth counter restored. Every run of the C code that comes to an end does so
within some budget, so what is said for every budget is said of it; and a form
on which the recursive evaluator never ends uses up every budget, or a request
is refused. `Stability` shows that the amount does not matter otherwise.

A tree `d` is what a heap value unfolds to (`Unfolding.Builds`). Its last
argument is a set of addresses none of whose cells the tree uses: with the set
of everything reachable before a read, it says that the result is fresh.

## Where the code and its comments differ

The model follows the code in each case.

- `src/printer.c:10-11` says that write output re-parses to an equal value. It
  does not for the symbol `.` as a list element: `'.` reads, but `(quote .)`
  does not (`RoundTrip.DotDoesNotSurvive`). Nor need it under the same depth
  limit, because quotation costs no read depth but its printed form does
  (`RoundTrip.QuotationReadsBack`). `RoundTrip.WriteThenRead` gives the exact
  condition for every tree.
- `src/printer.c:18-23` expects that user-built structures can be cyclic. Pairs
  are mutated only by the reader, onto cells no value contains, so cycles along
  car and cdr cannot arise (`Unfolding.ValueHasTree`).
- The header comment in `src/microlisp_internal.h` says that a collection is
  triggered when the live count exceeds the threshold; the code compares with
  greater-or-equal (`src/gc.c:55`). The floor of the threshold is the constant
  4096, not the configured initial value (`src/gc.c:381`). The mark worklist is
  called breadth-first but pops from its end.
- `prim_remainder` guards against a division that no fixnum can reach; the
  guarded case is an ordinary zero remainder.

## Model

| member | source | states |
|---|---|---|
| `Graph.ReachIsLeastAbsorbing` | src/gc.c:352-369 | reachability from the collector's roots, defined by paths, is the least set that holds the roots and is closed under references |
| `Graph.RetainedReach` | src/gc.c:352-369 | a heap step that leaves everything reachable in place leaves the reachable set itself as it was |
| `Graph.ReachableThroughFields` | src/gc.c:270-369 | an address is reachable exactly when it is a root or is held by a field of a reachable object: car or cdr of a pair, environment, parameters or body of a closure, parent, a name or a value of a frame |
| `Graph.ReachIsLeastOverFields` | src/gc.c:270-369 | no smaller set holds the roots and everything those fields of its members hold |
| `Memory.MarkStep` | src/gc.c:256-266 | setting the mark of a root, or of a child of a marked object, and queueing it keeps the tri-colour invariant and the record of pushes free of repetitions |
| `Memory.BlackenStep` | src/gc.c:270-310 | once every field of the popped object is marked it is black: the tri-colour invariant holds with nothing open |
| `Memory.PushesAreBounded` | src/gc.c:256-266 | no object is pushed twice in a collection, so there are at most as many pushes as objects |
| `Memory.MarkingIsExact` | src/gc.c:270-310 | an empty worklist, with the roots marked, means that marked is exactly reachable, for cyclic heaps too |
| `Memory.SelectKeepsOrder` | src/gc.c:335-350 | the cells a sweep keeps (or frees) keep the order they had in the list |
| `Memory.SweepResult` | src/gc.c:335-350 | after the last cell: the kept list is exactly the live cells, still a NULL-terminated list, marks clear; the dropped ones are exactly the others |
| `Gc.Heap.constructor` | src/state.c:112-164 | an empty valid heap with the configured threshold, or 4096 when none is given |
| `Gc.Heap.PushMark` | src/gc.c:230-251 | appends at the end of the worklist, growing it by doubling from 64; fails only when it is full and the larger one is refused or too large, contents as they were |
| `Gc.Heap.Visit` | src/gc.c:256-266 | only mark bits change; success leaves the visited word black and the tri-colour invariant in force; every change of the worklist is a new push; it fails only when a growth of the worklist was refused |
| `Gc.Heap.VisitFields` | src/gc.c:270-310 | on success every word the popped object stores, taken field by field, that is a pointer leads to a marked object; it fails only when a growth of the worklist was refused |
| `Gc.Heap.DrainWorklist` | src/gc.c:270-310 | terminates (unmarked objects, then worklist length); on success the worklist is empty and the tri-colour invariant has no grey object; it fails only when a growth of the worklist was refused |
| `Gc.Heap.ClearAllMarks` | src/gc.c:316-320 | walking the list clears every mark and changes nothing else |
| `Gc.Heap.Mark` | src/gc.c:352-365 | success means marked is exactly reachable and each marked object was pushed exactly once; either way only mark bits changed; it fails only when a growth of the worklist was refused |
| `Gc.Heap.SweepCell` | src/gc.c:335-350 | one turn of the loop: a marked cell is kept and unmarked, an unmarked one unlinked from its predecessor and freed, and the rest of the list is as it was |
| `Gc.Heap.Sweep` | src/gc.c:335-350 | the list keeps exactly the marked objects in order, the others are freed once each in order, all marks are clear, the live count is the list length, and the visits counted are the old list length |
| `Gc.Heap.Collect` | src/gc.c:352-383 | of every closed heap, cycles of every kind included: a completed collection leaves exactly the objects reachable from the top-level environment and the protect stack, in order, with the new threshold; it aborts exactly when a growth of the worklist was refused, and then list, contents, live count and threshold are as they were; marks are clear after both; either way no field of an object and no root dangles, and after a completed one every object left is a root or named by a field of an object left |
| `Gc.Heap.MaybeCollect` | src/gc.c:54-58 | a collection runs under stress or once the live count is at the threshold, and then, unless a request is refused, exactly the reachable objects remain; otherwise nothing changes; everything rooted stays as it was and the counters move by a step of the cost model |
| `Gc.Heap.NothingDangles` | src/gc.c:270-383 | in every well-formed heap, before and after a collection, each pointer in a field of an object (car, cdr, environment, parameters, body, parent, each name and value) and each root leads to an object of the heap |
| `Gc.Heap.ReachedThroughFields` | src/gc.c:352-369 | in a heap, what is live is what the roots name and what fields of live objects name |
| `Gc.Heap.LinkObject` | src/gc.c:60-75 | the new object is first in the list, everything else is unchanged, and the heap stays closed, acyclic and listed without repetition |
| `Gc.Heap.Alloc` | src/gc.c:77-168 | under any collection schedule: a fresh address outside everything that was rooted, the requested contents, rooted objects untouched; or NOMEM, only when a request was refused, with rooted objects untouched |
| `Gc.Heap.AllocPair` | src/gc.c:77-90 | the same for a pair whose fields the caller has rooted, NOMEM only when a request was refused |
| `Gc.Heap.AllocString` | src/gc.c:92-113 | the same for a string, with exactly the given bytes, NOMEM only when a request was refused |
| `Gc.Heap.Protect` | src/gc.c:174-194 | pushes one root; fails only when the stack is full and a larger one is refused or too large, and leaves it as it was |
| `Gc.Heap.Unprotect` | src/gc.c:196-201 | pops n roots, at most all of them |
| `Gc.Heap.Restore` | src/gc.c:203-207 | cuts the stack back to a saved height and never raises it |
| `Gc.Heap.ConsProtected` | src/reader.c:373-384 | protect, allocate, unprotect: the stack is as before on every path, the car need not be rooted by the caller, NOMEM only when a request was refused, the counters move by a step of the cost model |
| `Gc.Heap.SetCdr` | src/reader.c:385 | patching the cdr of a pair that the stored value does not contain keeps the heap valid and acyclic |
| `Gc.Heap.FreeAll` | src/gc.c:391-400 | at destruction every object is freed exactly once, in list order |
| `Gc.SweepingIsAmortised` | src/gc.c:335-383 | along any run of allocations, collections and refusals from any initial threshold, all sweeps together visit at most twice the objects allocated |
| `Gc.Heap.SweepingStaysAmortised` | src/gc.c:335-383 | the bound is part of what every method keeps: in every valid heap on which stress mode was never on, the objects visited by all sweeps so far, counted turn by turn, are at most twice the objects allocated so far |
| `Unfolding.TreeIsUnique` | src/printer.c:125-239 | a heap value has at most one tree along car and cdr |
| `Unfolding.BuildsRetained` | src/gc.c:352-383 | the tree of a rooted value survives any collection and avoids every cell that was not reachable |
| `Unfolding.ValueHasTree` | src/printer.c:18-23 | every value of a valid heap unfolds to a finite tree and has a finite chain of frame parents, so walks along car, cdr and parent end, although closures and frames may form cycles |
| `Unfolding.AllocationKeepsAcyclic` | src/gc.c:77-168 | a new object that refers to existing ones creates no cycle along car, cdr or parent |
| `Unfolding.PatchKeepsAcyclic` | src/reader.c:353-385 | storing into the cdr of a pair a value whose tree avoids that pair creates no cycle |
| `Unfolding.BindingKeepsAcyclic` | src/env.c:54-100 | changing bindings of a frame creates no cycle along car, cdr or parent |
| `HeapLists.BuildList` | src/eval.c:115-145 | under any collection schedule the result is the list of argv[start..] in fresh cells, everything rooted is untouched and the protect stack is as on entry on every path; NOMEM only when a request was refused |
| `HeapLists.PrimList` | src/primitives.c:293-313 | the same for the primitive list, whose elements the caller roots; NOMEM only when a request was refused |
| `HeapLists.ProperListLength` | src/eval.c:36-47 | the walk ends on every value of a valid heap, and gives the number of pairs on the spine and whether it ends in the empty list |
| `Symbols.SymbolTable.Intern` | src/symtab.c:34-93 | a known name keeps the table and gives its index, an unknown one is appended and gets the next; names stay unique; NOMEM exactly when growing the table was refused or the next index is past the ceiling, for an unknown name only and with the table unchanged |
| `Symbols.SymbolTable.InternChecked` | src/symtab.c:34-93 | the same behind the argument check: INVALID_ARG exactly for a null name of non-zero length, with nothing changed |
| `Symbols.SymbolTable.Name` | src/symtab.c:95-107 | the name of an index in use interns back to that index, an index out of use has the empty name |
| `Symbols.IndexIsStable` | src/symtab.c:34-93 | the index a name gets when interned is the one it has after any further interning |
| `Symbols.SameIndexSameName` | src/symtab.c:7-12 | two occurrences get the same index exactly when they spell the same name |
| `Text.Digits` | src/printer.c:48-56 | the printed digits denote the number they were made from |
| `Text.ListText` | src/printer.c:130-160 | a list prints as its elements with one space between any two, in parentheses, with its end after a dot when it is improper, in both styles |
| `Text.AtomTexts` | src/printer.c:179-239 | the exact texts of the empty list, booleans, symbols, procedures and displayed strings; a number has no sign but minus and no leading zero |
| `Text.EscapeTable` | src/printer.c:58-119 | how each of the 256 bytes is written inside a string literal |
| `Text.HeightOfList` | src/printer.c:162-177 | an atom takes one nested call of the printer, and a list one more than the most that one of its elements, or its improper end, takes |
| `RoundTrip.NumberIsExact` | src/reader.c:225-279 | every digit string followed by anything is classified: exact value in the fixnum range, OVERFLOW (also past 64 bits, before the terminator is looked at), or SYNTAX |
| `RoundTrip.DecimalReads` | src/reader.c:225-279 | every fixnum from -2^59 to 2^59-1 reads back from its decimal text |
| `RoundTrip.EscapedTextReads` | src/reader.c:108-203 | reading undoes escaping, for every byte string |
| `RoundTrip.FormReads` | src/reader.c:291-471 | for every tree with readable leaves and any terminator-led rest: the tree and that rest, or READ_DEPTH, exactly by its nesting; with a "." element, an error or a different tree |
| `RoundTrip.FormIsReadable` | src/reader.c:434-471 | whatever bytes are read, the result has only leaves with a read syntax |
| `RoundTrip.WriteThenRead` | src/printer.c:10-11 | for every tree, the written text followed by any terminator-led rest reads back as that tree, stopping at the rest, if and only if its leaves are readable, no list has the symbol "." as an element, and its parentheses fit the remaining depth |
| `RoundTrip.TooDeepToRead` | src/reader.c:291-297 | when only the depth is lacking the error is READ_DEPTH |
| `RoundTrip.SymbolsRead` | src/reader.c:281-288 | a name printed bare comes back as the same symbol exactly when it is non-empty, has no terminator byte and does not start like a number or a hash form |
| `RoundTrip.DotDoesNotSurvive` | src/printer.c:10-11 | the input '. reads, but its printed form (quote .) is a syntax error: the header's promise fails on it |
| `RoundTrip.QuotationReadsBack` | src/reader.c:396-432 | a quoted datum reads within the datum's own depth; its printed form (quote d) reads back if and only if there is one level to spare and the datum is not the symbol "." |
| `RoundTrip.WriteAllThenReadAll` | src/state.c:255-271 | a sequence of printed forms reads back as that sequence, up to the end of the input |
| `Layout.ReadsExactlyLayouts` | src/reader.c:291-471 | the reader accepts exactly the external syntax: it reads d and leaves rest if and only if what comes before rest is a layout of d (tokens, 'form, proper and dotted lists, with any white space and comments between the tokens) that fits the depth |
| `Layout.LayoutReads` | src/reader.c:291-471 | every layout, followed by anything that ends its last token, reads as what it denotes, or is READ_DEPTH exactly when its parentheses nest too deep |
| `Layout.ReadIsLayout` | src/reader.c:291-471 | whatever text is accepted is a layout of the datum returned |
| `Layout.DeepLayoutFails` | src/reader.c:291-297 | a layout with more open parentheses than the limit is READ_DEPTH |
| `Layout.GapBeforeForm` | src/reader.c:81-100 | any white space and comments in front of a form change nothing |
| `Layout.CommentBeforeForm` | src/reader.c:88-96 | a comment ends with its line: the text after it reads as if it stood alone, and a comment the input ends in is the end of the input |
| `Layout.BlankBeforeForm` | src/reader.c:56-58 | a tab, newline, vertical tab, form feed, return or space in front of a form changes nothing |
| `Layout.AtEndExactlyOnGaps` | src/reader.c:434-440 | the reader reports the end of the input exactly when only white space and comments are left |
| `Layout.TokenReads` | src/reader.c:108-288 | a token as the syntax defines it (string with its escapes, signed decimal number, symbol, #t, #f) reads as its datum |
| `Layout.AtomIsSpelled` | src/reader.c:108-288 | what the reader takes for a token is one of these |
| `Layout.TerminatorsEndTokens` | src/reader.c:60-62 | a token ends at the end of the input, white space, a parenthesis, a semicolon, a double quote or a quotation mark |
| `Layout.NamesAreSymbols` | src/reader.c:452-471 | a symbol is a token without terminators that starts neither with a hash sign nor like a number |
| `Layout.ProgramReads` | src/state.c:252-259 | a text of forms, with any white space and comments between and after them, reads as their data in order |
| `Layout.UnclosedList` | src/reader.c:319-326 | a list that the input ends in is READ_TRUNCATED, whatever complete elements it has |
| `Layout.UnclosedString` | src/reader.c:108-203 | so is a string literal without its closing quote |
| `Layout.MisplacedTokens` | src/reader.c:307-471 | a closing parenthesis with none open, and a dot before the first element, are syntax errors |
| `Layout.NothingAfterDot` | src/reader.c:333-344 | a dotted list that ends with the input after its dot is a syntax error |
| `Layout.TwoFormsAfterDot` | src/reader.c:354-363 | after the form behind the dot anything but the closing parenthesis is a syntax error |
| `Layout.BadHash` | src/reader.c:205-223 | a hash sign that starts neither #t nor #f is a syntax error |
| `Layout.BadEscape` | src/reader.c:125-190 | in a string literal a backslash before anything but n, t, r, 0, a double quote, a backslash or x with two hexadecimal digits is a syntax error, and one at the end of the input READ_TRUNCATED |
| `Reader.HexDigit` | src/reader.c:68-79 | the same digit value as the grammar's, and -1 for the end of input |
| `Reader.Reader.SkipSpace` | src/reader.c:81-100 | stops where the grammar does, which is after all white space and all comments, each up to the end of its line, and after nothing else |
| `Reader.Reader.ScanString` | src/reader.c:108-203 | the bytes and rest the grammar gives for the literal, for every escape, or its error, or NOMEM exactly when the scratch buffer was refused |
| `Reader.Reader.ScanDigits` | src/reader.c:230-257 | the 64-bit accumulation gives the value and rest of the grammar, or the overflow it reports |
| `Reader.Reader.ReadNumber` | src/reader.c:225-279 | the grammar's fixnum and rest, or exactly its error |
| `Reader.Reader.ReadHash` | src/reader.c:205-223 | #t and #f before a terminator, everything else a syntax error |
| `Reader.Reader.ReadSymbol` | src/reader.c:281-288 | the interned index names exactly the bytes up to the next terminator; NOMEM only when a request was refused; known indices keep their names |
| `Reader.Reader.ReadAtom` | src/reader.c:452-471 | dispatch on the first byte (and the next after a sign) agrees with the grammar; NOMEM only when a request was refused |
| `Reader.Reader.ReadForm` | src/reader.c:434-471 | under any collection schedule: the value unfolds to the grammar's tree, in cells that were not reachable before; status and position are the grammar's (or NOMEM, only when a request was refused); everything rooted is untouched and the protect stack is as on entry, on every path |
| `Reader.Reader.ReadQuote` | src/reader.c:396-432 | the same for a quotation, which costs no depth; a lone quote is READ_TRUNCATED; NOMEM only when a request was refused |
| `Reader.Reader.BuildQuote` | src/reader.c:412-431 | both conses of (quote form) keep form and everything rooted intact under any collection schedule; NOMEM only when a request was refused |
| `Reader.Reader.ReadList` | src/reader.c:291-305 | depth is counted up for the list, also the empty one, and back on success; NOMEM only when a request was refused |
| `Reader.Reader.ReadItems` | src/reader.c:307-394 | the list built behind the dummy head unfolds to the grammar's list, the head is off the protect stack on every path, no cell in flight is lost; NOMEM only when a request was refused |
| `Reader.Reader.ReadElement` | src/reader.c:366-387 | reading one more element, allocating its cell and linking it extends the list by exactly that element; on failure the stack is cut back; NOMEM only when a request was refused |
| `Reader.Reader.ReadDotted` | src/reader.c:333-363 | the form after the dot becomes the tail and must be followed by the closing parenthesis; errors as in the grammar; NOMEM only when a request was refused |
| `Reader.Reader.ReadAll` | src/state.c:252-259 | the reading half of the loop yields the forms of the whole input in order, up to the end or the first error; NOMEM only when a request was refused |
| `Inflight.HoledRetained` | src/reader.c:307-318 | a half-built list whose head is rooted comes through any collection unchanged |
| `Inflight.PatchWithCell` | src/reader.c:385-386 | linking a fresh cell behind the tail of a half-built list extends it by the new element and disturbs no other |
| `Inflight.AfterCell` | src/reader.c:372-387 | allocating the element's cell, with any collection in it, and linking it keeps the list and everything the caller had rooted |
| `Inflight.AfterDot` | src/reader.c:345-354 | storing the dotted tail completes the list with that tail and makes no cycle |
| `Printer.PrintBuf.Sink` | src/printer.c:256-285 | the buffer then holds the old contents followed by the chunk, with room for a NUL; NOMEM exactly when the larger buffer was refused or too large, and then the contents are as before |
| `Printer.PrintBuf.Terminate` | src/printer.c:296-303 | a NUL follows the contents, also when nothing was ever written; NOMEM only for that first buffer, refused |
| `Printer.EmitRuns` | src/printer.c:64-117 | batching plain bytes into runs writes the same text as escaping byte by byte; NOMEM exactly when the buffer's growth was refused |
| `Printer.EmitStringQuoted` | src/printer.c:58-119 | the quoted text of the string; NOMEM exactly when the buffer's growth was refused |
| `Printer.Printer.PrintValue` | src/printer.c:162-177 | appends exactly the text of the value's tree; PRINT_DEPTH only when the tree's height exceeds what is left of the limit, and never OK then; the depth counter is restored on every path; NOMEM exactly when the buffer's growth was refused |
| `Printer.Printer.PrintPairContents` | src/printer.c:130-160 | the loop along cdr writes the elements of a proper, improper or one-element list as the tree's text has them; NOMEM exactly when the buffer's growth was refused |
| `Printer.PrintToAlloc` | src/printer.c:287-309 | for every value of a valid heap: its text in a NUL-terminated buffer of the right length, or PRINT_DEPTH exactly when too high, or NOMEM exactly when the buffer was refused |
| `Reread.WriteAndReread` | src/printer.c:10-11 | printing a rooted value and reading the text back in the same heap gives a second copy of its tree in fresh cells, original intact, whenever the tree is one that reads, no request was refused and the print limit suffices |
| `Stability.EvalStable` | src/eval.c:670-681 | more fuel and a higher depth limit keep the outcome of every nested evaluation that settled |
| `Stability.DepthLimitIsTransparent` | src/eval.c:670-681 | a run that ends in anything but EVAL_DEPTH has the same status, value and store under every higher limit, and under none |
| `Stability.RunsIsFunctional` | src/eval.c:683-883 | a form has at most one outcome, whatever the fuel |
| `Evaluator.Interpreter.MlEval` | src/eval.c:670-681 | for every form, state and budget: protect stack and depth counter are restored on every exit; status, value and final store are those of the direct evaluator under the remaining depth, or NOMEM when a request was refused meanwhile; the budget is used up, unless a request was refused, exactly where the direct evaluator runs out of the same fuel; where program and store are narrow the stack grows by at most the space of the remaining depth |
| `Evaluator.Interpreter.EvalBody` | src/eval.c:683-883 | the loop that rewrites form and environment in two protect slots agrees with the direct evaluator in the same way, without end included; at every iteration the protect height is entry plus two and the depth unchanged |
| `Evaluator.Interpreter.Step` | src/eval.c:698-883 | one iteration: a value, an error, a form and environment whose evaluation is that of the current ones, or a budget used up in a nested evaluation |
| `Evaluator.Interpreter.HandleIf` | src/eval.c:298-327 | test, branch and error cases of the direct evaluator; the branch is left to the loop; NOMEM only when a request was refused |
| `Evaluator.Interpreter.HandleDefine` | src/eval.c:329-395 | variable and procedure definitions, with the value protected while the frame may grow; NOMEM only when a request was refused |
| `Evaluator.Interpreter.HandleSetBang` | src/eval.c:397-433 | assignment to the visible binding or UNBOUND; NOMEM only when a request was refused |
| `Evaluator.Interpreter.ClosureArity` | src/eval.c:151-175 | walks proper and improper parameter lists to the number of required parameters |
| `Evaluator.Interpreter.HandleLambda` | src/eval.c:435-456 | closure creation and its syntax errors; NOMEM only when a request was refused |
| `Evaluator.Interpreter.BeginTco` | src/eval.c:459-486 | all forms but the last are evaluated in order, the last is left to the loop; NOMEM only when a request was refused |
| `Evaluator.Interpreter.HandleAndOr` | src/eval.c:586-620 | operands in order up to the deciding one, the last left to the loop; NOMEM only when a request was refused |
| `Evaluator.Interpreter.HandleCond` | src/eval.c:622-660 | clauses in order, including test-only and else clauses and no match; NOMEM only when a request was refused |
| `Evaluator.Interpreter.HandleLetFamily` | src/eval.c:494-582 | let, let* and letrec in their one frame, with all error cases and the protect stack balanced, as the direct evaluator has them, whose let, let* and letrec are what LetLambda, LetStar and LetRec say; NOMEM only when a request was refused |
| `Evaluator.Interpreter.EvalArgList` | src/eval.c:54-110 | values of the arguments in order, left on top of the protect stack on success and taken off on every error; NOMEM only when a request was refused |
| `Evaluator.Interpreter.BuildList` | src/eval.c:115-145 | the rest-argument list in evaluator terms, its own slot rewritten and removed; NOMEM only when a request was refused |
| `Evaluator.Interpreter.ApplyClosureBind` | src/eval.c:206-269 | the application of the direct evaluator: a fresh frame under the closure's environment, with the bindings that Binding.CallBindsParameters states, or ARITY; NOMEM only when a request was refused |
| `Evaluator.Interpreter.CallProcedure` | src/eval.c:775-882 | operator, arguments and application agree with the direct evaluator; everything protected on the way is taken off; NOMEM only when a request was refused |
| `Evaluator.Interpreter.EvalForms` | src/state.c:252-280 | the forms of a source are evaluated in order, each protected while it runs; the first error is final; the last value is the result; NOMEM only when a request was refused |
| `Source.EvalSource` | src/state.c:226-271 | the loop of microlisp_eval from the bytes of a source on: forms are read and evaluated in turn; the outcome is the first failing evaluation, else the error reading stops with, else the last value, with the store of exactly the forms evaluated; both protect stacks restored; NOMEM only when a request was refused |
| `Source.OutcomesInTurn` | src/state.c:252-280 | each form runs in the store the one before it left; when all end, the last value or the error the text stops with is the outcome, otherwise the first failure, with nothing after it run |
| `Source.LoadedIsTheForm` | src/state.c:252-271 | the code that runs is the form that was read, atom by atom and pair by pair, in new cells no two of which are the same |
| `Source.FormsRunBeforeTheError` | src/state.c:252-271 | a source that stops with a read error has the effects of the forms before it, as a program of their own, and then fails with that error, unless one of them failed |
| `Source.LoadedIsStable` | src/state.c:252-271 | a form means the same code however many names are interned after it |
| `TailCalls.LoopFinishesAtDepthThree` | src/eval.c:860-874 | (loop k) finishes for every non-negative fixnum under depth limit 3 in every environment that binds loop to the closure of (if (= n 0) 'done (loop (- n 1))) and = and - to the primitives, wherever the cells of call and body are (section 3.5 of R5RS) |
| `TailCalls.LoopNeedsDepthThree` | src/eval.c:670-681 | under any smaller limit every such call ends in EVAL_DEPTH, for every k |
| `TailCalls.DefinitionMakesReady` | src/eval.c:329-395 | the store the define form leaves binds loop to that closure and still has = and - as the primitives |
| `TailCalls.ProgramFinishesAtDepthThree` | src/eval.c:683-883 | evaluating the define form and then the call, each under depth limit 3 and in an environment where = and - are the primitives, ends with the symbol done for every non-negative fixnum |
| `ConstantSpace.EveryStateHasWidth` | src/eval.c:670-883 | every form and store have such a width |
| `ConstantSpace.EvalWithin` | src/eval.c:670-883 | any evaluation, however long and however it ends, gets the protect stack at most (remaining depth) * (width + 8) slots above its height on entry, where no list in the form or in a procedure of the store is longer than width + 1 |
| `Width.EvalFits` | src/eval.c:683-883 | evaluation of a form over a store, both without lists and procedures wider than w, leaves a value and a store without wider procedures |
| `ConstantSpace.RunLoop` | src/eval.c:670-883 | running (loop k) on the interpreter at depth limit 3 returns the symbol done, or NOMEM after a refused request, and for every k the protect stack never gets more than 3 * (width + 8) slots above its height on entry |
| `ConstantSpace.SpinningHasNoOutcome` | src/eval.c:843-874 | (f) with (define (f) (f)) has no outcome, for every fuel and every depth limit above zero |
| `ConstantSpace.Spin` | src/eval.c:683-883 | run on the interpreter, that call never gives a value or an error of the language: it uses up every budget or ends in NOMEM after a refused request, in bounded protect stack and with everything restored |
| `Programs.StoredProgramFinishes` | src/eval.c:683-883 | the same for the program as data in any heap, at whatever addresses, spelled with any symbol table that has the keywords in their places |
| `Derived.AndIsNestedIf` | src/eval.c:586-620 | and over any proper list, the cells of either form anywhere, has exactly the outcomes of its nested if, under every depth limit (section 7.3 of R5RS) |
| `Derived.CondIsExpansion` | src/eval.c:622-660 | cond over any proper list of clauses, the cells of either form anywhere, has exactly the outcomes of its nest of if, or and begin, under every depth limit |
| `Derived.OrStopsAtFirstTrue` | src/eval.c:586-620 | or evaluates its operands once each from the left and stops at the first that is not false |
| `LetLambda.LetIsApplication` | src/eval.c:494-582 | under every depth limit above zero, under none, and at zero when there is a binding: every outcome of a let is an outcome of an application of its lambda expression up to a renaming of fresh addresses, and the other way round, wherever the cells of either form are, duplicate names and errors part-way included (section 4.2.2 of R5RS) |
| `LetLambda.EmptyLetAtDepthZero` | src/eval.c:494-582 | the one case left: at depth zero (let () 1) gives 1 and ((lambda () 1)) EVAL_DEPTH |
| `LetLambda.EvalKeepsScoped` | src/eval.c:683-883 | evaluation from a state without dangling references and with acyclic frame chains ends in such a state |
| `LetStar.LetStarIsInternalDefines` | src/eval.c:494-582 | with unlimited depth, let* has exactly the outcomes, stores included, of a let without bindings whose body starts with one define per binding: one frame, initialisers seeing the names bound before and after them, duplicate names and malformed bindings included |
| `LetStar.LetStarCostsALevelLess` | src/eval.c:494-582 | under a finite limit, every outcome of that block but EVAL_DEPTH is the let*'s under the same limit, and every such outcome of the let* is the block's with one level more |
| `LetRec.LetrecIsInternalDefines` | src/eval.c:494-582 | with unlimited depth, letrec has exactly the outcomes, stores included, of a let without bindings whose body first defines every name as (if #f #f), then defines each as its initialiser, and goes on with the body: recursive and mutually recursive procedures and duplicate names included |
| `LetRec.LetrecCostsALevelLess` | src/eval.c:494-582 | under a finite limit, every outcome of that block but EVAL_DEPTH is the letrec's under the same limit, and every such outcome of the letrec is the block's under every higher limit from three on |
| `LetRec.MalformedLetrec` | src/eval.c:517-539 | a binding that is not (name expression), anywhere in the list, is a syntax error before any initialiser runs: no fuel or depth is used, no object allocated, every older frame as it was |
| `LetRec.MalformedFirstBinding` | src/eval.c:541-573 | in let and let* a first binding that is not (name expression) is a syntax error with nothing run, no object allocated and every older frame as it was |
| `LetRec.MalformedLetForm` | src/eval.c:494-516 | an improper binding list, or a body that is missing or improper, is a syntax error that leaves the store as it was, for all three forms |
| `Binding.CallBindsParameters` | src/eval.c:206-269 | ARITY, with nothing changed, exactly when the number of arguments does not fit; otherwise the body runs in a new frame under the closure's environment in which each parameter is its argument, the last one where a name is repeated, the rest parameter is a proper list of exactly the arguments after the required ones in fresh cells, and every other name means what it meant there |
| `Binding.LambdaTakes` | src/eval.c:151-204 | a lambda expression is a closure over its environment with exactly the parameters listed, proper, dotted or a single name; any other parameter list, or a missing or improper body, is a syntax error |
| `Laws.SetStoresTheValue` | src/eval.c:397-433 | after set! the name the environment sees has the initialiser's value and no other binding has changed; UNBOUND, with nothing created, when it sees none |
| `Laws.DefineBindsTheValue` | src/eval.c:329-395 | after define the environment's own frame binds the name to the initialiser's value; every other name is as it was, seen from anywhere |
| `Laws.DefinitionIsLambda` | src/eval.c:358-394 | (define (f . params) . body) is (define f (lambda params . body)), syntax errors included |
| `Laws.IfChooses` | src/eval.c:298-327 | only #f selects the second branch, and without one the result is the unspecified value exactly when the test gives #f |
| `Laws.SimpleForms` | src/eval.c:287-296 | a symbol is the value of its innermost binding or UNBOUND, other atoms are themselves, a quotation is its datum |
| `Laws.CallInOrder` | src/eval.c:775-882 | a call of any number of operands evaluates the operator, then the operands from the left, each in the store of the one before, then applies; the first failure is the call's |
| `Laws.BodyInOrder` | src/eval.c:459-492 | a body or begin of any length evaluates its forms in order, each in the store the one before left, with the last in tail position; the first failure ends it; an improper list of forms is a syntax error and an empty begin unspecified |
| `Laws.LogicInOrder` | src/eval.c:586-620 | and and or over any number of operands stop at the first that decides, with its value, and have the last in tail position; (and) is #t, (or) is #f, an improper operand list a syntax error |
| `Laws.MalformedForms` | src/eval.c:287-456 | the shapes of quote, if, set!, define, lambda and cond outside which they are syntax errors, with nothing evaluated |
| `Laws.NestNeedsItsDepth` | src/eval.c:670-681 | k calls, one inside the other, have their value under every depth limit from k on and are EVAL_DEPTH under every smaller one |
| `Laws.PrimitiveArity` | src/primitives.c:490-524 | which procedures take any number of arguments, at least one, at least two, exactly one or exactly two; ARITY otherwise, and TYPE for what is no procedure |
| `Laws.ComparisonLaws` | src/primitives.c:210-246 | = < > <= >= on numbers: all equal, increasing, decreasing, never falling, never rising |
| `Laws.ChainWithStranger` | src/primitives.c:210-246 | a chain that meets a non-number is false if it broke before, else a TYPE error |
| `Laws.ArithmeticLaws` | src/primitives.c:49-106 | + and * called as procedures: sum and product exactly when every prefix is in range, an error otherwise |
| `Laws.DifferenceLaws` | src/primitives.c:65-143 | - and / of several numbers: the first less the sum of the others, its truncated quotient by their product |
| `Laws.UnaryLaws` | src/primitives.c:65-143 | - of one argument negates, / gives its reciprocal, with their errors |
| `Laws.IntegerDivisionLaws` | src/primitives.c:145-202 | quotient, remainder and modulo called as procedures: their identities, signs and errors |
| `Laws.PairLaws` | src/primitives.c:268-291 | car and cdr undo cons, whose pair is new; of anything else they are TYPE errors |
| `Laws.ListLaws` | src/primitives.c:293-333 | list gives a new proper list of its arguments, and length counts them; TYPE for an improper list |
| `Laws.EqualityLaws` | src/primitives.c:354-378 | eq?, eqv? and equal? as called: identity, also strings of the same bytes, structure; EQUAL_DEPTH exactly when the walk needs more than the limit |
| `Laws.TypesAreDisjoint` | src/primitives.c:330-388 | no value satisfies two type predicates (section 3.2 of R5RS), and not is true of #f alone |
| `Simulation.RunSim` | src/eval.c:683-883 | evaluation from renamed copies of a state gives renamed copies of the outcome: addresses do not matter |
| `Renaming.SameIsInjective` | src/value.c:19-21 | identity of values is the same on both sides of a renaming |
| `Frames.EnvStore.AllocEnv` | src/gc.c:152-168 | a new empty frame under the given parent, other frames untouched; NOMEM exactly when refused |
| `Frames.EnvStore.EnvGrow` | src/env.c:27-52 | growing preserves names, values and parent; failing, exactly when a request was refused or too large, changes nothing |
| `Frames.EnvStore.EnvDefine` | src/env.c:54-81 | rebinds in this frame or appends, whether or not it grows; NOMEM only for a new name in a full frame whose growth was refused, with no binding changed |
| `Frames.EnvStore.EnvSet` | src/env.c:83-100 | rewrites the binding in the nearest frame that has the name, or UNBOUND with nothing changed |
| `Frames.EnvStore.EnvLookup` | src/env.c:102-119 | the value of the nearest binding, or UNBOUND |
| `Frames.DefineIsMapUpdate` | src/env.c:54-81 | definition is update of the frame's map at one name |
| `ScopedMaps.RunRefinesScopes` | src/env.c:27-119 | across any mix of frame creations, growths, definitions and assignments, names stay unique per frame, arrays fit, parents stay older, and the frames implement the scopes that the same operations give on finite maps |
| `ScopedMaps.RunLooksUpScopes` | src/env.c:102-119 | after any run from no frames, lookup along parallel arrays and parent links finds what the scopes bind |
| `ScopedMaps.LookupIsFind` | src/env.c:102-119 | lookup by linear search is lookup in the maps the frames implement |
| `Frames.DefineAffectsOneName` | src/env.c:54-81 | seen from any environment, a definition changes no name but its own |
| `Frames.SetChangesTheVisibleBinding` | src/env.c:83-100 | an assignment succeeds exactly when lookup does and changes exactly the binding lookup finds, seen from every environment |
| `EnvHeap.EnvGrow` | src/env.c:27-52 | in the collected heap: the frame's two arrays are of twice the capacity with the same contents; nothing changes when a request was refused, which is exactly when it fails |
| `EnvHeap.EnvDefine` | src/env.c:54-81 | in the collected heap: the frame at env has the name bound to the value, replaced in its slot or appended, and no other object changes; INVALID_ARG exactly for a word that is no frame or a name that is no symbol; NOMEM only for a new name in a full frame whose growth was refused |
| `EnvHeap.EnvSet` | src/env.c:83-100 | in the collected heap: the walk along parents, which needs no bound because chains of a valid heap end, rewrites the value in the innermost frame that has the name and changes no other object; UNBOUND or INVALID_ARG otherwise, with nothing changed |
| `EnvHeap.EnvLookup` | src/env.c:102-119 | in the collected heap: the value in the innermost frame that has the name, UNBOUND exactly when none has it |
| `EnvRefinement.LookupIsMirrored` | src/env.c:102-119 | lookup along addresses finds what lookup in the numbered frames of the evaluator finds, so the older-parent test of the latter never fails on frames that come from a heap |
| `EnvRefinement.BindIsMirrored` | src/env.c:54-81 | binding a name in the heap is defining it in the numbered frames, which go on mirroring the heap |
| `EnvRefinement.HeapLooksUpScopes` | src/env.c:27-119 | from an empty heap, across any mix of collections, allocations at new or recycled addresses, patches, growths, definitions and assignments: lookup from any live frame finds what the scoped maps bind |
| `LetRooting.FormSurvives` | src/eval.c:494-582 | a tree rooted other than through a binding is the same tree, still rooted, after any steps that keep rooted objects and change frames only by adding or replacing bindings |
| `LetRooting.Evaluate` | src/eval.c:670-681 | a nested evaluation taken as any sequence of collections, allocations, field fetches, definitions and assignments on rooted values: protect stack as on entry, every rooted object, parent chain and form in place, no frame loses a name, the value allocated |
| `LetRooting.BindOne` | src/eval.c:541-573 | one binding: SYNTAX when it is not (name expression), else the initialiser evaluated with the frame rooted, its value rooted while the frame's arrays may grow, and the name bound in that frame |
| `LetRooting.BindAll` | src/eval.c:517-576 | the walk over the bindings in the heap, nested evaluations in between: the frame stays allocated and gets every name of the list as it was on entry, in one pass that no rebinding can shorten; NOMEM only when a request was refused |
| `LetRooting.LetForm` | src/eval.c:494-582 | when the body's last form is left to the loop, the new frame is allocated, its parent is the environment of the form, it binds every name of the list, every value it holds is allocated, everything rooted before is in place and the protect stack is as on entry |
| `Equality.Comparer.ValueEqual` | src/value.c:35-74 | the bounded comparison under the remaining depth; the counter is restored on every path |
| `Equality.BoundedEqualIsExact` | src/value.c:35-74 | an answer is given exactly when the budget exceeds the depth the walk needs, and it is structural equality (section 6.1 of R5RS) |
| `Equality.LowTreesAlwaysCompare` | src/value.c:35-74 | the depth the walk needs is at most the height of either tree, so one low tree suffices for an answer |
| `Equality.CopiesCompare` | src/value.c:35-74 | a list of atoms and its copy compare equal under every limit above their length, and under no other does the comparison answer |
| `Equality.BoundedEqualSymmetric` | src/value.c:35-74 | status and answer do not depend on the order of the arguments |
| `Equality.BoundedEqualTransitive` | src/value.c:35-74 | positive answers compose, whatever the budgets they were got under, wherever the third comparison gets an answer |
| `Representation.IdentityIsSameWord` | src/value.c:19-21 | with addresses as identities, eq? on the evaluator's values is sameness of the heap's tagged words |
| `Representation.EqualIsSameTree` | src/value.c:35-74 | equal? holds between two readable heap values, also of different moments, exactly when they unfold to the same tree; so the copy that reading back gives is equal? to the original |
| `Equality.EqvIsStructural` | src/value.c:23-33 | whatever eqv? accepts is structurally equal |
| `Terms.ProperListLength` | src/eval.c:36-47 | in evaluator terms: length of a proper list, and rejection of every other value |
| `Arith.PrimAdd` | src/primitives.c:49-63 | a value if and only if every prefix of the arguments is of fixnums whose sum is in range, and it is then the sum of the arguments; computed by the loop over 64-bit values |
| `Arith.PrimSub` | src/primitives.c:65-90 | one argument negated if that is in range; otherwise a value if and only if every difference along the way is in range, and it is then the first argument less the sum of the others; TYPE when the first is no number |
| `Arith.PrimMul` | src/primitives.c:92-106 | a value if and only if every prefix of the arguments is of fixnums whose product is in range, and it is then the product of the arguments, 1 of none; computed by the loop with 64-bit overflow checks |
| `Arith.FoldIsExact` | src/primitives.c:41-106 | the exact integer result if and only if all arguments are fixnums and every prefix result lies in [-2^59, 2^59-1] |
| `Arith.FoldFailure` | src/primitives.c:41-106 | the status of a failure is that of the first argument that is no fixnum or takes the result out of range |
| `Arith.PrimDiv` | src/primitives.c:110-143 | the truncated reciprocal of one argument other than 0; otherwise a value if and only if every divisor is a fixnum other than 0 and every quotient along the way is in range, and it is then the first argument divided by the product of the others, truncated; TYPE when the first is no number |
| `Arith.DivIsByProduct` | src/primitives.c:110-143 | a successful (/ a b1 ... bn) is the truncated quotient of a by the product of the b's |
| `Arith.DivFailure` | src/primitives.c:110-143 | the status of a failing division is that of the first divisor that is no fixnum, is zero or takes the quotient out of range |
| `Arith.DivOverflowsOnlyAtMin` | src/primitives.c:110-143 | a fixnum quotient leaves the range only for -2^59 divided by -1 |
| `Arith.PrimQuotient` | src/primitives.c:145-162 | truncated quotient, TYPE, DIV_ZERO or OVERFLOW |
| `Arith.PrimRemainder` | src/primitives.c:164-182 | remainder with the sign of the dividend |
| `Arith.PrimModulo` | src/primitives.c:184-202 | modulo with the sign of the divisor, corrected from the remainder |
| `Arith.DivisionLaws` | src/primitives.c:145-202 | a = b*quotient + remainder, bounds and signs of remainder and modulo (section 6.2.5 of R5RS) |
| `Arith.CmpChain` | src/primitives.c:210-246 | of numbers: whether they are all equal, increasing, decreasing, never fall or never rise; false at the first neighbours out of order, without looking further; TYPE at a non-number met before that |
| `Arith.ChainIsPairwise` | src/primitives.c:210-246 | a chain of fixnums holds exactly when every pair of arguments, not only neighbours, is in order |
| `Arith.TagRoundTrip` | src/microlisp_internal.h:72-88 | decoding undoes encoding exactly on the payload's range, which includes every fixnum |

## Left out

- Collection during evaluation: the evaluator's pairs and strings are trees that
  carry an identity, its frames live in a store that never reclaims. That the
  whole evaluator is safe under collection does not follow from the code:
  `apply_closure_bind` takes the new frame off the protect stack
  (`src/eval.c:267`) before `begin_tco` evaluates body forms in it.
- Evaluator.Interpreter.MlEval: when the allocator fails (NOMEM) the contract fixes the protect stack and the depth counter, not the partial effects on the store.
- LetStar.LetStarIsInternalDefines: that `let*` is a nest of `let`s (section 4.2.2 of R5RS) is not claimed: an initialiser's closure sees the names bound after it.
- Reader.Reader.ReadAll: the reading half alone; `Source.EvalSource` has the evaluations between the forms.
- Source.EvalSource: each form is copied from the reader's heap into the evaluator's terms, so reading and evaluation do not share one heap; the argument checks before the loop and the printing of the last value after it are left out.
- Frames.EnvStore.EnvSet: the walk also ends at a parent that is not older, a test the C code lacks; `EnvHeap.EnvSet` is the walk without it, and `EnvRefinement` shows that it never fails on frames of a heap.
- Frames.EnvStore.EnvLookup: the same test; `EnvHeap.EnvLookup` is the walk without it.
- Reader.Reader.ReadForm: line and column bookkeeping is not modelled, and after an error the reader's position is unspecified, because no caller reads on.
- Arrays that C grows by copying (symbol table, protect stack, worklist, frame
  arrays, string scratch buffer) are sequences with a capacity; only the print
  buffer and the argument vector are real arrays.
- LetRooting.Evaluate: a nested evaluation is any sequence of actions on rooted values, not the evaluator's own run; that the evaluator's heap traffic is such a sequence is not proved.
- LetRooting.BindOne: which value the initialiser has is not said, only that the value its evaluation returned is bound and rooted; `Evaluator.Interpreter.HandleLetFamily` has the values.
- LetRooting.BindAll: the same.
- LetRooting.LetForm: the same.
- The rooting inside `eval_arg_list` is proved as balance of the protect stack,
  not over the collected heap.
- Error message text, line and column of errors, version and status strings.
- `display`, `write`, `newline`, `error`, output flushing, the REPL, the command
  line tool, exit codes and signals: input and output.
- Allocator hooks beyond granting or refusing a request, pointer alignment, and
  raw pointer casts: values are a datatype; only the fixnum encoding is at the
  level of bits.
- The binding of the primitives' names and the interning of the special forms at
  start-up, and destruction other than freeing all objects.
- Primitive names are taken to hold no NUL byte, as the C string literals do.
