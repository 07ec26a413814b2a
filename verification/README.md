# Boot ROM, runtime heap and testbench: a verified model

This project models the stateful parts of the Control PULP boot software and proves what
they promise, over all inputs, runs and interleavings:

- **zForth** (`boot/zforth/zforth.c`, configured by `boot/zforth-riscv/zfconf.h`): the
  byte dictionary with variable-length cells, the linked list of words, the inner
  interpreter with its two bounded stacks, the compiler, suspension on input and recovery
  from aborts. An abort is a result value.
- **The heap** (`sw/pulp-runtime/kernel/alloc.c`): first fit over an address-sorted free
  list whose headers live in the free memory itself, coalescing, aligned allocation, and
  the byte counts per memory bank that drive power control.
- **Flash boot** (`sw/pulp-runtime/bin/plp_flash_stimuli.py`, `boot/boot_code.c`): the
  image generator with its CRC-32, and the loader, whose own structure lives in the memory
  it loads into and moves out of the way first.
- **S-record boot** (`boot/kk_srec.c`, `boot/boot_code.c`): the character-driven reader and
  the stores its callback makes.
- **UART**: the testbench's oversampling receiver (`tb/tb_sw_axiboot.cpp`), and the
  double-buffered transmit path over the two-deep uDMA queue
  (`boot/zforth-riscv/libc.c`, `boot/zforth-riscv/udma.c`).
- **Numbers** (`boot/zforth-riscv/libc.c`): `strtol`, `__utoa` and `itoa`.

The source changes its state in place, and so do the classes and methods here:
`ZForth.Interpreter`, `Allocator.PosAlloc`, `FlashWriter.FlashImage`, `BootLoader.Loader`,
`SrecReader.Reader`, `UartRx.Uart`, `UartTx.Transmitter` and the methods of `Numbers` and
`Crc`. Each method is proved to compute a function of the old state; the laws are lemmas
about those functions. Machine integers are `int` with the 32-bit wrap-around written out
(`Words`); the CRC register is a `bv32`.

| files | what they hold |
|---|---|
| `Words`, `Divisibility` | machine integers, little-endian images, rounding |
| `ZfCells`, `ZfDictionary`, `ZfMachine`, `ZfEval` | zForth as functions on the dictionary and the machine |
| `ZfTurns`, `ZfWords`, `ZfPrims` | the same in bytes and numbers: each turn of the run loop, what can be typed after booting, what the stack primitives compute |
| `ZfBootstrap`, `ZfCompile`, `ZfSafety`, `ZfBounds`, `ZForth` | the bootstrap, compilation against meaning, what every run keeps, why searches stay in the array and when they end, the interpreter in place |
| `FreeList`, `AllocLaws`, `Banks`, `ChunkMemory`, `BankPower`, `Allocator` | the free list, histories and alignment, bank counts, headers in memory, which banks are switched, the allocator in place |
| `Crc`, `FlashFormat`, `FlashBytes`, `FlashWriter`, `LoaderFit`, `BootLoader` | checksum, image layout, the same in bytes, generator, relocation, loader |
| `Srec`, `SrecRecords`, `SrecBounds`, `SrecStream`, `SrecReader` | the reader as a function, single records in characters, which texts lead it out of its array, whole streams, the reader in place |
| `UartRx`, `UartTx`, `Numbers` | receiver, transmitter, number parsing and printing |

Where code and documentation disagree the code is followed:

- `strtol` commits to a `0x` prefix before it has seen a hexadecimal digit, so on a bare
  `0x` it reports that nothing was parsed where section 7.22.1.4 of ISO/IEC 9899:2011 asks
  for the zero in front of the `x` (`Numbers.ConformsIff` says exactly when they agree).
- `itoa` prints a minus sign in base 10 only, so negative numbers come back from `strtol`
  in no other base (`Numbers.PrintParseRoundTrip`).
- `putchar` compares its argument with the newline before it is cut to a byte, so 266 is
  stored as a newline but does not flush (`UartTx.LineWaitsIff`, `UartTx.DisguisedLineWaits`).
- The last byte of zForth's dictionary cannot be used, and every cell read needs two
  bytes, so one-byte cells in the last two places can be written but not read back
  (`ZfCells.CellsRoundTrip`).
- `pos_alloc_align` frees the tail at `result + size` with `size` not rounded, so the list
  stays in order only for sizes that are multiples of 8
  (`AllocLaws.TakeAlignedCanonicalIff`).
- The flash header reserves 64 bytes an area for entries of 16.
- An S-record with a count of 00 makes no call and resets nothing, so the bytes it brings
  are carried over; after more than 37 of them the next stored digit goes past the array
  (`SrecBounds.ZeroRecordsOverrunIff`, and `SrecBounds.TextOverrunIff` for every text).
- `find_data_fit` passes once over the areas; out of ascending order it can land on one it
  has already passed (`LoaderFit.UnorderedFitOverlaps`, and `LoaderFit.FitClearsIff` for
  every table).
- `!!` checks nothing: what it may store where without harm is `ZfSafety.PokeHarmless`. One
  store can make a word link to itself, and then searches never end (`ZfBounds.PokeLoops`).
- `find_word` compares a name without checking that it fits before the end of the array. It
  need not: the last byte is 0 and stays so, and no name holds a 0
  (`ZfBounds.SearchStaysInside`, `ZfBounds.EvalKeepsSealed`).

## Model

| member | source | states |
|---|---|---|
| ZfCells.PutCellIsWrite | boot/zforth/zforth.c:219-293 | a cell store completes exactly when its encoding ends before the last dictionary byte and has then put the encoding there and nothing else; an abort has changed at most the marker byte |
| ZfCells.GetEncoded | boot/zforth/zforth.c:296-342 | a stored cell reads back with its value and its length |
| ZfCells.EncodePrefixFree | boot/zforth/zforth.c:237-246 | no cell's encoding is a prefix of another's |
| ZfCells.CellsRoundTrip | boot/zforth/zforth.c:255-326 | any list of cells stored consecutively reads back as the same list with the same lengths exactly when the last one starts where two bytes can be read; otherwise reading aborts |
| ZfTurns.CellRead | boot/zforth/zforth.c:296-326 | reading a cell gives what its bytes say, one below 128, six bits and a byte, or 255 and a little-endian word, or aborts where these cannot be fetched |
| ZfTurns.StoredLies | boot/zforth/zforth.c:219-293 | a stored cell lies there in that form and nothing else has changed |
| ZfTurns.CellWidth | boot/zforth/zforth.c:237-246 | a cell takes one byte from 0 to 127, two up to 16383, and five otherwise |
| ZfDictionary.FindSound | boot/zforth/zforth.c:407-431 | a found word has a readable header, and its code starts right after a copy of the name looked for |
| ZfDictionary.CreateEffect | boot/zforth/zforth.c:390-400 | defining a word appends its header at HERE or, when the dictionary fills up, leaves everything below HERE and LATEST alone |
| ZfDictionary.CreateFinds | boot/zforth/zforth.c:390-431 | complete or cut short, `create` keeps the chain of words intact, and afterwards the new name finds the new word and every other name what it found before |
| ZfDictionary.MakeImmediateEffect | boot/zforth/zforth.c:438-443 | `make_immediate` never aborts, rewrites one byte, keeps the encoded length, and sets the flag without touching name, length or kind |
| ZfDictionary.MakeImmediateFinds | boot/zforth/zforth.c:438-443 | and every lookup still gives what it gave |
| ZfDictionary.TraceFinds | boot/zforth/zforth.c:350-443 | after any sequence of `create`, `dict_add_*` and `make_immediate`, some cut short, links from LATEST strictly decrease to 0 and each name finds its newest complete definition |
| ZfMachine.RunMonotone | boot/zforth/zforth.c:450-482 | a run that ends does not depend on the bound on its turns |
| ZfTurns.Literal | boot/zforth/zforth.c:546-549 | a turn of the run loop at the operation 1 (`lit`) or 20 (`'`) pushes the operand behind it and goes on behind that |
| ZfTurns.Jump | boot/zforth/zforth.c:661-665 | at 18 (`jmp`) it goes to the address given by the operand |
| ZfTurns.JumpIfZero | boot/zforth/zforth.c:667-673 | at 19 (`jmp0`) it goes there exactly when the cell it takes is 0, and behind the operand otherwise |
| ZfTurns.TextLiteral | boot/zforth/zforth.c:713-718 | at 29 (`lits`) it pushes the address behind the operand and the operand, and skips that many bytes |
| ZfTurns.NoOperand | boot/zforth/zforth.c:546-718 | all of these abort where no operand can be read |
| ZfTurns.ToReturn | boot/zforth/zforth.c:693-695 | at 22 (`>r`) a cell moves to the return stack, unless it is full |
| ZfTurns.FromReturn | boot/zforth/zforth.c:697-699 | at 23 (`r>`) one moves back |
| ZfTurns.ThereAndBack | boot/zforth/zforth.c:693-699 | `>r r>` leaves both stacks as they were |
| ZfTurns.PickReturn | boot/zforth/zforth.c:627-630 | at 12 (`pickr`) the a-th cell of the return stack is copied |
| ZfTurns.Exit | boot/zforth/zforth.c:551-553 | at 0 (`exit`) it goes where the return stack says |
| ZfTurns.CallTurn | boot/zforth/zforth.c:474-478 | a cell above 34 is called: the address behind it goes to the return stack |
| ZfTurns.Key | boot/zforth/zforth.c:705-711 | at 28 (`key`) it asks for a character, and pushes it when it comes |
| ZfTurns.Comment | boot/zforth/zforth.c:687-691 | at 21 (`(`) it asks for characters until a closing parenthesis |
| ZfTurns.StoreVariable | boot/zforth/zforth.c:568-577 | at 15 (`!!`) with an address below 5 it stores that one of the first five words and nothing else, for any size |
| ZfTurns.StoreCell | boot/zforth/zforth.c:568-577 | for other addresses it stores a cell, or aborts by a bad size before a bad address |
| ZfTurns.FetchCell | boot/zforth/zforth.c:555-566 | at 14 (`@@`) it pushes the value of the user variable or cell at an address, at 30 (`##`) its length |
| ZfTurns.StoreThenFetch | boot/zforth/zforth.c:561-577 | `!!` and later `@@` at one address gives the value stored, user variable or not |
| ZfTurns.NoFetch | boot/zforth/zforth.c:555-566 | where nothing can be fetched they abort, by a bad address before a bad size |
| ZfTurns.AppendCell | boot/zforth/zforth.c:681-685 | at 27 (`,,`) a cell is appended at HERE and HERE moves behind it |
| ZfTurns.Colon | boot/zforth/zforth.c:527-534 | at 3 (`:`) it asks for a word, makes its header when it comes and sets COMPILING to 1 |
| ZfTurns.Semicolon | boot/zforth/zforth.c:540-544 | at 4 (`;`) one byte 0 is appended and COMPILING is 0 |
| ZfTurns.Immediate | boot/zforth/zforth.c:657-659 | at 13 (`immediate`) the bit of value 64 is set in the newest header's first byte and nothing else changes |
| ZfTurns.OutsideWorld | boot/zforth/zforth.c:579-620 | at 25, 32 and 33 (`sys`, `p@`, `p!`) control leaves the model, once their cells are there |
| ZfTurns.EmptyStack | boot/zforth/zforth.c:173-213 | `exit` and `r>` abort on an empty return stack, `>r` and `pickr` on an empty data stack |
| ZfTurns.TooFewForMemory | boot/zforth/zforth.c:555-685 | `@@`, `##` and `,,` need two cells, `!!` three |
| ZfTurns.NoOperation | boot/zforth/zforth.c:463-726 | 34 itself is no operation and aborts |
| ZfEval.FindWordIsFind | boot/zforth/zforth.c:407-431 | in a well-formed dictionary the search loop ends without aborting and finds the newest word of the name |
| ZfEval.HandleIsHandleWord | boot/zforth/zforth.c:736-787 | handling a word over arbitrary bytes agrees with handling it through the newest definition |
| ZfBounds.ComparesInside | boot/zforth-riscv/libc.c:250-256 | `memcmp` of a name with any place in the array stops at a difference before the array ends, whenever the last byte is 0 |
| ZfBounds.LateNameDiffers | boot/zforth/zforth.c:418-424 | a header whose name would reach the end of the array or pass it matches nothing: the search goes on to its link |
| ZfBounds.SearchStaysInside | boot/zforth/zforth.c:407-431 | so no search, from any header address over any other bytes, reads outside the array |
| ZfBounds.PrimKeepsLast | boot/zforth/zforth.c:219-226 | the last byte is kept by every primitive, `!!` with any value, address and size included, completed or aborted |
| ZfBounds.RunKeepsLast | boot/zforth/zforth.c:450-482 | and by every run, from any ip and any stacks |
| ZfBounds.EvalKeepsSealed | boot/zforth/zforth.c:736-911 | and by evaluating any text, recovery from aborts included, so that no evaluation ever compares past the end |
| ZfBounds.BootedKeepsLast | boot/zforth/zforth.c:826-882 | and by initialisation and bootstrap, so it holds from zeroed static storage on |
| ZfBounds.LostForever | boot/zforth/zforth.c:407-431 | a search that is still going after as many turns as there are bytes never ends, because one that ends passes no place twice |
| ZfBounds.PokeLoops | boot/zforth/zforth.c:568-577 | one `!!` that stores a word's address as its own link makes searches endless |
| ZfCompile.RunItems | boot/zforth/zforth.c:450-482 | running compiled literals, primitives and nested calls changes the data stack as the list means, with the same abort, and returns behind them |
| ZfCompile.InterpretWords | boot/zforth/zforth.c:736-787 | interpreting words one by one does what the list they stand for means |
| ZfCompile.CompileWords | boot/zforth/zforth.c:745-765 | in compile mode words append exactly their cells to the definition and touch no stack |
| ZfCompile.DefineWord | boot/zforth/zforth.c:736-787 | `: n words ;` defines n with that body, leaves all older words alone and the data stack as it was |
| ZfCompile.CompilationPreservesMeaning | boot/zforth/zforth.c:450-787 | for every body of literals, stack primitives and words built from them, n after `: n body ;` gives the same data stack or the same abort as interpreting the body word by word, and n may itself be used in later bodies |
| ZfCompile.EvalText | boot/zforth/zforth.c:795-911 | evaluating any text handles the words it splits into, in turn, and recovers at the first abort |
| ZfCompile.SplitWritten | boot/zforth/zforth.c:795-816 | words written with any white space around them, the last ended by white space or by the terminator, split into those words |
| ZfCompile.EvaluationAgrees | boot/zforth/zforth.c:893-911 | the same on any texts that split into the definition, its use and its body: `zf_eval` of the use and of the body return the same code and the same data stack |
| ZfBootstrap.NamesDistinct | boot/zforth/zforth.c:29-90 | no two of the primitives and user variables share a name |
| ZfBootstrap.BootstrapEstablishes | boot/zforth/zforth.c:826-882 | from any memory with POSTPONE 0 the bootstrap completes, and every primitive resolves to its own operation, every user variable to its number, and no other name is found; the compiler's words are there and HERE is past PRIM_COUNT |
| ZfBootstrap.BootedDefines | boot/zforth/zforth.c:826-882 | after booting, every new name and every body of stack primitives, user variables and literals that fits in the dictionary meet the hypotheses of the compilation result |
| ZfWords.Starts | boot/zforth/zforth.c:826-834 | `zf_init` leaves HERE 20, LATEST and COMPILING 0, TRACE as asked, and everything else alone, as little-endian words at 0, 4, 8 and 12 |
| ZfWords.BootedExists | boot/zforth/zforth.c:826-882 | the booted machines that the rows below are about exist, with any stack |
| ZfWords.FirstWords | boot/zforth/zforth.c:36-53 | after booting, the bytes of `exit lit <0 : ; + -` are found as primitives whose code is the number 0 to 6 and `exit`; of these `;` is immediate |
| ZfWords.SecondWords | boot/zforth/zforth.c:36-53 | likewise `* / % drop dup pickr immediate` with 7 to 13, `immediate` being so itself |
| ZfWords.ThirdWords | boot/zforth/zforth.c:36-53 | `@@ !! swap rot jmp jmp0 '` with 14 to 20 |
| ZfWords.FourthWords | boot/zforth/zforth.c:36-53 | `( >r r> = sys pick ,,` with 21 to 27, `(` being immediate |
| ZfWords.FifthWords | boot/zforth/zforth.c:36-53 | `key lits ## & p@ p!` with 28 to 33 |
| ZfWords.VariableWords | boot/zforth/zforth.c:78-86 | typing `h`, `latest` or `trace` pushes 0, 1 or 2 |
| ZfWords.LastWords | boot/zforth/zforth.c:78-86 | typing `compiling` or `_postpone` pushes 3 or 4 |
| ZfWords.NumberTakes | boot/zforth/zforth.c:776-785 | typing a number with or without sign, in decimal, octal after `0` or hexadecimal after `0x`, pushes its value, confined to 32 bits; no word is in the way |
| ZfWords.WordCompiled | boot/zforth/zforth.c:752-770 | while COMPILING, a word that is not immediate, or any word once POSTPONE is set, is appended at HERE, a primitive as its number and another as its address, and POSTPONE is 0 again |
| ZfWords.WordExecuted | boot/zforth/zforth.c:752-773 | any other word found runs with the return stack holding one 0 |
| ZfPrims.Plus | boot/zforth/zforth.c:609-612 | after booting, `+` turns b a into b + a modulo 2^32, whatever lies below |
| ZfPrims.Minus | boot/zforth/zforth.c:632-635 | `-` into b - a modulo 2^32 |
| ZfPrims.Times | boot/zforth/zforth.c:637-639 | `*` into the product modulo 2^32 |
| ZfPrims.Quotient | boot/zforth/zforth.c:641-647 | `/` into the quotient of b by a rounded towards zero |
| ZfPrims.Remainder | boot/zforth/zforth.c:649-655 | `%` into what is left over, with the sign of b |
| ZfPrims.ZeroDivides | boot/zforth/zforth.c:641-655 | a 0 on top aborts both, noticed before a missing operand |
| ZfPrims.Equals | boot/zforth/zforth.c:701-703 | `=` leaves 1 for equal cells and 0 otherwise |
| ZfPrims.And | boot/zforth/zforth.c:720-722 | `&` leaves the cell whose 32 binary digits are 1 where both have a 1 |
| ZfPrims.Negative | boot/zforth/zforth.c:536-538 | `<0` leaves 1 for a negative cell and 0 otherwise |
| ZfPrims.Swap | boot/zforth/zforth.c:590-593 | `swap` turns b a into a b |
| ZfPrims.Rot | boot/zforth/zforth.c:595-598 | `rot` turns c b a into b a c |
| ZfPrims.Drop | boot/zforth/zforth.c:600-602 | `drop` takes one cell away |
| ZfPrims.Dup | boot/zforth/zforth.c:604-607 | `dup` copies it, and aborts with 32 cells on the stack |
| ZfPrims.Pick | boot/zforth/zforth.c:622-625 | `pick` copies the a-th cell below, from 0, and aborts for a that is negative or too large |
| ZfPrims.TooFew | boot/zforth/zforth.c:173-188 | each of them aborts when it lacks operands |
| ZfPrims.Subtraction | boot/zforth/zforth.c:893-911 | evaluating the text `5 3 -` after booting leaves 2 |
| ZfSafety.PrimKeepsSound | boot/zforth/zforth.c:517-728 | every primitive, completing or aborting, leaves a chain in which lookups end; `!!` when it does no harm, all others always |
| ZfSafety.RunKeepsSound | boot/zforth/zforth.c:450-482 | so does every run, from any ip and any stacks, in which each `!!` does no harm on the stack it finds: it stores a fitting value in a user variable, or outside the header cells |
| ZfSafety.VarStoreIff | boot/zforth/zforth.c:568-577 | storing to a user variable keeps the structure exactly when the new HERE is past the newest word's header and in range, or the new LATEST heads a chain below HERE; the other three can take anything |
| ZfSafety.VarPokeIff | boot/zforth/zforth.c:568-577 | the same on the stack that `!!` finds: for addresses 0 to 4 it leaves the structure intact if and only if the value fits |
| ZfSafety.SparedSound | boot/zforth/zforth.c:255-293 | a cell stored outside HERE, LATEST and every header's cells, in a name perhaps, completed or cut short, leaves the structure intact |
| ZfSafety.SparedStore | boot/zforth/zforth.c:255-293 | outside the names as well, it changes no lookup |
| ZfSafety.PokeAnywhere | boot/zforth/zforth.c:568-577 | `!!` to address 2, 3 or 4 or to HERE and above is always harmless, whatever the value and size |
| ZfSafety.PokeBreaks | boot/zforth/zforth.c:568-577 | one `!!` on the stack 0 0 0 destroys the dictionary's structure |
| ZForth.Interpreter.PutCell | boot/zforth/zforth.c:255-293 | the in-place store leaves the array as the codec says and never writes outside it |
| ZForth.Interpreter.GetCell | boot/zforth/zforth.c:296-326 | the in-place read returns the codec's value and length or the same abort |
| ZForth.Interpreter.Create | boot/zforth/zforth.c:390-400 | the in-place `create` leaves the array as the dictionary function says, also when cut short |
| ZForth.Interpreter.MakeImmediate | boot/zforth/zforth.c:438-443 | likewise for the immediate flag |
| ZForth.Interpreter.SameName | boot/zforth-riscv/libc.c:250-256 | the comparison in place reads byte after byte up to the first difference and never past the array |
| ZForth.Interpreter.FindWord | boot/zforth/zforth.c:407-431 | the search loop over the array returns what the search over its contents gives, whatever the bytes but the last |
| ZForth.Interpreter.Primitive | boot/zforth/zforth.c:517-728 | in place, every primitive takes the machine where the specification does, whose results `ZfTurns` and `ZfPrims` state in bytes and numbers; an abort leaves the dictionary as it then was |
| ZForth.Interpreter.RunLoop | boot/zforth/zforth.c:450-482 | from any bytes, ip and stacks the loop stays within 0..32 on both stacks and inside the array, and computes the specified run |
| ZForth.Interpreter.HandleWord | boot/zforth/zforth.c:736-787 | one word of input in place, in any state that is not waiting for a character |
| ZForth.Interpreter.Evaluate | boot/zforth/zforth.c:893-911 | `zf_eval` in place, up to the text's terminator; it keeps what bounds the comparisons, and after any abort both stacks are empty and COMPILING is 0 |
| ZForth.Interpreter.Initialise | boot/zforth/zforth.c:826-834 | `zf_init` in place |
| ZForth.Interpreter.AddAllWords | boot/zforth/zforth.c:844-882 | the bootstrap loops in place build the specified dictionary |
| FreeList.CanonicalUnique | sw/pulp-runtime/kernel/alloc.c:293-344 | a set of free bytes has only one ordered, coalesced list |
| FreeList.TakeIsFirstFit | sw/pulp-runtime/kernel/alloc.c:193-254 | allocation fails exactly when no run of that many free bytes exists, and otherwise returns the lowest start of any such run |
| FreeList.TakeBytes | sw/pulp-runtime/kernel/alloc.c:193-254 | allocation removes exactly the bytes it returns |
| FreeList.TakeCanonical | sw/pulp-runtime/kernel/alloc.c:193-254 | and keeps chunks aligned, ascending, disjoint and never adjacent |
| FreeList.PutBytes | sw/pulp-runtime/kernel/alloc.c:293-344 | freeing adds exactly the freed bytes |
| FreeList.PutCanonical | sw/pulp-runtime/kernel/alloc.c:293-344 | and coalesces on both sides so that the list stays canonical |
| AllocLaws.TakePutInverse | sw/pulp-runtime/kernel/alloc.c:193-344 | `pos_alloc` followed by `pos_free` restores the exact list |
| AllocLaws.FreeOrderIrrelevant | sw/pulp-runtime/kernel/alloc.c:293-344 | freeing held blocks in any order gives the identical list |
| AllocLaws.HistoryKeepsPartition | sw/pulp-runtime/kernel/alloc.c:193-344 | over every history of requests, aligned ones included, free and held bytes partition the region: none lost, none handed out twice |
| AllocLaws.HistoryFromInit | sw/pulp-runtime/kernel/alloc.c:178-344 | the one free chunk that initialisation leaves is such a partition, so every history from there keeps one |
| AllocLaws.TakeAlignedExact | sw/pulp-runtime/kernel/alloc.c:256-291 | for a power of two and a rounded size the result is aligned, exactly its bytes leave the free set in spite of over-reserving and trimming twice, and freeing it restores the list |
| AllocLaws.TakeAlignedCanonicalIff | sw/pulp-runtime/kernel/alloc.c:256-291 | aligned allocation keeps the list canonical exactly when the size is a multiple of 8 |
| AllocLaws.TakeAlignedExample | sw/pulp-runtime/kernel/alloc.c:256-291 | four bytes aligned to 8 leave a chunk at a misaligned address |
| Banks.TakeCounts | sw/pulp-runtime/kernel/alloc.c:219-242 | what `pos_alloc` accounts in a bank is the number of bytes there that stop being free payload |
| Banks.PutCounts | sw/pulp-runtime/kernel/alloc.c:313-342 | what `pos_free` accounts in a bank is the number of bytes there that become free payload, headers of joined chunks included |
| Banks.TotalIsCount | sw/pulp-runtime/kernel/alloc.c:49-73 | the sizes in the list add up to the number of free bytes |
| ChunkMemory.NamedReachOrLeave | sw/pulp-runtime/kernel/alloc.c:96-136 | the mask of an accounting call names exactly the banks whose counter reached or left the bank size, while counters keep within it |
| ChunkMemory.TakeCalls | sw/pulp-runtime/kernel/alloc.c:96-254 | counters that are the free payload of their banks stay so over `pos_alloc`, and its one or two calls to the power controller name exactly the banks that thereby left full |
| ChunkMemory.PutCalls | sw/pulp-runtime/kernel/alloc.c:96-344 | likewise for `pos_free`: its calls name exactly the banks that became full |
| BankPower.TakeSwitchesOn | sw/pulp-runtime/kernel/alloc.c:96-254 | the calls of an allocation all switch on, and name exactly the banks of which no byte was in use before and some byte is now |
| BankPower.PutSwitchesOff | sw/pulp-runtime/kernel/alloc.c:96-344 | those of a release all switch off, and name exactly the banks of which no byte is in use any more |
| ChunkMemory.MovedExact | sw/pulp-runtime/kernel/alloc.c:96-157 | a counter that is the number of free payload bytes of its bank stays that number |
| Allocator.PosAlloc.Init | sw/pulp-runtime/kernel/alloc.c:178-191 | a region becomes one chunk, rounded inward to whole granules |
| Allocator.PosAlloc.Info | sw/pulp-runtime/kernel/alloc.c:49-73 | reports the exact number of free bytes, the first chunk and the number of chunks |
| Allocator.PosAlloc.Account | sw/pulp-runtime/kernel/alloc.c:96-136 | every counter moves by the overlap of the stretch with its bank, and the power controller is called once with the banks named, if any |
| Allocator.PosAlloc.Alloc | sw/pulp-runtime/kernel/alloc.c:193-254 | the headers in memory become those of the first-fit result, every bank counter moves by its change in free payload, and with exact counters the power calls are those for the banks that reached or left full |
| Allocator.PosAlloc.Free | sw/pulp-runtime/kernel/alloc.c:293-344 | the headers in memory become those of the coalesced list, with the counters and the power calls |
| Allocator.PosAlloc.AllocAlign | sw/pulp-runtime/kernel/alloc.c:256-291 | reserve, free the front, free the tail, in place, with the counters and the power calls of all three; the branch that bumps the result once more is dead |
| Crc.GetCrc | sw/pulp-runtime/bin/plp_flash_stimuli.py:159-171 | the nested loops return the checksum of section 8 of RFC 1952, complemented before and after and extended byte by byte from 0 for no bytes, with the polynomial and both complements as literals |
| Crc.IsStandard | sw/pulp-runtime/bin/plp_flash_stimuli.py:159-171 | which is what the register of the specification comes to for every buffer |
| Crc.CheckValue | sw/pulp-runtime/bin/plp_flash_stimuli.py:159-171 | "123456789" has the check value 0xCBF43926 |
| Crc.UpdateIsTableUpdate | sw/pulp-runtime/bin/plp_flash_stimuli.py:159-171 | which is the table-driven `update_crc` of section 8 of RFC 1952 |
| Crc.ResidueIsConstant | sw/pulp-runtime/bin/plp_flash_stimuli.py:159-180 | any buffer followed by its own checksum, little-endian, has checksum 0x2144DF1C |
| Crc.BurstDetected | sw/pulp-runtime/bin/plp_flash_stimuli.py:159-171 | buffers of one length that differ only inside four consecutive bytes have different checksums |
| FlashFormat.HeaderPlaced | sw/pulp-runtime/bin/plp_flash_stimuli.py:290-307 | the header words and the area table lie where the loader reads them |
| FlashFormat.HeaderChecks | sw/pulp-runtime/bin/plp_flash_stimuli.py:304-307 | the padded header with its checksum checks to the standard's residue |
| FlashFormat.SegmentPlaced | sw/pulp-runtime/bin/plp_flash_stimuli.py:311-315 | every segment lies at its recorded start with zeros up to its last block's end |
| FlashFormat.AreasApart | sw/pulp-runtime/bin/plp_flash_stimuli.py:276-282 | no two areas share a flash block |
| FlashBytes.HeaderNumbers | sw/pulp-runtime/bin/plp_flash_stimuli.py:290-297 | little-endian at 0, 4, 8 and 12: the image's length, the number of areas, the entry, 0x1C000000 |
| FlashBytes.EntryNumbers | sw/pulp-runtime/bin/plp_flash_stimuli.py:298-302 | at 16 + 16 i: where area i starts in the flash, its address, its bytes, its blocks |
| FlashBytes.StartsAre | sw/pulp-runtime/bin/plp_flash_stimuli.py:264-283 | the first area starts on the first block boundary from byte 20 + 64 n on, each other where the blocks before end, and no block is wasted |
| FlashBytes.ChecksumPlace | sw/pulp-runtime/bin/plp_flash_stimuli.py:266-307 | the checksum of the first 16 + 64 n bytes lies right behind them, and zeros fill the space between the table and it |
| FlashWriter.FlashImage.Pad | sw/pulp-runtime/bin/plp_flash_stimuli.py:121-125 | padding appends zeros and moves the offset; a negative amount only moves the offset |
| FlashWriter.FlashImage.AppendBuffer | sw/pulp-runtime/bin/plp_flash_stimuli.py:174-194 | pads to a given offset and appends |
| FlashWriter.FlashImage.LayOut | sw/pulp-runtime/bin/plp_flash_stimuli.py:264-288 | the layout pass stores each segment's start and block count and returns the end of the image |
| FlashWriter.FlashImage.DumpFlashHeaderV2 | sw/pulp-runtime/bin/plp_flash_stimuli.py:258-315 | the generator's steps build the image of the specification byte for byte, its offset always the buffer's length |
| LoaderFit.FitClears | boot/boot_code.c:317-331 | for ascending disjoint areas the single pass returns a block-aligned address whose whole structure is clear of every area, and of its round-up to a word when areas are word-aligned |
| LoaderFit.FitFromLastMover | boot/boot_code.c:317-331 | in any order the result is the rounded-up end of the last area that moved the address, and clear of all areas from that one on |
| LoaderFit.FitClearsIff | boot/boot_code.c:317-331 | in any order the result is clear of all areas if and only if no area before that last one lies where its rounded-up end puts the structure |
| LoaderFit.UnorderedFitOverlaps | boot/boot_code.c:317-331 | two areas in descending order for which it lands on one of them |
| LoaderFit.FitUnmoved | boot/boot_code.c:317-331 | the result is 0x1C000000 when none of the structure's 6440 bytes there is in an area |
| LoaderFit.FitMoved | boot/boot_code.c:317-331 | an area that meets the structure moves it to the first block boundary at or behind its end |
| LoaderFit.ReadsBack | boot/boot_code.c:288-302 | the loader reads back the entry, the boot address and the table the generator wrote |
| LoaderFit.ContentsBack | boot/boot_code.c:257-286 | flash holds each segment's bytes, then zeros, where its table entry points |
| LoaderFit.LoadedInside | boot/boot_code.c:304-315 | loaded in ascending order, no area's round-up to a word harms another area's bytes, aligned or not |
| BootLoader.Loader.Memcpy | boot/zforth-riscv/libc.c:239-248 | copies and changes nothing else, between places that do not overlap or from a place above that does |
| BootLoader.Loader.FlashLoadSection | boot/boot_code.c:257-286 | block by block, directly or through the buffer, an area's bytes rounded up to a word come to lie at its address, and outside the loader's structure nothing else changes |
| BootLoader.Loader.FlashGetMemSections | boot/boot_code.c:288-302 | the structure receives the header and at most 16 entries |
| BootLoader.Loader.FindDataFit | boot/boot_code.c:317-331 | the loop computes the address of the specification, wrap-around included |
| BootLoader.Loader.FlashLoadAndStart | boot/boot_code.c:304-315 | all areas are loaded in turn, in any order and overlapping or not, a later one over an earlier one, and entry and boot address are handed over |
| BootLoader.ImageLoads | boot/boot_code.c:257-315 | loading a generated image around a structure that is clear of the segments puts every segment byte at its base, aligned or not |
| BootLoader.Loader.LoadImage | boot/boot_code.c:304-315 | on a generated image with the structure anywhere clear of the segments: entry and boot address are recovered, every segment is in place, round-ups are zeros, and nothing else changes outside the structure |
| BootLoader.Loader.BootQspi | boot/boot_code.c:363-395 | round trip with the generator, wherever the loader's structure is at first: it moves clear of all segments, every segment byte ends up at its base, the round-up to a word is zeros, entry and boot address are recovered, and nothing else changes outside the two places of the structure |
| Srec.JunkIgnored | boot/kk_srec.c:40-54 | characters that are neither hex digits nor `S` make no difference anywhere |
| Srec.RecordRead | boot/kk_srec.c:35-138 | from any synchronised state, in the middle of a record or not, a record of any body of up to 37 bytes leads to its own call right after whatever its `S` ended |
| SrecRecords.CharacterIs | boot/kk_srec.c:40-54 | the sixteen hex digits in either case have their values, 83 is the mark, and every other character is ignored |
| SrecRecords.AddressWidths | boot/kk_srec.h:140-142 | records of kind 0, 1, 5 and 9 have two address bytes, 2, 6 and 8 three, 3 and 7 four |
| SrecRecords.RecordDecoded | boot/kk_srec.c:105-138 | a record of kind 3 with address bytes b0 b1 b2 b3 and a payload calls back with b0 2^24 + b1 2^16 + b2 2^8 + b3 and that payload, and likewise for every other kind with its width; the checksum error is the sum of all bytes plus 1, modulo 256 |
| SrecRecords.CallStores | boot/boot_code.c:348-360 | exactly kinds 1, 2 and 3 store: the payload at the address, three zeros behind it, nothing else |
| SrecRecords.RecordLoads | boot/boot_code.c:334-361 | so a data record, in characters, leaves its payload at its address |
| SrecRecords.RecordExample | boot/kk_srec.c:105-138 | `S3061C000000AB32` stores AB at 0x1C000000 |
| SrecBounds.OverrunIff | boot/kk_srec.c:34-138 | following any digits and marks, the reader stores past its array exactly when the text says so: a stored digit comes when more than 37 count-00 records with data have gone by since the last reset |
| SrecBounds.TextOverrunIff | boot/kk_srec.c:34-103 | the same on characters, junk included |
| SrecBounds.NoZeroCountsStay | boot/kk_srec.c:62-103 | malformed, truncated or overlong: text in which no count is 00 never says so |
| SrecBounds.TextStays | boot/kk_srec.c:62-103 | so the reader reads any such text to its end inside its array |
| SrecBounds.ZeroRecordCarries | boot/kk_srec.c:62-115 | `S10000` between records makes no call and leaves the length one up |
| SrecBounds.ZeroRecordsOverrunIff | boot/kk_srec.c:62-115 | n times `S10000` and the first count digit of a record leads out of the array if and only if n is more than 37 |
| SrecStream.StreamRead | boot/kk_srec.c:34-138 | any text with the records' significant characters, a termination record coming last, yields one call a record, in order, with kind, address, payload and no checksum error |
| SrecStream.ChangedByteShows | boot/kk_srec.c:117-121 | one changed byte of address, payload or checksum gives a nonzero checksum error |
| SrecStream.PayloadsSurviveIff | boot/boot_code.c:348-353 | with word-wide stores every payload stays in place exactly when no later record's last store clears a nonzero byte of an earlier one |
| SrecStream.AscendingSurvives | boot/boot_code.c:348-353 | in ascending order every payload byte stays in place |
| SrecStream.DescendingLoses | boot/boot_code.c:348-353 | in descending order a record can wipe out the start of its neighbour |
| SrecStream.StreamLoads | boot/boot_code.c:397-409 | text of well-formed records, data ascending and a termination record last, loads every payload where it says |
| SrecReader.Reader.BeginRead | boot/kk_srec.c:27-32 | whatever came before, the reader starts between records with no length carried |
| SrecReader.Reader.ReadByte | boot/kk_srec.c:34-93 | the in-place character step is that of the specification whenever it stays in the array; only a digit after the type can leave it |
| SrecReader.Reader.EndRead | boot/kk_srec.c:105-138 | the checksum and address loops compute the call of the specification, and the state is reset |
| SrecReader.Reader.DataRead | boot/boot_code.c:334-361 | the callback's stores are those of the specification |
| SrecReader.Reader.ReadBytes | boot/kk_srec.c:95-103 | any text that does not say it leads out of the array, read in any pieces, leads to the specified run |
| UartRx.Uart.Tick | tb/tb_sw_axiboot.cpp:49-77 | the receiver's step on its fields is that of the specification |
| UartRx.Uart.Listen | tb/tb_sw_axiboot.cpp:49-77 | one tick for every sample of a line leads to the specified run |
| UartRx.FrameReceived | tb/tb_sw_axiboot.cpp:49-77 | after a start bit the receiver samples at ticks 1302 + 868k and is idle again after 8247 |
| UartRx.NineSamples | tb/tb_sw_axiboot.cpp:60-68 | the emitted byte is made of the first eight samples, least significant first |
| UartRx.StreamReceived | tb/tb_sw_axiboot.cpp:49-77 | every stream of frames, each at its own bit time of 825 to 916 ticks and after any gap, is received exactly |
| UartRx.Throughput | tb/tb_sw_axiboot.cpp:49-77 | no line whatever makes it emit more than one byte in 8247 ticks |
| UartRx.FollowsIff | tb/tb_sw_axiboot.cpp:49-77 | a bit time is followed on every stream exactly when it is between 825 and 916 ticks |
| UartTx.NothingLost | boot/zforth-riscv/udma.c:83-108 | in every interleaving, bytes sent, then queued, then held back are exactly the characters given to `putchar` |
| UartTx.FillingIsFree | boot/zforth-riscv/udma.c:83-108 | the half being filled is never the source of a pending transfer |
| UartTx.StepKeeps | boot/zforth-riscv/udma.c:26-108 | the invariant behind both is kept by every call, processor step and uDMA step |
| UartTx.RestMeansSent | boot/zforth-riscv/libc.c:263-299 | the transmitter is never stuck: when neither side can move, all but an unflushed line has been sent |
| UartTx.LinesAreSent | boot/zforth-riscv/libc.c:266-277 | over every run, what is unsent at rest is fewer than 16 characters, none of them given as a newline |
| UartTx.LineWaitsIff | boot/zforth-riscv/libc.c:266-277 | the byte 10 is unsent at rest if and only if it was stored for an argument that is 10 modulo 256 but not 10 |
| UartTx.DisguisedLineWaits | boot/zforth-riscv/libc.c:266-277 | `putchar(266)`, for instance, leaves it waiting |
| UartTx.FlushedIsSent | boot/zforth-riscv/libc.c:266-299 | when the last call was `fflush` or for a newline, everything given has been sent at rest |
| UartTx.TransfersFit | boot/zforth-riscv/udma.c:83-108 | at most two transfers are queued, each of at most 16 bytes from 0 or 128 of the copy of 256 |
| UartTx.MovesBounded | boot/zforth-riscv/udma.c:26-35 | between calls only so many steps can change anything, in any order, so the wait for the queue ends under any fair uDMA |
| UartTx.Transmitter.Putchar | boot/zforth-riscv/libc.c:266-277 | the store into `write_buf` on the real buffer, with the flush when it is full or the character is a newline, as the step of which `LinesAreSent` speaks |
| UartTx.Transmitter.CpuStep | boot/zforth-riscv/udma.c:83-108 | each action of `uart_write` on the real buffers |
| UartTx.Transmitter.DmaStep | boot/include/hal/udma/udma_v3.h:24-31 | the queue's progress, reading the copy while the processor goes on |
| Numbers.CutoffExact | boot/zforth-riscv/libc.c:146-170 | the overflow test before each digit is exact |
| Numbers.AccumulateDigits | boot/zforth-riscv/libc.c:150-176 | the digit loop ends at the end of the longest digit run with the exact value clamped to the range of long, its accumulator never wrapping |
| Numbers.Strtol | boot/zforth-riscv/libc.c:102-177 | the whole of `strtol`, every base it accepts, as the function that `StrtolReads` and `StrtolNothing` describe in characters |
| Numbers.SpaceBytes | boot/zforth-riscv/libc.c:112-114 | white space is exactly the bytes 9 to 13 and 32 |
| Numbers.DigitValues | boot/zforth-riscv/libc.c:150-158 | the digits of every base are the first of "0123456789abcdefghijklmnopqrstuvwxyz" in lower or upper case, with their positions as values, and no other byte is one |
| Numbers.StrtolReads | boot/zforth-riscv/libc.c:102-177 | white space, sign, `0x` where it applies, and the longest run of such digits give the number they write, confined to 32 bits, and its end |
| Numbers.StrtolNothing | boot/zforth-riscv/libc.c:102-177 | where no digit follows, 0 is reported and nothing read |
| Numbers.ConformsIff | boot/zforth-riscv/libc.c:102-177 | value and end are the standard's exactly on inputs without a bare `0x` |
| Numbers.BareHexPrefixExample | boot/zforth-riscv/libc.c:123-127 | `0xg` in base 16, where they differ |
| Numbers.Utoa | boot/zforth-riscv/libc.c:179-209 | the printed digits, most significant first, with a terminator; a base out of range gives the empty string |
| Numbers.DivideOut | boot/zforth-riscv/libc.c:179-209 | the division loop leaves the digits of the number, least significant first |
| Numbers.Itoa | boot/zforth-riscv/libc.c:211-232 | the same with a minus sign in base 10 |
| Numbers.PrintedDigits | boot/zforth-riscv/libc.c:179-209 | the digits printed are in lower case, have no leading 0, and stand for the number |
| Numbers.ItoaWrites | boot/zforth-riscv/libc.c:211-232 | a minus sign is printed for negative numbers in base 10 only, and in other bases they are taken modulo 2^32 |
| Numbers.EitherCaseParses | boot/zforth-riscv/libc.c:102-209 | printed digits parse back to the number with any of their letters in upper case |
| Numbers.PrintedParses | boot/zforth-riscv/libc.c:102-232 | any printed magnitude and sign parse back to the number, clamped |
| Numbers.PrintParseRoundTrip | boot/zforth-riscv/libc.c:102-232 | `strtol` of `itoa` gives the number back exactly in base 10 or when it is not negative; otherwise it gives LONG_MAX |

## Left out

- zForth's `sys` primitive, raw `p@` and `p!`, tracing and typed memory access: foreign code, memory-mapped registers, or switched off in the configuration.
- ZForth.Interpreter.RunLoop: runs for at most a given number of turns, because the source's loop need not end; `ZfMachine.RunMonotone` shows that the bound changes no run that ends.
- ZForth.Interpreter.FindWord: gives up after 4096 turns, where the source would go on for ever (`ZfBounds.LostForever`).
- ZfCompile.CompilationPreservesMeaning: bodies that use n itself, immediate words, jumps or the return stack are outside it; they have no word-by-word meaning to compare with.
- ZfBootstrap.BootstrapEstablishes: takes POSTPONE to be 0 beforehand, as in zeroed static storage; `zf_init` does not set it.
- Signed overflow in C is taken as two's-complement wrap-around, also in `itoa` of INT_MIN; the two halves of a five-byte cell are stored left to right; `HERE += f(HERE)` adds to HERE as it is after the store; plain `char` is unsigned and memory little-endian, as on the target.
- Allocator.PosAlloc.AllocAlign: for alignments of 8 and more, asks for a size that is a multiple of 8 and a power of two; `AllocLaws.TakeAlignedCanonicalIff` shows what other sizes do to the list.
- Allocator.PosAlloc.Free: asks for a held block with its own size, as every caller must; nothing is said about double frees.
- Allocator.PosAlloc.Alloc: requests of 0 bytes, which the source answers with the first chunk without taking it from the list, and sizes near INT_MAX, whose rounding would overflow, are excluded; memory is a row of 8-byte granules with one header each, and accounting calls follow the link updates instead of standing between them.
- Allocator.PosAlloc.Init: regions too small for one granule, after which the source's list is not initialised, are excluded; seeding of the banks in `sw/pulp-runtime/kernel/alloc_pool.c` uses another header offset and is not part of this model, so counters are followed change by change.
- Allocator.PosAlloc.Account: the standby variant and its retention counters are not modelled.
- FlashWriter.FlashImage.DumpFlashHeaderV2: asks for an image below 4 GB; the exception that packing a larger value raises is not modelled. Encryption, the component list, the version 1 header and the dump files are left out.
- BootLoader.Loader.FlashLoadSection: asks for the generator's block count; larger counts read past the area. The 24 address bits of a read command are modelled, the rest of the SPI and HyperBus protocol, the stack in the structure and the final jump are not.
- BootLoader.Loader.FlashGetMemSections: an area count of 2^31 or more, negative in the source, is excluded.
- BootLoader.Loader.BootQspi: asks for at most 16 segments in ascending disjoint order whose ends do not wrap, and for room for the structure above any segment that makes it move, without which the new place would wrap around.
- BootLoader.Loader.Memcpy: a destination that starts inside its source is excluded; the upward copy would read what it has just written, and the loader's buffer never overlaps an area.
- SrecReader.Reader.ReadBytes: texts that lead out of the array are excluded, by the exact condition of `SrecBounds.TextOverrunIff`; what the source overwrites then is not modelled. Messages about counts and checksums are left out, and so is the reader's own structure lying in the memory being loaded.
- SrecStream.StreamRead: takes a termination record to come last, because the callback jumps away and nothing after it is read; the jump itself is not modelled.
- BootLoader.Loader.FindDataFit: an area count above 16 in the header is excluded here and in the load loop; the read is clamped to 16 entries but the loops are not, and would walk past the table.
- ZfSafety.RunKeepsSound: whether a `!!` does harm is asked of the stack it finds during the run, since Forth code computes addresses; `ZfSafety.VarPokeIff` is exact for the user variables, and for other addresses the condition is sufficient.
- SrecReader.Reader.DataRead: prints no messages and does not jump.
- UartRx.StreamReceived: a bit time is constant within a frame and the line is clean; parity and other frame formats of `uart_tick` are not modelled.
- UartTx.NothingLost: one thread of calls; a transfer of length 0 is taken to complete at once; the memory system is sequentially consistent.
- Register access, interrupts, clock gating, generated headers, pad and constraint generators, sockets, cluster and SCMI programs: hardware plumbing or fixed sequences.
