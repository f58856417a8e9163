# Verified model of Post4

Post4 is a Forth system: a C machine (`src/post4.c`, `src/post4.h`) and, kept beside it, a complete
Forth in JavaScript (`reference/jsforth.js`). This project models the parts of both that carry an
algorithm or an invariant, and proves what they promise. `dafny verify dfyconfig.toml` verifies all of
it.

**Double-cell arithmetic.** UM\*, M\*, UM/MOD and SM/REM (sections 6.1.2360, 6.1.1810, 6.1.2370 and
6.1.2214 of Forth 200x) as the C code computes them, for 64-bit and 32-bit cells. Cells are naturals
below `2^W`; every wrap, shift and mask is written out, and only the count of ones works on
bit-vectors. `Cell` holds the cell operations, `LeadZero` the branch-free leading-zero count,
`DoubleCell` products, sums, differences and negation, `Division` the 2/1 division by Algorithm D and
its signed form.

**Control-flow compiler and virtual machine** of jsforth. `ControlFlow` has the emitters, which patch
forward branches in flat memory and keep what they must remember on the data stack; `VirtualMachine`
has the primitives and the loop that runs them; `StructuredSemantics` gives programs a meaning that
knows nothing of addresses, with a bound on the turns of each loop, and proves that compiled code
reaches a result, faults or runs for ever exactly when the program's meaning does. `CountedLoops` says
what that meaning is without reference to the primitives: how often each kind of loop turns, what its
body finds on the return stack, which way a flag decides. `BranchTargets` says where branches land,
and that every LEAVE goes to the exit of the innermost loop around it.

**Heap allocator** of jsforth. `Tiling` is about how chunks fill the heap, `DecimalOrder` about the
order JavaScript's default sort gives addresses, `Coalescing` about what sort, merge loop and trim
make of the free chunks, `Heap` about the code: the tables, the headers in memory, best fit and
splitting. Tiling, tables and live data are kept by every run in every heap. Whether FREE leaves the
free chunks coalesced depends on the order of the free table, and `Coalescing.FreedTidy` says exactly
when. In a coalesced heap the used chunks determine everything else.

**Block buffer cache** of jsforth: `BlockCache` is a round-robin write-back cache over the cookie and
ram drives, `BlockRuns` what a run of block words does to what a program sees and to the drives.
Buffers are given away first in, first out. Until EMPTY-BUFFERS the cache is a plain list of blocks;
EMPTY-BUFFERS makes each block what it was when it last lost its buffer.

**Post4 machine state.** `GuardedStack` has the growing stacks between sentinels and the moves from
one to the other; `Characters`, `InputParser` and `NumberInput` the in-place escape parser and number
input; `Dictionary` the data space and word list; `ThreadedCode` colon definitions, from tokens to
threaded code to execution; `Interpretation` the proof that compiling names and executing the result
is interpreting them one by one; `DefinitionText` the way from a line of input to the effect of the
word it defines. `Options` is the optional value they share.

Each method is the source's procedure on the source's state; each is tied to a function or predicate
that has its own laws. Functions passed as parameters stand for what is not modelled: what plain words
do to the stacks of jsforth (`Words`), what primitives do to the data stack of Post4 (`Effect`), and
the C library's `strtod` (`Math`); the theorems hold whatever these do.

Where the code does not do what its description or a reader would suggest:

- `fittype` is described as choosing between first fit and best fit, but the test reads the variable's
  address, which is never zero, so the search is always best fit (`reference/jsforth.js:187`, `4043`).
- The free table is sorted by decimal strings, which past 10^7 is not the order of addresses, and FREE
  compares only neighbours in the table. `Heap.LeaveUnmerged` is a run from the fresh heap, which
  starts at 1050705 (a megacell of memory, 81 cells of input buffer and two block buffers,
  `reference/jsforth.js:204`, `914`), that ends with two free chunks that touch. FREE keeps a heap
  coalesced if and only if the sorted table brings together what touches the freed chunk
  (`Coalescing.GoodOrder`), which it does whenever all free addresses have equally many digits.
- Releasing data space is bounded by the newest word's data address and not by its length, so more
  bytes can be released than the word has (`src/post4.c:731-738`). The model's length is a plain
  integer and becomes negative; in the program it is a `P4_Size`, unsigned, and wraps to a huge value:
  -7 is 2^64 - 7. `Dictionary.NegativeCountReached` is a run that does it. It is possible if and only
  if there is padding between the word's end and here (`Dictionary.ReleaseGoesNegative`), and only a
  discarded definition leaves such padding (`Dictionary.NoDiscardNoNegative`).
- SM/REM gives a quotient that is exact only modulo `2^W`. It is exact if and only if the dividend's
  magnitude is below the divisor's times `2^(W-1)`, or times `2^(W-1) + 1` if the signs differ
  (`Division.QuotientReading` with `Division.QuotientFits`); for single-cell dividends only the
  minimum integer by -1 is not (`Division.MinimumByMinusOne`).
- `2lit` is looked up when the core file has been read (`src/post4.c:1422`), which defines no such
  word, so a double is always compiled as two literals.

## Model

| member | source | states |
|---|---|---|
| LeadZero.LeadZeroBits | src/post4.c:449-475 | the smear and parallel bit count give every cell, zero included, W minus its bit length |
| LeadZero.Normalizes | src/post4.c:522-528 | shifting a non-zero divisor left by its leading zeros loses no bit and sets the top one |
| DoubleCell.Mulu | src/post4.c:375-396 | the two result cells are the exact product of any two cells |
| DoubleCell.SumOfPartials | src/post4.c:384-395 | four half-cell products, summed in wrapped cells with both carries counted, lose nothing |
| DoubleCell.Muls | src/post4.c:435-444 | the exact signed two-cell product for all operands, minimum integer and zero included |
| DoubleCell.NegateSigned | src/post4.c:441-442 | the in-place double negation gives a negative number's magnitude always, and undoes a sign whenever the result has one |
| DoubleCell.Dadd | src/post4.c:597-602 | sum of two double cells modulo 2^2W; the result may share the first operand's array, not the second's |
| DoubleCell.Dsub | src/post4.c:604-609 | difference of two double cells modulo 2^2W |
| DoubleCell.Dneg | src/post4.c:611-616 | two's complement of a double cell |
| Division.FirstEstimate | src/post4.c:531-532 | the first estimate of a quotient digit is at least the digit and at most B+1 |
| Division.TestDecides | src/post4.c:537-538 | for an estimate not below the digit, the loop's test holds exactly when it is too large |
| Division.BreakIsExact | src/post4.c:542-544 | when the remainder estimate overflows a half cell the digit is already exact, so leaving the loop loses no correction |
| Division.QuotientDigit | src/post4.c:530-568 | either digit loop: starts in [digit, B+1], corrects at most twice and leaves the exact digit, below B |
| Division.NormalizeDividend | src/post4.c:523-528 | the shifted divisor and dividend cells are the dividend scaled, with no bit lost and the high cell still below the divisor |
| Division.MultiplySubtract | src/post4.c:547-549 | subtracting the wrapped product from the wrapped dividend leaves the true partial remainder |
| Division.Denormalize | src/post4.c:571 | shifting the last remainder back is exact and leaves it below the divisor |
| Division.Divu | src/post4.c:503-575 | fault exactly on zero; all ones in both cells on overflow; otherwise quot * dsor + rem is the dividend and rem < dsor |
| Division.TruncatedUnique | src/post4.c:577-595 | rounding toward zero is the only quotient whose remainder is below the divisor and signed as the dividend |
| Division.QuotientReading | src/post4.c:588-590 | the quotient cell reads as the true quotient exactly when that fits a signed cell |
| Division.QuotientFits | src/post4.c:577-595 | what a caller checks first: the quotient is a signed cell value exactly when the dividend's magnitude is below 2^(W-1) times the divisor's, 2^(W-1) + 1 times if the signs differ |
| Division.MinimumByMinusOne | src/post4.c:577-595 | minimum integer by -1 reads as the minimum integer, and no other two signed cells have a quotient that does not fit |
| Division.Divs | src/post4.c:577-595 | truncated quotient modulo 2^W and exact remainder for every pair of operands whose high magnitude is below the divisor's, and the overflow values otherwise |
| ControlFlow.Compiler.Compile | reference/jsforth.js:4509-4522 | any nesting of the constructs leaves exactly its finished code, stores each code cell once, and restores the compile-time stack, innerloop and all other memory |
| ControlFlow.Compiler.EmitElse | reference/jsforth.js:4510 | the open IF is patched to just after the new branch, whose operand takes its place on the stack |
| ControlFlow.Compiler.EmitRepeat | reference/jsforth.js:4515 | branches back to BEGIN and patches WHILE past itself, dropping both addresses |
| ControlFlow.Compiler.EmitLoop | reference/jsforth.js:4520 | branches back to the body, gives DO its exit, and restores the enclosing loop |
| VirtualMachine.Machine.Turn | reference/jsforth.js:864-876 | one fetched token changes ip and both stacks as the step function says, faulting where the original would read below a stack or past memory |
| VirtualMachine.Machine.Execute | reference/jsforth.js:5588-5596 | the loop runs the step function until it leaves the given code |
| VirtualMachine.RunOutside | reference/jsforth.js:5588-5596 | a run that has left the code has one result, however many more turns it is given |
| StructuredSemantics.Simulate | reference/jsforth.js:2311-2376 | code of any structured program does what its meaning says, including LEAVE out of nested constructs to its own loop's end |
| StructuredSemantics.CompilerCorrect | reference/jsforth.js:4509-4522 | the machine gets from the first cell to the one after the last with given stacks if and only if the program means those stacks |
| StructuredSemantics.FaultsAgree | reference/jsforth.js:4509-4522 | it faults if and only if the program does |
| StructuredSemantics.DivergenceAgrees | reference/jsforth.js:4509-4522 | it stays inside the code for ever if and only if no bound on loop turns lets the program finish |
| CountedLoops.CountedLoop | reference/jsforth.js:2311-2376 | DO or ?DO with index below limit runs its body exactly limit - index times, once with each index on the return stack above the limit, whatever the body does to the data stack, and leaves the return stack as it was |
| CountedLoops.LeftLoop | reference/jsforth.js:2311-2376 | a loop left in some turn ends there, with the stacks the body left; so too with an index at or above the limit, where nothing else ends DO |
| CountedLoops.NoTurns | reference/jsforth.js:2320-2330 | ?DO with equal limit and index drops both and does nothing |
| CountedLoops.Leaves | reference/jsforth.js:2342-2361 | LEAVE, and ?LEAVE with a flag that is not zero, give up exactly limit and index |
| CountedLoops.CountedOnMachine | reference/jsforth.js:5588-5596 | code of a counted loop, run on the machine, gets to the cell after its last with the data of limit - index turns |
| CountedLoops.WhileTurns | reference/jsforth.js:4512-4515 | BEGIN WHILE REPEAT turns until the flag is zero for the first time, the test once more than the body |
| CountedLoops.UntilTurns | reference/jsforth.js:4512-4513 | BEGIN UNTIL turns until the flag is not zero for the first time |
| CountedLoops.AgainTurns | reference/jsforth.js:4512-4516 | BEGIN AGAIN ends only as a body does that does not end normally |
| CountedLoops.Choices | reference/jsforth.js:868-876 | a flag that is not zero chooses the first part, zero the second or none, and the flag is gone |
| CountedLoops.Sequences | reference/jsforth.js:5588-5596 | the second of two programs starts with what the first leaves |
| CountedLoops.EndsOnce | reference/jsforth.js:5588-5596 | a program ends in one way only, however large a bound on loop turns it is given |
| StructuredSemantics.CompileAndExecute | reference/jsforth.js:5588-5596 | emitting a program and running it, the machine is still inside the code or has stopped with its meaning |
| BranchTargets.TargetsInside | reference/jsforth.js:4509-4522 | read loop by loop, every branch lands in the program's code, those of a loop body in that loop, and every LEAVE names the operand cell of the loop it is in |
| BranchTargets.LeaveNames | reference/jsforth.js:4517-4522 | instruction by instruction: the operand of a LEAVE or ?LEAVE is the operand cell of the innermost DO or ?DO around it, or of the loop outside if there is none |
| BranchTargets.LeavesLand | reference/jsforth.js:4517-4522 | in a complete program every LEAVE has such a loop, and its landing address, the operand plus the cell it names, is that loop's exit, between the first cell and the final dp |
| BranchTargets.LeaveGoes | reference/jsforth.js:2342-2347 | executed on the machine, a LEAVE drops limit and index and goes to that exit |
| BranchTargets.BranchesLand | reference/jsforth.js:4509-4520 | every other branch and every loop exit lands between the first cell and the final dp |
| BranchTargets.ClosedCode | reference/jsforth.js:4521-4522 | a complete program's code does not depend on innerloop |
| DecimalOrder.DecimalSpells | reference/jsforth.js:4085 | the decimal string of a number is digits that spell it, without leading zeros, after a minus sign if it is negative |
| DecimalOrder.BeforeIs | reference/jsforth.js:4085 | string order is dictionary order: a proper beginning first, else the lower character at the first difference |
| DecimalOrder.SortOrdered | reference/jsforth.js:4085 | any addresses come out with no decimal string before an earlier one |
| DecimalOrder.SortUnique | reference/jsforth.js:4085 | and no other arrangement of them does |
| DecimalOrder.SameLengthOrder | reference/jsforth.js:4085 | among numbers of equally many digits string order is numeric order |
| DecimalOrder.SortKeeps | reference/jsforth.js:4085 | in any order the sort keeps every address, once |
| DecimalOrder.SortIncreasing | reference/jsforth.js:4085 | distinct addresses with equally many digits come out in increasing order |
| DecimalOrder.EightDigitsSortFirst | reference/jsforth.js:4085 | 10000000 sorts before 9999990 |
| Coalescing.JoinedLeft | reference/jsforth.js:4086-4101 | merging a into the entry before it leaves good order as it was, and nothing touches the result from below |
| Coalescing.JoinedRight | reference/jsforth.js:4086-4101 | merging the entry after a into it leaves good order as it was, and nothing touches the result from above |
| Coalescing.TrimmedTidy | reference/jsforth.js:4102-4106 | once the loop is done with a, the trim leaves the heap coalesced exactly if the order was good |
| Coalescing.FreedTidy | reference/jsforth.js:4085-4106 | FREE of a in any coalesced heap leaves it coalesced if and only if, in the sorted table, a free chunk ending just before a comes right before it, one starting just after comes right after, and a is last if it ends the heap |
| Coalescing.FreedOrdered | reference/jsforth.js:4085-4106 | FREE leaves the free table in the order of its decimal strings |
| Coalescing.EquallyLongIsGood | reference/jsforth.js:4085 | that is so whenever all free addresses have equally many digits |
| Coalescing.LeftUnmerged | reference/jsforth.js:4085-4106 | chunks with their sizes for which FREE leaves two free chunks that touch |
| Tiling.Canonical | reference/jsforth.js:4071-4108 | two coalesced heaps with the same used chunks have the same end, the same free chunks and the same layout |
| Tiling.EveryCellOwned | reference/jsforth.js:4004-4030 | every cell between base and heapend belongs to some chunk or its header |
| Tiling.EmptyHeap | reference/jsforth.js:4102-4106 | with nothing in use there is no free chunk and heapend is the base |
| Heap.Heap.SearchFit | reference/jsforth.js:4035-4052 | an exact fit if there is one, else the least slack above 2, else -1; the first such entry of the table |
| Heap.Heap.NewChunk | reference/jsforth.js:4004-4011 | a chunk past the end; no live chunk's data changes |
| Heap.Heap.SplitChunk | reference/jsforth.js:4016-4030 | an exact fit is taken whole, else a free remainder of at least one cell stays below the new chunk, sizes and headers adding up |
| Heap.Heap.Allocate | reference/jsforth.js:4056-4064 | in any heap, tiling and tables kept, live data and sizes unchanged, a new chunk of the size asked for exactly where best fit puts it; a coalesced heap stays so |
| Heap.RoomIsUsed | reference/jsforth.js:4035-4064 | the heap grows if and only if no free chunk has just the size asked for or room for it, a header and one cell more; else the request is met at the top of the smallest that has |
| Heap.Heap.Release | reference/jsforth.js:4072-4084 | the chunk moves from the used to the free table and the last used chunk takes its index |
| Heap.Heap.DropFree | reference/jsforth.js:4095-4096 | the shifting loop removes exactly one entry of the free table |
| Heap.Heap.MergeFree | reference/jsforth.js:4086-4101 | whatever the table's order, tiling, tables, used sizes and data are kept, and the chunks are those the merge function gives |
| Heap.Heap.Free | reference/jsforth.js:4071-4108 | in any heap exactly the freed chunk leaves the used ones, the free table is left in string order, tiling and tables are kept and no other live chunk's size or data changes; a coalesced heap stays coalesced if and only if the table's order is good |
| Heap.Heap.AllocateThenFree | reference/jsforth.js:4056-4108 | in a coalesced heap, freeing what was just allocated restores heapend, layout and free chunks if and only if the table's order is good for it |
| Heap.Heap.Perform | reference/jsforth.js:4004-4108 | every run of allocations and valid frees, in any heap, goes through states in good order, each determined from the one before: used table, chunks, free table and end |
| Heap.LiveChunkKept | reference/jsforth.js:4004-4108 | in any run, between any two moments at which and between which a chunk is in the used table, its size and data do not change |
| Heap.TidyThroughout | reference/jsforth.js:4004-4108 | a run from a coalesced heap is coalesced throughout if and only if every FREE in it finds its table in good order |
| Heap.EquallyLongRun | reference/jsforth.js:4004-4108 | so it is when all addresses the run can reach have equally many digits |
| Heap.BelowTenMillion | reference/jsforth.js:4004-4108 | and so below 10^7, in a heap that starts anywhere from 10^6 up, as jsforth's does |
| Heap.NothingUsed | reference/jsforth.js:4102-4106 | a coalesced heap with nothing in use is empty and back at its base |
| Heap.LeaveUnmerged | reference/jsforth.js:4071-4108 | a run from the fresh heap at 1050705, four allocations and two frees, ends with free chunks at 9999990 and 10000000 that touch |
| Characters.EscapeValues | src/post4.c:187-219 | the thirteen escapes and their ASCII codes; every other character stands for itself |
| Characters.CharLiteral | src/post4.c:187-219 | the value beside an escape letter, wherever it stands in the map; any character not in the map itself |
| InputParser.ScanLengths | src/post4.c:248-271 | each input byte is text, an escape's backslash or left over |
| InputParser.ScanPlain | src/post4.c:261-271 | without escapes, text is everything before the first delimiter |
| InputParser.ScanPieces | src/post4.c:248-271 | any text with any escapes is read up to the first delimiter that is not escaped, each escape as what it stands for; a backslash that ends the input is an ordinary character |
| InputParser.NameOf | src/post4.c:281-292 | white space, a name of any characters but spaces, controls and delete, and one of these: the name is read and the text after its end is left |
| InputParser.QuoteRoundTrip | src/post4.c:248-271 | parsing escaped text up to a closing quote returns the text |
| InputParser.Input.RemoveEscape | src/post4.c:251-258 | the backslash goes, its letter is replaced, all else moves down one |
| InputParser.Input.Parse | src/post4.c:238-279 | the slice is the unescaped text up to the first unescaped delimiter, text before and after is preserved, the length drops by the escapes removed, and the offset advances unless at the end |
| InputParser.Input.ParseName | src/post4.c:281-292 | leading white space skipped, the name up to the first delimiter, the delimiter used up, the buffer unchanged, progress always, empty exactly at the end or at a control character |
| NumberInput.Horner | src/post4.c:689-692 | the two-product update is multiply and add modulo 2^2W, whatever the running value |
| NumberInput.Accumulate | src/post4.c:667-693 | the digit loop yields the positional value modulo 2^2W, or stops at a final point, and at any other bad digit leaves it to strtod whether there is a float or no number |
| NumberInput.StrNum | src/post4.c:632-699 | every string is read as what it means: a character, a number with prefix and sign reduced to two cells, else a float if strtod takes all of it, else no number |
| NumberInput.DigitValues | src/post4.c:221-232 | 0 to 9 and A to Z or a to z, and no other character, have the values 0 to 35 |
| NumberInput.NumeralMeans | src/post4.c:651-674 | a numeral of any length, in base 16 after $, 10 after #, 2 after % and else the current radix, with any sign, means its signed positional value, a double after a point |
| NumberInput.OnlyNumerals | src/post4.c:651-674 | and nothing else reads as an integer: up to radix 127, what does is prefix, sign, digits below the base and point |
| NumberInput.QuotedMeans | src/post4.c:640-649 | a character or an escape between quotes means its code |
| NumberInput.OnlyQuoted | src/post4.c:640-649 | and nothing else reads as a character |
| NumberInput.ValueOfRender | src/post4.c:221-232 | the positional value of a number's digits in base 2 to 36 is the number |
| NumberInput.ReadBack | src/post4.c:632-699 | any number below 2^2W, rendered after $ in base 16, after # in 10, after % in 2, or in the current radix, is accepted and read back exactly, whatever strtod does; with a minus sign, as its two's complement |
| BlockCache.SaveRam | reference/jsforth.js:3082-3088 | the sixteen lines written hold the buffer's characters |
| BlockCache.LoadRam | reference/jsforth.js:3069-3078 | sixteen lines padded with blanks fill the buffer and nothing else |
| BlockCache.Cache.SaveBuf | reference/jsforth.js:3300-3317 | the drive holds the buffer's contents, other blocks are unchanged, and nothing looks different |
| BlockCache.Cache.LoadBlock | reference/jsforth.js:3322-3337 | the buffer holds the drive's block and no other memory changes |
| BlockCache.Remapped | reference/jsforth.js:3350-3366 | giving a clean buffer to another block keeps the tables inverse and every block as it was seen |
| BlockCache.Cache.BufferFor | reference/jsforth.js:3351-3366 | the next buffer in turn takes the block after writing back a dirty one |
| BlockCache.Cache.Block | reference/jsforth.js:3345-3367 | the address returned holds the block as last seen, and no block looks different |
| BlockCache.Cache.Update | reference/jsforth.js:3384 | only the last block's buffer becomes dirty, and no block looks different |
| BlockCache.Cache.StoreAndUpdate | reference/jsforth.js:3384 | a character stored in the last block followed by UPDATE changes that character of that block and nothing else |
| BlockCache.Cache.EmptyBuffers | reference/jsforth.js:3403-3411 | every block is again what its drive holds, no buffer is mapped and those that were are clean |
| BlockCache.Cache.Perform | reference/jsforth.js:3345-3411 | any run of reads, updating writes and EMPTY-BUFFERS does to blocks, drives and buffers what the run of `BlockRuns` does, and reads what that reads |
| BlockRuns.SeenIsPlain | reference/jsforth.js:3345-3384 | without EMPTY-BUFFERS no eviction can be noticed: a run leaves what a plain list of blocks would |
| BlockRuns.BuffersInTurn | reference/jsforth.js:3351-3352 | after any run, the buffer used last is as many places on, counted round, as blocks have been missing |
| BlockRuns.FirstInFirstOut | reference/jsforth.js:3345-3367 | a block just fetched keeps its buffer while fewer blocks than there are buffers are missing after it, and loses it to the one that makes them as many |
| BlockRuns.RunHonest | reference/jsforth.js:3345-3411 | in every run, a block that differs from its drive is in a dirty buffer |
| BlockRuns.EmptyLoses | reference/jsforth.js:3403-3411 | only blocks in dirty buffers look different after EMPTY-BUFFERS |
| BlockRuns.EmptyRestores | reference/jsforth.js:3345-3411 | EMPTY-BUFFERS, after any run, makes each block what it was when it last lost its buffer to another block, or what its drive held at first |
| GuardedStack.Stack.AllocStack | src/post4.c:872-896 | room for the requested cells, every live cell kept, both sentinels in place |
| GuardedStack.Stack.PerformRoll | src/post4.c:1966-1972 | the chosen cell goes to the top and the others close up, at any depth |
| GuardedStack.Stack.PerformPick | src/post4.c:1951-1954 | a copy of the chosen cell replaces the index |
| GuardedStack.Stack.Perform | src/post4.c:1938-1972 | any run of pushes and words that does not underflow does to the cells what it does to a sequence, however often the stack grows |
| GuardedStack.Stacks.Transfer | src/post4.c:1974-1988 | >R and R> move the top cell to the other stack, grown if need be, or throw on an empty stack with both stacks as they were |
| GuardedStack.Stacks.Perform | src/post4.c:1938-1988 | any run of stack words, >R and R> that does not underflow does to the two stacks what it does to two sequences |
| GuardedStack.ThereAndBack | src/post4.c:1974-1988 | what >R puts away comes back with R>, on top of whatever the words between leave, and they do what they do without it |
| GuardedStack.RollRotates | src/post4.c:1964-1972 | rolling the same depth repeatedly rotates those cells and touches no others |
| GuardedStack.RollCycle | src/post4.c:1964-1972 | u ROLL done u+1 times changes nothing |
| GuardedStack.RollOneIsSwap | src/post4.c:1965-1972 | 1 ROLL is SWAP |
| GuardedStack.PickCopiesWhatRollMoves | src/post4.c:1950-1972 | PICK leaves the cells and on top a copy of the one that ROLL of the same depth would move there |
| GuardedStack.DropUndoes | src/post4.c:1938-1940 | DROP takes away just the cell on top |
| GuardedStack.PickZeroIsDup | src/post4.c:1950-1954 | 0 PICK is DUP |
| Dictionary.BuiltinsInOrder | src/post4.c:1289-1294 | the built-in word list is in order, whatever values its constants keep in ndata |
| Dictionary.RunKeepsOrder | src/post4.c:723-777 | after any run of create, hide, append, allot, release and throws, whether these discard the word under construction or not, data areas are aligned, and those of all words that are not built in are in order and apart and end by here |
| Dictionary.AligningIsNotRefused | src/post4.c:775-776 | where the unchecked alignment is refused the cell is refused too, so no cell is stored unaligned |
| Dictionary.ReserveThenRelease | src/post4.c:723-742 | reserving bytes and releasing as many leaves no trace |
| Dictionary.ReleaseGoesNegative | src/post4.c:731-738 | some release makes the newest word's length negative, where it was not, if and only if there is padding between the word's end and here |
| Dictionary.NoDiscardNoNegative | src/post4.c:723-777 | in a run that discards no word under construction no length of a word that is not built in is ever negative |
| Dictionary.NegativeCountReached | src/post4.c:1466-1477 | a run from an empty word list whose newest word has length -7 |
| Dictionary.NewestIs | src/post4.c:779-794 | lookup finds the newest visible word of that name, or there is none |
| Dictionary.LookupIgnoresCase | src/post4.c:779-794 | lookup finds the newest visible word whose name differs at most in the case of letters, so case makes no difference to it |
| Dictionary.Context.Allot | src/post4.c:723-742 | reserves or releases, refused when the space or the newest word's data would be passed |
| Dictionary.Context.WordAppend | src/post4.c:772-777 | one aligned cell stored at the end of the newest word |
| Dictionary.Context.Perform | src/post4.c:723-777 | the operations in place, any run of them with its throws, over any list of built-in words, do what the run of values does and stay in order |
| Dictionary.Context.FindName | src/post4.c:779-794 | the search along the list is the newest visible match |
| ThreadedCode.HiddenIsNotFound | src/post4.c:1720-1721 | the word under construction cannot be found |
| ThreadedCode.SourceIsOlder | src/post4.c:1525-1580 | a definition's source names only older words |
| ThreadedCode.Interpreter.ReadNumber | src/post4.c:1526-1566 | a token that is no word becomes one literal, or two for a double, in a build without floating point |
| ThreadedCode.Interpreter.CompileToken | src/post4.c:1521-1575 | a token extends the threaded code by exactly its translation, or fails for want of meaning or room |
| ThreadedCode.Interpreter.Define | src/post4.c:1708-1734 | a definition succeeds exactly when every token has a meaning and the code fits; it then holds its source's code, and otherwise word list and here are as before up to alignment |
| ThreadedCode.Interpreter.Interpret | src/post4.c:1517-1580 | any number of definitions, good and bad, over the built-in words, keeps every colon word's code that of its source and all data areas in order, and leaves older words as they were |
| ThreadedCode.WordRuns | src/post4.c:1604-1685 | executing a word's token takes a number of steps given by its source, returns to the next cell with the return stack restored, and has exactly its source's effect, early EXIT and LIT before a name included |
| ThreadedCode.WithoutLit | src/post4.c:1681-1684 | every word has a meaning if no source names LIT |
| ThreadedCode.MeaningKept | src/post4.c:779-794 | later definitions, even of the same name, change no older word's meaning |
| ThreadedCode.Interpreter.Execute | src/post4.c:1604-1685 | execution from the interpreter always ends, with the recursive evaluation of the source, or throws when that does |
| Interpretation.NumberPushes | src/post4.c:1545-1569 | a number is compiled to pushing what interpreting it pushes: its value modulo 2^64, and for a double the next 64 bits above that |
| Interpretation.DoublePushes | src/post4.c:1558-1562 | a double is two pushes, low cell first, that together are its value modulo 2^128 |
| Interpretation.CompiledIsInterpreted | src/post4.c:1517-1580 | for any names that have a source, executing what they compile to does to the data stack what interpreting them one by one does, throws included |
| DefinitionText.TokensOf | src/post4.c:1521-1525 | however names are written and spaced, up to a semicolon that stands by itself they are the tokens of the definition, and what follows is left |
| DefinitionText.ReadTokens | src/post4.c:1521-1525 | the names up to the semicolon are parsed from the buffer, which is not changed |
| DefinitionText.DefineText | src/post4.c:1499-1734 | the text of a definition makes exactly the word, or the failure, that its tokens determine, and uses up the text through the semicolon; on failure the rest of the input is dropped |
| DefinitionText.DefineAndExecute | src/post4.c:1517-1630 | from a line of input to its effect: the new word does to the data stack what the names in the text meant before it, and what interpreting them one by one would, with the return stack restored, or throws when they do |

## Left out

- File, terminal, signal, time and environment words, `src/aline.c`, `src/main.c`, `src/hooks.c`, the JNI bridge: input, output and foreign calls.
- The float stack and words; what `strtod` does is a parameter.
- `p4Divu` without a place for the remainder, which leaves the remainder out and nothing else.
- Division.Divu: the fault on division by zero is a result here and a long jump in the original.
- Heap.Heap.Free: needs a live chunk's address, because after `throwerror` the original carries on with an invalid one. How the sort works and what it costs is not modelled, only the order it gives.
- Heap.Heap.SearchFit: the first-fit return is omitted, since its test is never true.
- BlockCache.Cache.Block: needs a block within capacity, because after `throwerror` the original carries on; SAVE-BUFFERS (which leaves unmapped blocks in its own table) and BUFFER's indefinite contents are not modelled.
- BlockCache.Cache.SaveBuf: the web drive, to which nothing can be written, is not modelled, and the cookie drive is an abstract store of whole blocks.
- BlockCache.Cache.LoadBlock: the web drive, which loads over the network some time later, is not modelled.
- BlockCache.Cache.StoreAndUpdate: characters below 2^16 only, since `pack` cannot hold others.
- ControlFlow.Compiler.Compile: the other loop words (+LOOP, FOR, CASE) are not modelled; LEAVE needs an enclosing loop to be executed.
- StructuredSemantics.Simulate: a called colon word of jsforth counts as a plain word, which ends or faults in one turn and leaves code memory alone. Reading below a stack or outside memory, where JavaScript gives `undefined`, is a fault. Numbers are unbounded, so JavaScript's rounding beyond 2^53 is not captured.
- jsforth's CATCH and THROW, double-cell arithmetic and MOVE, which do not do what they are meant to.
- JavaScript arrays that serve as stacks or tables are modelled by their live part.
- InputParser.Input.Parse: the buffer has two bytes past the text, which the original's move touches. Characters are taken in the C locale.
- GuardedStack.Stack.Perform: operations must not underflow; for most of them the original notices underflow only afterwards, by its sentinels. Words that push without making room first are not modelled. The sentinel is that of 64-bit cells, and allocation never fails.
- Dictionary.RunKeepsOrder: one word list, which is never switched; ALIAS, which gives a word another's data, is not modelled. Cells are eight bytes.
- Dictionary.Context.WordAppend: where there is no room the original stores through a null pointer, and the signal that raises is thrown; the model reports the failure.
- ThreadedCode.Interpreter.ReadNumber: the build is one without floating point, where no `flit` is compiled.
- ThreadedCode.Interpreter.CompileToken: words are not immediate, so sources are branch free; the original executes an immediate word at this point.
- Interpretation.CompiledIsInterpreted: names that mean EXIT or LIT are left to `ThreadedCode.WordRuns`; that a word may be compile-only or immediate is not modelled.
- NumberInput.OnlyNumerals: above radix 127 every byte counts as a digit, signs and points too, and the statement stops there.
- ThreadedCode.Interpreter.Define: the data stack that a throw empties and the marker that `;` checks are left out.
- ThreadedCode.Interpreter.Execute: a source that puts LIT before a number, or last, has no meaning and its word is not executed; all other sources have one. Primitives act on the data stack alone, any way they like; growth of the return stack and its failure are left out.
- DefinitionText.DefineText: a failed definition drops the rest of the input at a terminal, as modelled; reading a file, the original returns from the file instead. The names are read through the semicolon before they are compiled, the text is all in one buffer, and `;` has not been redefined. Text without a semicolon, for which the original asks for another line, defines nothing yet.
- `p4ResolvePath`, the optional word sets written in Forth, `reference/buzzard2`, and building and configuration.
