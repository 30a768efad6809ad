# Cosmic C: verified models of runtime, linker and lowering

This project models the parts of the Cosmic C compiler and of its runtime where a mistake is easy to make and hard
to see, and proves what each part is for. Source code that works by changing things in place is modelled by classes,
arrays and loops and proved against functions or predicates; the properties are proved about those.

- **Decimal and hexadecimal floating-point text** (`runtime/decimal`). The 256-limb integers (`Limbs`, `WordLoops`,
  `LoopStates`, `BigInt`), the grammar of numerals (`Numeral`, `NumeralForm`), `strtod` and `strtof` (`Parse*`, `Ratios`), packing
  with rounding (`Rounding`, `SoftFloat`), the exact expansion of binary64 and its rounding to digits
  (`ExactDecimal`, `Decimal*`), the layouts of %f, %e, %g and %a (`NumberText`, `HexLayout`, `HexSteps`, `FloatMeaning`,
  `GeneralNotation`, `FloatPromises`, `TextLayout`, `FloatFormat`), and the round trips between them (`RoundTrip`,
  `ShortRoundTrip`).
- **The first-fit arena** (`runtime/allocator.c`): tiles and what they promise (`ArenaTiles`), where blocks go (`ArenaChoice`), headers in bytes
  (`ArenaMemory`, `ArenaSteps`), and the allocator over an array of bytes (`ArenaAllocator`).
- **The linker** (`saltwater-sia/image.rs`, `archive.rs`): merging (`Merge`, `MergeMeaning`, `MergeLaws`), layout and
  images (`Layout`, `LinkSpec`, `LinkSteps`, `ImageLaws`, `LinkImage`), pruning to what is reachable (`Reachable`, `PruningFails`), lazy extraction (`Archive`).
- **Object formats**: the bundle codec (`Bundle*`, from `saltwater-sia/lib.rs`) and relocatable ELF (`Elf*`, from
  `saltwater-sia/elf.rs`).
- **Statement lowering with variable-length arrays** (`saltwater-sia/lib.rs`): the language and its constraints
  (`VlaProgram`), what its statements do step by step (`VlaMeaning`), the code and its runs (`VlaCode`), which point of
  the program each instruction stands for (`VlaPlaces`, `VlaTracking`), why code and program then show the same
  (`VlaRefines`), the lowerer (`VlaInvariant`, `VlaLowering`), and the arrays of for initialisers (`VlaLoops`).
- **64-bit arithmetic from 32-bit words**: the C helpers (`Integer64`) and the emitted code (`Emitted64`), both
  against the same definitions (`Words`, `WordSteps`, `EmittedSteps`).
- **Variadic calls on AMD64** (`saltwater-amd64`): types and their classes (`CTypes`, `Classification`), the
  caller's plan (`CallSpec`, `CallPlan`, `CallLaws`), the callee's cursor (`VaArgs`), and their agreement (`Variadic`).
- **Constant folding** (`saltwater-parser/fold.rs`): the folder (`Hir`, `Constants`, `Fold`, `FoldLaws`), the meaning of
  expressions on its own (`Evaluation`), that folding keeps it (`FoldArithmetic`, `FoldMeaning`), and what is folded or
  reported when (`FoldReports`).

`dafny verify dfyconfig.toml` verifies everything.

## Findings

- **Falling out of a void function leaks arrays** (`saltwater-sia/lib.rs:1763-1775`). The implicit return at the end
  of a body does not release variable-length arrays, as a return statement does.
  `void f(int n) { int a[n]; }` returns with its array allocated: `VlaLowering.FallingOutLeaks` exhibits the run of
  the code that is lowered for it. The stack is empty there if and only if none of the body's own statements declares
  an array or has one in a loop's initialiser (`NoOuterArrays(body)` in `VlaLowering.FallingOut`). A return statement
  always leaves it empty. The implicit return of `main` has the same branch.
- **Overlapping relocation sites corrupt addends in ELF objects** (`saltwater-sia/elf.rs:591-593`). `patch_addends`
  says it refuses overlapping sites but refuses only equal starts. The addend of an earlier site reads back if and
  only if the later sites leave its four bytes as they were (`Survives` in `ElfObject.AddendSurvives`);
  `ElfObject.OverlapCorrupts` is a pair of sites where they do not. Relocations survive the round trip unchanged
  under exactly that condition (`ElfRoundTrip.FunctionUnchanged`, `ElfRoundTrip.DataUnchanged`).
- **Pruning can make a link fail that succeeds without it** (`saltwater-sia/image.rs:111-172`). Survivors move to
  lower addresses, so a negative addend can go below zero. `PruningFails.PruningBreaks` is an object that links as a
  whole and not after pruning, and `PruningFails.PruningRefuses` both linkers on it. `Reachable.PrunedLinks` gives the
  exact condition; with nonnegative addends it cannot happen (`Reachable.ReachableLinks`).
- **The prepass forgets arrays of for initialisers** (`saltwater-sia/lib.rs:2165-2175`). Lowering keeps them in its
  list to the end of the enclosing block. A goto to a label behind the loop in that block releases down to a depth
  that is too small by exactly those arrays (`VlaLoops.LabelDepth`), and the block's end releases them again:
  `VlaLoops.LoopArrayMissed` is `{ for (int a[n]; c; ) { goto out; } out: ; }`. A goto balances if and only if the
  recorded depth is that of its label (`VlaLoops.GotoBalances`), and the prepass records it if and only if no such
  loop stands before the label in the blocks around it (`VlaLoops.KnownDepths`). A case label behind such a loop in
  the block of its switch is out of step as well, and counts here as a jump into the array's scope. Elsewhere in a block such loops are balanced
  (`VlaLowering.CompileFunction`); as the body of an if, a loop or a switch they are not, for nothing releases their
  arrays (`VlaLoops.PartBalances`).
- **The folder reports an overflow of the wrong sign for products** (`saltwater-parser/fold.rs:31-39`). It takes the
  sign from the wrapped result. `FoldReports.ProductSign` is `0x4000000000000000 * 4`, reported as a negative overflow.
  The sign is right for sums, differences and quotients; for products it is positive if and only if the 64 low bits
  read as a negative number (`FoldReports.SignedFolds`).
- **Constant operands of && and || need not fold** (`saltwater-parser/fold.rs:428-449`). `2 && 3` stays as it is;
  `FoldReports.LogicalFolds` gives the exact condition.

## Model

| member | source | states |
|---|---|---|
| BigInt.CdBig.Mul | runtime/decimal/bigint.h:14-18 | Multiplying the limbs in place by a number up to 2^16 multiplies the value by it; a product below 2^8192 fits the 256 limbs. |
| WordLoops.MulWords | runtime/decimal/bigint.h:14-18 | What a pass of half-word products leaves: words and carry together are the old value times the multiplier. |
| BigInt.CdBig.Add | runtime/decimal/bigint.h:19-22 | The value grows by the added word, with the carry run to its end. |
| BigInt.CdBig.Sub | runtime/decimal/bigint.h:28-31 | The value shrinks by the other value, and the number stays trimmed. |
| BigInt.CdBig.Bits | runtime/decimal/bigint.h:32-34 | The length of the value in bits. |
| BigInt.CdBig.Shift | runtime/decimal/bigint.h:35-41 | The value times 2^bits, whole words moved in place and the rest shifted with carries. |
| BigInt.CdBig.Right1 | runtime/decimal/bigint.h:42-44 | Half the value, rounded down. |
| BigInt.CdBig.DivSmall | runtime/decimal/bigint.h:50-53 | The in-place short division leaves the quotient of the value and returns the remainder. |
| BigInt.Quotient | runtime/decimal/bigint.h:45-49 | Euclidean division: the quotient is returned and the remainder is left in the dividend, for every positive divisor and every quotient of at most 64 bits. |
| SoftFloat.RoundPackCorrect | runtime/softfloat/adapted/binary64-s_roundPackToF64.inc:41-110 | Packing a significand with a sticky bit gives the number behind it rounded correctly in any of four modes, in either format, with overflow, inexact and underflow raised exactly when IEEE 754-2008 (section 7) says: underflow when the result is inexact and tiny after rounding. |
| SoftFloat.JamTwice | runtime/softfloat/adapted/s_roundPackToF32.inc:60-75 | Jamming a jammed significand once more, as the subnormal path does, is jamming once. |
| Rounding.RoundingUnique | runtime/softfloat/adapted/s_roundPackToF32.inc:45-106 | A ratio has one correctly rounded encoding in each mode, so "correctly rounded" fixes the bits. |
| Parse.ParseExponent | runtime/decimal/parse.c:10-15 | The exponent stops where its grammar stops; its value is exact until it saturates, and a saturated value keeps its sign and stays beyond ten thousand million. |
| Parse.ScanDigits | runtime/decimal/parse.c:22-24 | After any number of digits the kept ones are the number, the dropped ones are counted, and the sticky flag says whether a dropped one was nonzero. |
| Parse.BinaryExponent | runtime/decimal/parse.c:35-38 | Bit lengths and one comparison give the floor of the binary logarithm of the ratio. |
| Parse.Quotients | runtime/decimal/parse.c:40 | The significand handed on is the aligned ratio rounded down with everything below jammed into its last bit, and no limb beyond the 256th is needed on the way. |
| Parse.ParseBits | runtime/decimal/parse.c:16-46 | Every text up to the largest object: the end of the subject sequence, and the infinity, NaN, zero or correctly rounded number it denotes, in both formats and four modes, ERANGE exactly on overflow or underflow. Digits beyond the 1200 kept, and exponents far outside the format, never change the rounding. |
| NumeralForm.LongestForm | runtime/decimal/parse.c:16-46 | The subject sequence of section 7.20.1.3 of C99, as a grammar of its own: what is read is the longest stretch behind the white space that is a signed decimal or hexadecimal number, inf, infinity, nan or nan(...), and nothing is read exactly when there is none. |
| ExactDecimal.ExpandedBound | runtime/decimal/format.c:12-19 | No finite number has more exact digits than the buffer of 1200 holds. |
| DecimalBuffer.CdDecimal.Exact | runtime/decimal/format.c:12-19 | The digits and the place of the point denote the binary64 number exactly. |
| DecimalBuffer.CdDecimal.Round | runtime/decimal/format.c:27-36 | Rounding to any number of places, none and fewer included, gives the multiple of that power of ten that the mode picks: ties to even, carries through nines, directed modes by sign. |
| DecimalRounding.IncrementIsPick | runtime/decimal/format.c:20-26 | Deciding from the first dropped digit and "any other digit" is the same as rounding the whole dropped part. |
| FloatFormat.WriteHex | runtime/decimal/format.c:58-70 | The %a text, rounded in place in its 14 digits. |
| FloatFormat.WriteFloat | runtime/decimal/format.c:44-86 | For every conversion of every binary64: the text denotes the number rounded as the conversion asks (section 7.19.6.1 of C99), and %g shows an exponent exactly when the exponent of the rounded number is below -4 or at least the precision. Character by character: %f and %e have exactly the digits of the precision behind the point, %g without # ends in no zero and no bare point and with # shows as many digits as the precision, %a has its prefix and one digit in front; a point stands there exactly when digits follow or # is given, no zero is superfluous in front, exponents have at least two digits (one for %a) and no zero too many, and every letter has the case of the conversion. What does not fit is counted and not stored. |
| TextLayout.OneLayout | runtime/decimal/format.c:44-86 | A text can be cut into prefix, digits, point, digits and exponent in one way only, so the layout says something about the text itself. |
| GeneralNotation.ShownExponent | runtime/decimal/format.c:81-83 | The exponent that the choice of %g looks at is the exponent after rounding to the precision. |
| GeneralNotation.PrecisionCapped | runtime/decimal/format.c:76 | Working with 1200 digits chooses the same notation as any larger precision. |
| RoundTrip.ExactParses | runtime/decimal/parse.c:16-46 | A text that denotes a representable number parses to it in every mode without a flag. |
| RoundTrip.FixedRoundTrip | runtime/decimal/format.c:44-53 | %.1074f, or a longer precision, printed in any mode parses back to the same bits in any mode. |
| RoundTrip.HexRoundTrip | runtime/decimal/format.c:58-70 | %a without a precision, printed in any mode, parses back to the same bits in any mode. |
| ShortRoundTrip.ScientificRoundTrip | runtime/decimal/format.c:54-57 | Seventeen significant digits of %e, printed and parsed to nearest, give the same bits. |
| ShortRoundTrip.GeneralRoundTrip | runtime/decimal/format.c:79-86 | Seventeen significant digits of %g, printed and parsed to nearest, give the same bits. |
| ArenaAllocator.Arena.Init | runtime/allocator.c:5-14 | Fails exactly for a null pointer, for less room than the padding and for an end outside the address space; otherwise the aligned rest of the memory is an empty arena. |
| ArenaAllocator.Arena.Header | runtime/allocator.c:15-23 | A header is found exactly when it describes a block inside the used part. |
| ArenaAllocator.Arena.Alloc | runtime/allocator.c:24-50 | Null exactly when the size is invalid or neither a hole nor the end has room, and then nothing changes; otherwise the first hole that fits is split or the arena grows, one block is added, and every other block keeps its place, size and bytes. |
| ArenaTiles.PutLives | runtime/allocator.c:29-49 | First fit with splitting adds one block to the blocks in use and leaves all others; the used part grows only when no hole fits. |
| ArenaAllocator.Arena.Free | runtime/allocator.c:51-86 | Fails exactly for a pointer that names no block in use, and then nothing changes; otherwise that block goes, touching holes become one, a hole at the end is given up, and all other blocks keep their bytes. |
| ArenaTiles.FreedAllEmpty | runtime/allocator.c:51-86 | Giving back all blocks, in any order and with anything else in between, leaves an arena with nothing used. |
| ArenaTiles.LivesDisjoint | runtime/allocator.c:24-50 | Blocks in use do not overlap. |
| ArenaChoice.PutChoice | runtime/allocator.c:24-50 | Said of the blocks in use alone: a new block takes the lowest gap between them that is long enough, or the end when there is none; it spans eight bytes more than asked for, rounded up to eight, and leaves of the gap what has room for another block. |
| ArenaChoice.BlocksDetermine | runtime/allocator.c:2-4 | The blocks in use determine the whole arena, holes and end included, so what the operations do to the blocks says all. |
| ArenaTiles.TiledPlaces | runtime/allocator.c:51-86 | The invariant that every operation keeps, tile by tile: spans are multiples of eight and at least sixteen, sizes fit their spans, no two holes touch, the last block is in use. |
| ArenaSteps.PayloadWritten | runtime/allocator.c:2-4 | A caller writing inside its block disturbs neither the headers nor another block. |
| ArenaAllocator.Arena.Realloc | runtime/allocator.c:87-109 | A size that fits the span keeps the block where it is; otherwise the first bytes arrive in the block that allocating would give, and the old one goes; without room everything stays; all other blocks keep place, size and bytes. |
| ArenaAllocator.Arena.Calloc | runtime/allocator.c:110-118 | Null exactly when the product leaves 32 bits or there is no room; otherwise all bytes are zero. |
| ArenaAllocator.Arena.Reset | runtime/allocator.c:119 | No block is left and nothing is used. |
| MergeObjects.MergeAll | saltwater-sia/image.rs:174-261 | Several objects merge exactly when all are valid and of the newer format, no two define the same external name and one defines the entry; the new private names are met nowhere and differ from each other. The functions of the objects, and their data, follow one another in the result: the same code or bytes, alignment, read-only bit, offsets and addends, with only private names respelled, in definitions and in targets. Finding the names always ends. |
| MergeMeaning.FunctionPlace | saltwater-sia/image.rs:239-247 | Each place among the merged functions belongs to one function of one object, so every function appears exactly once. |
| MergeMeaning.DataPlace | saltwater-sia/image.rs:248-256 | The same for data. |
| Merge.MergedUnique | saltwater-sia/image.rs:206-258 | Merged definitions have different names. |
| Merge.Resolves | saltwater-sia/image.rs:228-258 | A relocation that named a private definition of its object names that definition and no other after merging; any other relocation keeps its spelling and meets only the one external definition of it. |
| Layout.Disjoint | saltwater-sia/image.rs:35-48 | Placed sections follow one another without overlap. |
| LinkImage.Link | saltwater-sia/image.rs:263-336 | Returns the one image that keeps all the promises, and none exactly when the object is invalid or no image keeps them: code is read-only and executable, data has its own permission and is zero-filled when it is writable zeros without relocations, every region has its name, starts at the first aligned address behind the one before and holds its bytes, every site holds symbol plus addend, the rest is zero, and the entry is the address of the executable region of that name. |
| ImageOnly.OnlyImage | saltwater-sia/image.rs:263-336 | A valid object has at most one image that keeps the promises, and linking succeeds exactly when there is one. |
| ImageLaws.ImageFaithful | saltwater-sia/image.rs:291-336 | The image of the specification keeps them, regions with their permissions and the entry included. |
| LinkSteps.ImageRegions | saltwater-sia/image.rs:35-48 | Regions are named, aligned, ordered, disjoint and inside both the budget and 32-bit addresses. |
| LinkSteps.ImageContents | saltwater-sia/image.rs:50-96 | Every relocation site holds its symbol plus addend as a little-endian word, and every other byte of a region is the input byte. |
| LinkSteps.ImagePadding | saltwater-sia/image.rs:291-331 | Every byte of the image that is in no region is zero. |
| MergeLaws.MergedValid | saltwater-sia/image.rs:174-258 | Merging valid objects gives a valid object: what a linker refuses after merging is never an invalid merge. |
| Reachable.LinkAll | saltwater-sia/image.rs:100-110 | Linking several objects is merging and then linking; the image keeps the promises for the merged object. |
| Reachable.LinkReachable | saltwater-sia/image.rs:111-172 | What survives is the least set of names that holds the entry and is closed under relocation targets; the image is the link of exactly that and keeps the promises for it; the merge is valid, so a failure after it comes from a misplaced relocation in any input, from a missing definition, or from a surviving object that cannot be placed or relocated. |
| Reachable.PrunedLower | saltwater-sia/image.rs:128-172 | The symbols of the pruned object are exactly the live ones, and none gets a higher address than in the full link. |
| Reachable.KeptOrdered | saltwater-sia/image.rs:160-172 | Survivors keep their order. |
| Reachable.PrunedLinks | saltwater-sia/image.rs:111-172 | When the whole links, what is reached links exactly when no surviving negative addend goes below address zero. |
| PruningFails.PruningBreaks | saltwater-sia/image.rs:111-172 | The failing side of that condition is met: one valid object that links as a whole, whose entry reaches only itself and alone does not link, because its addend of -4 goes below address 0. |
| PruningFails.PruningRefuses | saltwater-sia/image.rs:100-172 | On that object the linker that keeps everything returns an image and the pruning linker refuses. |
| Reachable.ReachableLinks | saltwater-sia/image.rs:111-172 | When the whole links and no addend is negative, linking what is reached succeeds. |
| Archive.StaticArchive.ExtractNeeded | saltwater-sia/archive.rs:107-167 | Extraction ends; each member is taken at most once and only when it was the first one needed then; the objects given stay in front; it fails exactly on an object that cannot be linked; at the end no member left out defines a name that is still unresolved. |
| Bundle.Encode | saltwater-sia/lib.rs:160-238 | Succeeds exactly for valid artifacts whose counts and lengths fit their fields, and what it writes decodes to the artifact. |
| Bundle.Decode | saltwater-sia/lib.rs:245-435 | The cursor-driven reader accepts exactly the bundles of the format and returns what they describe. |
| BundleLaws.RoundTrip | saltwater-sia/lib.rs:160-435 | Decoding an encoding gives back the artifact, in whatever order its private names were written. |
| BundleLaws.Unambiguous | saltwater-sia/lib.rs:425-435 | An accepted bundle followed by anything is refused. |
| BundleLaws.PrefixRefused | saltwater-sia/lib.rs:568-582 | Every proper prefix of an accepted bundle is refused. |
| BundleSample.SampleEncoded | saltwater-sia/lib.rs:159-238 | A bundle with one of everything, byte by byte: magic, version, order, widths and byte order of the fields, flags, and the complement of a negative addend. |
| BundleSample.OldEncoded | saltwater-sia/lib.rs:159-238 | The same for the older version, which has no list of private names. |
| ElfWriter.PatchAddends | saltwater-sia/elf.rs:585-600 | Accepts exactly sites inside the bytes, with different offsets and 32-bit addends, and writes the addends in order. |
| ElfObject.AddendSurvives | saltwater-sia/elf.rs:585-600 | An addend reads back from its site exactly when each of its bytes that later sites cover is given the same value by the last of them. |
| ElfObject.DisjointSurvive | saltwater-sia/elf.rs:585-600 | Addends of sites that share no byte all survive. |
| ElfObject.OverlapCorrupts | saltwater-sia/elf.rs:591-593 | Two sites that overlap by half are accepted, and the first addend reads back as -65536 instead of 0. |
| ElfWriter.OrderSymbols | saltwater-sia/elf.rs:404-456 | Whatever the order in which names are walked: every definition once, private ones first, then the external ones, then each undefined name once. |
| ElfWriter.LayOut | saltwater-sia/elf.rs:500-583 | Each section at its aligned offset, its header and name in the tables, and their places in the file header. |
| ElfWriter.Write | saltwater-sia/elf.rs:320-583 | A file that is written is the object of the artifact: sections with patched bodies, symbol and string tables, relocation tables and headers that describe one another. A valid artifact without NUL in names, with patchable addends, fewer than 2^16 sections and room for 32-bit offsets is always written. |
| ElfFields.HeaderFound | saltwater-sia/elf.rs:546-583 | Of the bytes of a written file, with the numbers of the ELF specification written out: a relocatable little-endian 32-bit file for machine 0xff53 whose section headers and section names are where its header says. |
| ElfFields.FunctionSection | saltwater-sia/elf.rs:337-361 | Each function is a loaded and executed section, aligned to four, that holds its code outside relocation sites and the addends inside them. |
| ElfFields.DataSection | saltwater-sia/elf.rs:363-393 | Each datum is a loaded section with its size and alignment, writable unless it is read-only; it is without bytes exactly when it is writable, zero and without relocations. |
| ElfFields.SectionNamed | saltwater-sia/elf.rs:343-393 | Each of those sections is called .text, .data, .rodata or .bss with the name of its definition. |
| ElfFields.SymbolTable | saltwater-sia/elf.rs:473-499 | The symbol table and its strings are the next two sections, and the table tells how many symbols are local. |
| ElfFields.DefinitionSymbol | saltwater-sia/elf.rs:423-447 | Each definition has a symbol for its section, with its name and size, a function or an object, local and among the local ones exactly when it is private. |
| ElfFields.OtherSymbols | saltwater-sia/elf.rs:414-457 | The first symbol is empty, and those behind the definitions are global and without a section. |
| ElfFields.RelocationRecords | saltwater-sia/elf.rs:501-526 | Each definition with relocations has a relocation section that refers to its own and to the symbol table, with a record for each: its site, type 0x80, and a symbol with the name of the target. |
| ElfReader.ReadRelocations | saltwater-sia/elf.rs:847-903 | Every relocation section gives its owner, the one definition whose symbol stands in the target section, its records in order. |
| ElfReader.Read | saltwater-sia/elf.rs:660-916 | Whatever the bytes, an artifact that is returned is valid; a written object within the limits gives back its artifact. |
| ElfArtifact.ResultValid | saltwater-sia/elf.rs:904-916 | What is rebuilt from a valid artifact is valid. |
| ElfRoundTrip.RoundTrip | saltwater-sia/elf.rs:320-916 | Writing and reading back gives the same functions, data, alignments, read-only bits and private names, up to order, with addends in their sites: for fewer than 0xfff1 definitions, at most 64 MiB and targets with names. |
| ElfRoundTrip.FunctionUnchanged | saltwater-sia/elf.rs:585-600 | Relocations of a function come back as they were exactly when all their addends survive. |
| ElfRoundTrip.DataUnchanged | saltwater-sia/elf.rs:585-600 | The same for a data object. |
| ElfRoundTrip.DisjointUnchanged | saltwater-sia/elf.rs:585-600 | With sites that share no byte, all relocations and all bytes outside sites come back as they were. |
| ElfRoundTrip.BssUnchanged | saltwater-sia/elf.rs:320-360 | Corollary for zero-filled writable objects: they have no relocations to lose, so what the round trip restores is the object itself. |
| VlaCode.RunsBalanced | saltwater-sia/lib.rs:2124-2137 | Every run of certified code releases arrays newest first and each once, enters every block with exactly the arrays of its scope, jumps with exactly those of its target, and returns with none left. |
| VlaLowering.FunctionLowerer.CompileStmt | saltwater-sia/lib.rs:2202-2628 | Lowering a statement keeps the compile-time list equal to the run-time stack on every path, through nested blocks, loops (with or without arrays in their initialisers), switches, labels and jumps, and leads from the point in front of the statement to the point behind it, with the targets of break, continue and case where the surroundings have them; unreachable statements add nothing. |
| VlaLowering.FunctionLowerer.RecordLabels | saltwater-sia/lib.rs:2138-2199 | The prepass adds to the recorded depths those of the specification, later labels over earlier ones. |
| VlaLoops.KnownDepths | saltwater-sia/lib.rs:2138-2199 | The recorded depth of a label is the number of arrays in the list there exactly when no loop before it, in the blocks around it, has an array in its initialiser. |
| VlaLoops.LabelDepth | saltwater-sia/lib.rs:2165-2175 | The difference is the number of those arrays, for every statement, scope and starting depth. |
| VlaLoops.GotoBalances | saltwater-sia/lib.rs:2470-2498 | Where a run can be, a goto leaves what the block of its label expects exactly when the recorded depth is the number of arrays in scope at the label. |
| VlaLoops.PartBalances | saltwater-sia/lib.rs:2304-2425 | A part of another statement goes on with the right stack exactly when it left no array, so a for statement with arrays must stand in a block. |
| VlaLoops.LoopArrayMissed | saltwater-sia/lib.rs:2165-2175 | A body that obeys the constraints, with a goto whose recorded depth is 0 while the list at its label holds the loop's array. |
| VlaScopes.BodyNests | saltwater-sia/lib.rs:2478-2498 | In a body that obeys the constraints of sections 6.8.6.1 and 6.8.4.2 of C99, with a loop's arrays in scope to the end of its block as lowering has them, the arrays in scope at the target of a goto are the oldest ones at the jump, so comparing depths is enough. |
| VlaLowering.CompileFunction | saltwater-sia/lib.rs:1673-1775 | Whenever a body that obeys the constraints of C99, and whose gotos aim at labels with known depths, is lowered, its code shows exactly what the body shows: for every sequence of evaluations and declarations, and for returning and falling out, the body has a run if and only if the code has one. The code is certified, and each label has the block whose scope is the label's. |
| VlaRefines.SameShown | saltwater-sia/lib.rs:2202-2628 | Code whose instructions stand for the points of the body shows the same events and ends as the body, in both directions. |
| VlaRefines.StepShows | saltwater-sia/lib.rs:2202-2628 | One step of the code is some steps of the body with the same event: the next statement, either branch, the next turn or the end of a loop, a case, a label. |
| VlaRefines.BodyThenCode | saltwater-sia/lib.rs:2202-2628 | Every run of the body has a run of the code with the same events; no jump of the code goes round without the body making a step. |
| VlaTracking.CasesFound | saltwater-sia/lib.rs:2509-2541 | The case values and the default collected for a switch are those that stand in its body, nested switches left out. |
| VlaLowering.FallingOut | saltwater-sia/lib.rs:1763-1775 | Code that ends without a return statement leaves the arrays of the body's own declarations and loop initialisers, and leaves none exactly when there are none. |
| VlaLowering.FallingOutLeaks | saltwater-sia/lib.rs:1763-1775 | The code lowered for a body that is one declaration has a run that allocates and falls out of the function with the array. |
| Integer64.UDivMod64 | runtime/primitives.c:98-122 | Restoring division over pairs of words: numerator = quotient * denominator + remainder with a smaller remainder, for every nonzero denominator; the carry is the 65th bit. |
| Integer64.Mul32Wide | runtime/primitives.c:81-94 | Shifting and adding gives the full 64-bit product. |
| Integer64.ShiftRightJam64 | runtime/primitives.c:65-79 | The number shifted right with every bit lost jammed into the last place, for every distance. |
| Integer64.Mul64 | runtime/integer64.c:4-10 | The product modulo 2^64. |
| Integer64.SDivMod64 | runtime/integer64.c:16-44 | Fails exactly on a zero denominator and on the least number divided by -1; otherwise truncates toward zero, the remainder with the sign of the numerator. |
| Words.TruncatesUnique | runtime/integer64.c:11-15 | Truncating division has one result, so the contracts of both divisions fix quotient and remainder. |
| Emitted64.Divrem64 | saltwater-sia/integer.rs:124-233 | The emitted loop traps exactly on a zero denominator and on signed overflow, and otherwise yields the quotient or remainder, unsigned or truncated. |
| Emitted64.Multiply64 | saltwater-sia/integer.rs:27-52 | The six emitted partial products give the product modulo 2^64. |
| Emitted64.Shift64 | saltwater-sia/integer.rs:53-107 | The emitted shift is the 64-bit shift by the count modulo 64, whatever word shifts by 32 and more yield. |
| CTypes.LeavesInside | saltwater-amd64/abi.rs:27-31 | Every scalar of a supported type lies inside the bytes of the type, so the two slots are enough. |
| CTypes.NothingWasted | saltwater-parser/arch/mod.rs:79-130 | A member starts at the first aligned byte behind the others, and a structure or union ends at the first multiple of its alignment that holds its members. |
| CTypes.StrictestMember | saltwater-parser/arch/mod.rs:203-240 | The alignment of an aggregate is that of its strictest member, and a union is as long as its longest. |
| CTypes.LeavesAligned | saltwater-parser/arch/mod.rs:79-130 | Every scalar of an aligned object is aligned. |
| Classification.Classes | saltwater-amd64/abi.rs:27-69 | Accepts exactly supported aggregates of at most 16 bytes, and gives each eightbyte its class. |
| ClassSpec.ClassMeaning | saltwater-amd64/abi.rs:32-60 | The class of an eightbyte does not depend on the order of the scalars: INTEGER when an integer touches it. |
| ClassSpec.SseMeaning | saltwater-amd64/abi.rs:32-69 | An eightbyte travels in a vector register exactly when it holds floating scalars and no integer (section 3.2.3 of the System V AMD64 ABI). |
| CallPlan.MakePlan | saltwater-amd64/abi.rs:73-174 | The running counts of registers and stack bytes give the result, the signature and the passing of each argument that the convention prescribes, and it accepts exactly passable types. |
| CallLaws.ResultPointer | saltwater-amd64/abi.rs:94-110 | Section 3.2.3 of the System V ABI: a structure or union of more than 16 bytes as a result, and no other result, puts one pointer in front, in the first integer register. |
| CallLaws.ResultPlace | saltwater-amd64/abi.rs:75-93 | The result is nothing for void, memory for such a structure, the registers of its eightbytes for a smaller one, and one register of its own kind for a scalar. |
| CallLaws.ScalarPlace | saltwater-amd64/abi.rs:111-165 | A floating scalar takes the next vector register, every other scalar the next integer register, and the stack when there is none left. |
| CallLaws.MemoryPlace | saltwater-amd64/abi.rs:111-165 | An aggregate of more than 16 bytes, or one whose eightbytes do not all find registers, lies on the stack as a whole and takes no register. |
| CallLaws.RegisterPlace | saltwater-amd64/abi.rs:111-165 | Otherwise its eightbytes take the next registers of their classes, in order. |
| CallLaws.RegisterKind | saltwater-amd64/abi.rs:36-69 | An eightbyte is in a vector register exactly when it holds floating scalars and no integer. |
| CallLaws.IntegerArguments | saltwater-amd64/abi.rs:94-165 | Of integer arguments, number k goes to integer register k, one further behind a result pointer, and to the stack from the seventh on. |
| CallSpec.RegistersFit | saltwater-amd64/abi.rs:94-140 | Eightbytes that fit the registers left go to the next registers of their classes, and nothing to the stack. |
| CallSpec.ArgumentInSignature | saltwater-amd64/abi.rs:94-165 | The places of one argument are a stretch of the places that the convention assigns over the whole signature. |
| VaArgs.CallSignature | saltwater-amd64/variadic.rs:11-45 | Accepts exactly passable named arguments and promoted extra ones, and plans them as one list. |
| VaArgs.IncomingSignature | saltwater-amd64/stdarg.rs:15-27 | The parameters added to a variadic definition are exactly the registers that its named ones leave free. |
| VaArgs.Capture | saltwater-amd64/stdarg.rs:47-83 | Every register left free reaches its slot of the save area, and the cursor starts where the caller's extra arguments start. |
| VaArgs.VaList.Arg | saltwater-amd64/stdarg.rs:134-236 | One va_arg reads where the caller's plan placed an argument of that type, and moves on exactly as the plan did; a type that cannot be passed, or is not promoted, is refused and leaves the cursor alone. |
| Variadic.ReadInOrder | saltwater-amd64/stdarg.rs:84-236 | A callee that reads the extra arguments with their types never fails, and the k-th read is exactly where the caller put the k-th extra argument. |
| Variadic.WordsArrive | saltwater-amd64/stdarg.rs:47-83 | Each of those reads yields the word that the caller put into the place. |
| Fold.FoldExpr | saltwater-parser/fold.rs:116-257 | Folding ends although operands are folded again: an accepted expression never grows, and keeps its type and its lvalue mark. |
| Fold.FoldBinary | saltwater-parser/fold.rs:322-468 | The result is never larger than the operands together, through every second folding of its helpers. |
| FoldLaws.FoldTwice | saltwater-parser/fold.rs:116-257 | Folding is idempotent on expressions whose comma and conditional arms carry the type of the node. |
| FoldLaws.OnceIsEnough | saltwater-parser/fold.rs:263-291 | On those expressions the folder equals plain recursion that folds each operand once: the second folding changes neither results nor errors. |
| FoldLaws.AnalyzedTyped | saltwater-parser/analyze/expr.rs:1315-1359 | Commas and conditionals built as the analyzer builds them from parts with typed arms have typed arms, and keep them under its in-place pointer conversions. |
| FoldMeaning.FoldKeepsMeaning | saltwater-parser/fold.rs:116-257 | Folding keeps the value of every expression that has one, and what its evaluation does, for every operator, cast, shift, short circuit, conditional and comma: evaluation is from left to right over exact integers and bits and a machine that supplies everything that is no constant, and is undefined where C leaves an integer operation undefined. |
| FoldMeaning.OperateRight | saltwater-parser/fold.rs:341-425 | What an operator makes of two constants is the value of the operator on them. |
| FoldMeaning.CastRight | saltwater-parser/fold.rs:496-536 | What a cast makes of a constant is the converted value. |
| FoldReports.SignedFolds | saltwater-parser/fold.rs:20-43 | Adding, subtracting, multiplying or dividing signed constants gives the exact result when it is a 64-bit integer and ConstOverflow otherwise; its sign is that of the exact result but for products, where it is that of the 64 low bits turned round. |
| FoldReports.ProductSign | saltwater-parser/fold.rs:31-39 | So a product can be reported with the wrong sign: 0x4000000000000000 * 4 is a negative overflow. |
| FoldReports.RemainderFolds | saltwater-parser/fold.rs:395-424 | The remainder is exact, and reported as an overflow exactly for the least integer and -1. |
| FoldReports.NegateFolds | saltwater-parser/fold.rs:146-164 | Negating a constant overflows exactly at the least integer. |
| FoldReports.ZeroRefused | saltwater-parser/fold.rs:378-399 | An integer division or a remainder by a constant zero is DivideByZero, whatever the other operand is. |
| FoldReports.BitsFold | saltwater-parser/fold.rs:8-17 | Bitwise operators and comparisons of signed constants always give the constant of their bits or truth. |
| FoldReports.UnsignedFolds | saltwater-parser/fold.rs:20-43 | Unsigned constants always fold, modulo 2^64. |
| FoldReports.LogicalFolds | saltwater-parser/fold.rs:428-449 | Exactly when a logical operator over two integer constants becomes a constant; 2 && 3 does not. |
| FoldReports.LeftShiftFolds | saltwater-parser/fold.rs:592-650 | Exactly when a left shift of a signed constant is refused, reported as an overflow, or folded to what stays in 64 bits. |
| FoldReports.WideShift | saltwater-parser/fold.rs:539-590 | A right shift by the width or more folds to 0 even when its left operand is no constant, which is dropped. |

## Left out

Contracts that say less than one might expect:

- Parse.ParseBits: texts of more than 2^31 - 1 characters, which no object of the 32-bit target can hold; the counters of the digit loop are `int` and exponent arithmetic stays exact below that.
- FloatFormat.WriteFloat: the character count is unbounded here, while the source's wraps at 2^64; the payload and sign conventions of NaN beyond its spelling are not described.
- BigInt.CdBig.Mul: multipliers above 2^16, which no caller passes and for which the half-word product is not exact.
- BigInt.CdBig.Shift: results of more than 8192 bits; that no caller needs one is proved where the shifts are called.
- MergeObjects.MergeAll: private names are walked in an arbitrary order, so the new names are not determined, only what they must satisfy; the source walks them sorted.
- LinkImage.Link: the failure to reserve host memory for the image.
- ElfWriter.Write: success is promised when `Bound(a)`, an upper bound on the size of the file, stays below 2^32, not for every file that would just fit; undefined names are walked in an arbitrary order, while the source sorts them.
- ElfReader.Read: of files that the writer did not produce only the validity of the result is promised.
- VlaLowering.CompileFunction: when lowering succeeds is said only for a body that is one declaration. Obeying the constraints is not enough: a label inside a loop that is skipped as unreachable, as in `goto L; while (c) { L: ; }`, never gets its block, and a goto behind a skipped declaration can find its recorded depth too large. A goto back to a label behind a loop with arrays balances too, because lowering the label corrects the recorded depth; the contract does not use that.
- FoldMeaning.FoldKeepsMeaning: expressions without a value, as by signed overflow or a shift by the width or more, and those whose comma or conditional arms differ in type from the node.
- FoldLaws.FoldTwice: expressions whose comma or conditional arms differ in type from the node; `FoldLaws.FoldTwiceFails` shows that the hypothesis cannot be dropped, at an expression that the analyzer does not build (`FoldLaws.AnalyzedTyped`).
- VaArgs.VaList.Arg: stack totals of 4 GiB and addresses that wrap; the copy of an aggregate from registers is described by its eightbytes, not by the padding bytes after its size.
- Emitted64.Divrem64: instructions are modelled by their integer meaning, and the trap codes by the kinds of outcome.

Parts of the repository that are not modelled:

- `vsnprintf`: parsing of the format, `va_arg` widths, %n, padding and zero-padded %a, integers and strings.
- The other soft-float operations (`runtime/softfloat`): only packing is modelled, because parsing ends in it.
- `strtof`, `strtod` and `atof` as wrappers: the union conversions and the shared context's flag accumulation.
- Host memory that is not the arena's, and arenas whose metadata a caller has overwritten: the allocator's refusals of corrupt headers are kept in the code, and its contracts speak of arenas in order.
- Parsing of the archive envelope (`saltwater-sia/archive.rs:13-105`): the members are given.
- ELF executables (`write_executable`, `read_executable`), `image/format.rs` and `image/startup.rs`.
- The code of expressions in statement lowering, with their short-circuit blocks: an expression is one instruction that gives some value; the value a return statement hands back; bounds and initialisers of declarations; the byte sizes and addresses of arrays; static locals.
- Cranelift itself, including the check that a block is not filled twice, which is a refusal here.
- The unchecked plan for declarations that are never called, function types as parameters, the vector count that a variadic call passes in RAX, and the check that `va_start` names the last parameter.
- The host's floating operations in the folder: they are an arbitrary unit of which only idempotent narrowing to binary32 is assumed; locations in expressions; the messages of errors. Panics are the error `Abort`.
- Which literal widths C would prescribe: the folder and the evaluation both compute in 64 bits.
- Command-line drivers, file access, the linker process, benches, fuzz targets and test vectors.
