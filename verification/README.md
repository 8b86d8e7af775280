# Verified models of fakecc's analyses, arithmetic and encoders

This project models the parts of the fakecc compiler and its runtime library in which a mistake is
silent, and proves what they promise for all inputs. It follows the C sources file by file: state that
the source updates in place is an array or a class here, each loop carries its invariant, and what a
method computes is tied to a definition that does not mention the method.

| files | source | subject |
|---|---|---|
| `Graphs`, `Rpo`, `DomTree` | `src/cfg.c`, `src/domtree.c` | depth-first numbering, immediate dominators, dominance frontiers |
| `Cfg`, `Flow` | `src/cfg.c` | basic blocks from flat instructions, and what dominance of blocks means for executions |
| `FreeList`, `Malloc` | `runtime/malloc.c` | the address-ordered, splitting and coalescing free list |
| `Words`, `Int128` | `runtime/int128.c` | 128-bit division, shifts and conversions to and from IEEE formats |
| `Decimal`, `Bid`, `Wide`, `DecimalOps`, `DecimalSum`, `DecimalMeaning` | `runtime/decimal.c`, `src/dfp.c` | decimal floating point at run time and in the constant folder |
| `Bytes`, `LineProgram` | `src/debug.c` | LEB128 and the DWARF line table with the machine that runs it |
| `Records`, `RecordIO` | `src/debug.c` | serialized debug records and their parser |
| `Assembler` | `src/a64.c` | labels, fixups, wide branches and constants of the AArch64 assembler |
| `Layout` | `src/ast.c` | struct layout with bit-fields |
| `Rounding` | `runtime/printf.c` | decimal and hexadecimal digit rounding |
| `Sorting`, `Markers`, `Shadow` | `runtime/stdlib.c`, `src/opt.c`, `runtime/sanitizer.c` | quicksort, marker extraction, shadow memory |

Some results differ from what the sources or their comments suggest, and are stated as they are:

- The dominator fixpoint sweeps blocks in order of their ids. It is exact on every graph, not only on
  reducible ones, and needs at most n + 1 sweeps: after k sweeps every block within k edges of the
  entry has its final ancestors (`Dominators.SettledIsExact`).
- The constant folder and the runtime disagree in one case: for `inf * 0` and `inf / inf` the runtime
  sets the sign of the NaN from the operands and the folder does not (`DecimalOps.FoldAgrees`,
  `DecimalOps.FoldDiffers`).
- Decimal results drop their digits one at a time, so they are not always correctly rounded: they are
  within 6/11 of a unit of the last digit, and one rounding gives the same exactly when the digits cut
  off do not lie between one half and 5/11 or 6/11 of a unit (`Decimals.IteratedIsRoundedOnce`,
  `Decimals.QuantizedIsClose`; 13 * 7692319 in `DecimalOps.ProductRoundedTwice`).
- Finite decimal results with an exponent above emax - (p - 1) do not survive encoding
  (`Bid.DecodeOfEncode`); 1E90 * 1E6 in decimal32 reads back as 8388609E-81
  (`DecimalOps.ProductLeavesFormat`).
- `dfp_ndigits` answers 39 from 10^37 on, which is right only from 10^38 on (`Decimals.CountedIsDigits`,
  `Decimals.CountedTooMany`).
- A region mapped right behind a free chunk is not merged with it (`FreeLists.GrowSummary`), but the
  request it was mapped for takes it at once, so free chunks stay apart wherever the system maps
  regions. The one exception is a request so close to 2^64 that its region wraps around
  (`Allocator.Heap.Malloc`, `FreeLists.RegionNotMerged`).
- Without any line entry the end of the line sequence lies at the distance from the text base instead
  of the address, which is wrong unless the text begins at 0 (`LineProgram.EndsRight`,
  `LineProgram.EndsTooLow`).
- `align_up` masks, so it aligns only for powers of two. `aligned` insists on one but `vector_size` does
  not; the order of members and the size that covers them do not depend on it
  (`Layout.AlignsExactlyPowers`, `Layout.VectorOfTwelve`).
- Sums are aligned to the larger exponent and cut there, so they are correctly rounded only under a
  condition (`DecimalSums.SumIsRounded`, `DecimalSums.SumLosesDigits`).
- The smaller operand of a difference leaves one unit of the larger exponent behind when it is cut away, so
  1E3 - 999 is 0 (`DecimalMeaning.DifferenceVanishes`). Quotients of decimal128 keep the low 128 bits of a
  quotient that may be larger (`DecimalMeaning.OverMeans`, `DecimalMeaning.QuotientWraps`).
- Two line entries at one pc in different files leave the line of the second under the file of the first
  (`Records.FileStaysBehind`).
- The wide form of a conditional branch never reaches its label for the condition codes 14 and 15
  (`Assembler.WideConditionalReaches`, `Assembler.AlwaysMissed`).
- Poisoning closes whole eight-byte chunks, and unpoisoning closes the rest of the last one
  (`Shadow.Sanitizer.Poison`, `Shadow.Sanitizer.Unpoison`).
- The sum of two zeros is the second operand, so addition does not commute on zeros of different sign
  or exponent (`DecimalOps.SumCommutes`).

Numbers that C keeps in unsigned words are naturals with the wrap-around written out; C's truncating
division occurs on nonnegative operands only.

## Model

| member | source | states |
|---|---|---|
| Dominators.DomTree.constructor | src/domtree.c:11-113 | for every graph, reducible or not, the build ends with idom exactly the immediate dominator of each reachable block but the entry and -1 elsewhere, and with frontier lists that hold exactly the blocks the frontier walk meets, without duplicates |
| Dominators.DomTree.Dominates | src/domtree.c:115-123 | for a reachable b the walk up the tree meets a exactly when a lies on every path from the entry to b; an unreachable b is dominated by itself only |
| Dominators.ImmediateDominators | src/domtree.c:34-80 | the fixpoint loop stops after at most n + 1 sweeps, on any graph, with the exact immediate dominators |
| Dominators.Sweep | src/domtree.c:38-74 | one sweep keeps the tree invariant, settles every block reachable within one more edge, and reports no change only at a fixpoint |
| Dominators.Intersect | src/domtree.c:60-67 | walking two blocks up by number meets in a common ancestor that keeps every common dominator, and terminates |
| Dominators.StoreKeepsInv | src/domtree.c:70-73 | storing a new parent keeps the run invariant: no walk skips a true dominator and the tree stays acyclic |
| Dominators.FixpointIsSettled | src/domtree.c:36-75 | a sweep without a change proves every layer of the graph settled |
| Dominators.SettledIsExact | src/domtree.c:34-80 | a tree settled on every layer holds the immediate dominator of every reachable block |
| Dominators.ImmediateDominatorUnique | src/domtree.c:34-80 | no block has two immediate dominators |
| Dominators.FrontierIsDominanceFrontier | src/domtree.c:82-112 | for reachable x the computed frontier of x contains b exactly when x dominates a predecessor of b but not b strictly, except that the entry is dropped when it has a single predecessor |
| Dominators.AddToFrontiers | src/domtree.c:96-111 | the walk from one predecessor adds b to exactly the blocks from it up to the parent of b, once each |
| Numbering.Rpo | src/cfg.c:152-215 | the search ends, never holds more than n blocks on its stack, numbers exactly the reachable blocks 0 to k-1 with the entry 0, and closes a cycle over every retreating edge |
| Numbering.SearchNumbers | src/cfg.c:204-212 | the reversed postorder of a finished search numbers every reachable block, the entry 0, each other one above one of its predecessors |
| Numbering.RoomLeft | src/cfg.c:163-165 | blocks on the stack and blocks in the postorder together never exceed n, so no push is out of bounds |
| Numbering.PushKeeps | src/cfg.c:181-190 | visiting an unvisited successor keeps the search invariant |
| Numbering.PopKeeps | src/cfg.c:193-197 | finishing a block whose successors are all visited keeps the search invariant |
| Numbering.FinishedExactlyReachable | src/cfg.c:173-198 | when the stack is empty exactly the reachable blocks are in the postorder |
| Numbering.RetreatLeadsBack | src/cfg.c:204-212 | an edge from u to v with a number not above that of u comes with a path from v back to u |
| Numbering.DominatorHasLowerNumber | src/cfg.c:204-207 | a strict dominator always has the smaller number, which the walks of the dominator tree rely on |
| CfgBuild.Cfg.Build | src/cfg.c:72-150 | the blocks tile the instructions with labels only first and terminators only last, predecessor and successor lists mirror each other, and a block has an edge to another exactly when some value of the operand of its last instruction passes control to the first instruction of the other |
| CfgBuild.Cfg.SplitBlocks | src/cfg.c:79-101 | the first pass cuts exactly at labels and behind terminators and leaves no block empty |
| CfgBuild.Cfg.LinkBlock | src/cfg.c:105-149 | the second pass adds exactly the edges of the last instruction of a block |
| CfgBuild.Cfg.FindLabel | src/cfg.c:65-70 | the first block with the label, or -1 when there is none |
| CfgBuild.Cfg.Link | src/cfg.c:32-53 | an edge is recorded on both sides and only once |
| CfgBuild.GoesIsTransfer | src/cfg.c:113-148 | for unique labels, the block found by label or fall-through is the one where control arrives |
| CfgBuild.TargetsAreSteps | src/cfg.c:113-148 | the labels in an instruction are those that some value of its operand leads to by its opcode, and a terminator is an instruction that never goes on with the next one |
| InstructionFlow.BlockDominanceIsInstructionDominance | src/cfg.c:72-150 | a block dominates another exactly when every execution that reaches the first instruction of the second has executed the first instruction of the first |
| InstructionFlow.TraceToWalk | src/cfg.c:72-150 | every execution of the instructions follows a path of blocks |
| InstructionFlow.StaysInside | src/cfg.c:79-101 | whatever the operands are, a block goes on with the next instruction up to its last one, behind which stands a label or which never goes on; only its first instruction is a label |
| InstructionFlow.WalkToTrace | src/cfg.c:72-150 | every path of blocks is followed by an execution that stays inside those blocks |
| Allocator.Heap.Malloc | runtime/malloc.c:77-121 | answers exactly the lowest free chunk that fits, or else the region the system grants, or else null; maps exactly the regions it asked for and was granted; the payload is 16-aligned, disjoint from every live one, holds the request, is zero, and leaves every other payload as it was; chunks keep tiling the mapped bytes, the list stays ordered, and free chunks come to touch exactly when a region mapped in vain for a request near 2^64 begins where a free chunk ends |
| Allocator.Heap.Free | runtime/malloc.c:123-148 | takes exactly that payload out of use, does nothing for null or a listed chunk, keeps tiling and list order, and leaves no free chunk touching another if none did before |
| Allocator.Heap.Calloc | runtime/malloc.c:150-157 | null and an untouched heap exactly on overflow of the product; otherwise the answer of malloc for the product, with that many zero bytes and every other payload as it was |
| Allocator.Heap.Realloc | runtime/malloc.c:159-179 | a block that holds n bytes already is returned with all its bytes; otherwise the answer of malloc, to which the common prefix moves; null and 0 act as malloc and free; every other payload stays, and on failure this one too |
| Allocator.Heap.Stock | runtime/malloc.c:79-81 | an empty list grows by the granted region, and serves a request that does not wrap around from it |
| Allocator.Heap.HeapGrow | runtime/malloc.c:42-69 | maps exactly the granted bytes and makes them one free chunk, together with a free chunk right behind them, leaving the other free chunks alone; the list stays free of touching chunks exactly when the region does not begin where a free chunk ends |
| Allocator.Heap.FirstFit | runtime/malloc.c:82-88 | the chunk of lowest address among the free ones that are large enough |
| Allocator.Heap.FindPlace | runtime/malloc.c:56-61 | the neighbours of an address in the list |
| Allocator.Heap.Insert | runtime/malloc.c:128-142 | insertion by address, with the merge into the right neighbour |
| Allocator.Heap.Release | runtime/malloc.c:128-147 | both merges of free, and what they leave in use |
| Allocator.Heap.Take | runtime/malloc.c:100-114 | splitting off the rest when it can hold a chunk, or taking the chunk whole |
| Allocator.Heap.MergeNext | runtime/malloc.c:138-142 | a listed chunk swallows its successor exactly when the two touch |
| Allocator.Heap.LinkIn | runtime/malloc.c:134-137 | a chunk joins the list between its neighbours |
| Allocator.Heap.MoveTo | runtime/malloc.c:171-178 | the answer of malloc; a block there has the common prefix and the old block is freed, and on failure nothing in use changes |
| Allocator.Heap.Resize | runtime/malloc.c:166-169 | in place, with every byte of the block kept and nothing else changed |
| Allocator.Heap.CopyPayload | runtime/malloc.c:173-176 | the prefix of one payload in another, everything else as it was |
| FreeLists.MergeTiles | runtime/malloc.c:138-147 | merging two adjacent chunks loses no byte and shares none |
| FreeLists.CarveTiles | runtime/malloc.c:100-108 | splitting a chunk keeps the tiling |
| FreeLists.InsertLists | runtime/malloc.c:128-137 | linking a chunk at its place keeps the list strictly ordered, with state 1 exactly on listed chunks |
| FreeLists.UnlinkLists | runtime/malloc.c:109-113 | taking a chunk off keeps that too |
| FreeLists.MergeLists | runtime/malloc.c:138-147 | merging does too |
| FreeLists.GrowSummary | runtime/malloc.c:51-68 | a region that begins right behind a free chunk is the one way in which two free chunks come to touch |
| FreeLists.RegionNotMerged | runtime/malloc.c:56-68 | a heap of one free chunk and a request of 2^64 - 112 bytes whose region is granted right behind it: two free chunks are left touching |
| FreeLists.RegionIsGrown | runtime/malloc.c:51-68 | the new region is one free chunk, with the bytes of a free chunk right behind it if there is one, and no other free chunk changes |
| FreeLists.GrownServes | runtime/malloc.c:89-99 | after growing for a request that did not fit, exactly the new chunk serves it |
| FreeLists.OnlyRoomyFit | runtime/malloc.c:49-53 | a request so large that its region wraps around fits no chunk |
| FreeLists.ServedIsRoomy | runtime/malloc.c:77-121 | a request that is served never leaves free chunks touching, wherever the system maps its region |
| FreeLists.LiveDisjoint | runtime/malloc.c:77-121 | live payloads are pairwise disjoint, with room for a header between them |
| FreeLists.TakenCoalesced | runtime/malloc.c:100-113 | serving a request leaves no free chunks touching, not even where the chunk that serves it touched the one before it |
| FreeLists.ReturnedCoalesced | runtime/malloc.c:128-147 | after free the merged block touches no free chunk |
| FreeLists.TakenIsAllocated | runtime/malloc.c:100-121 | serving from a free chunk adds exactly one payload and changes no other |
| FreeLists.CopyThenFree | runtime/malloc.c:171-178 | allocating, copying and freeing move a payload with its prefix |
| FreeLists.DivisionDetectsOverflow | runtime/malloc.c:151 | the division test is true exactly when the product does not fit |
| FreeLists.Align16 | runtime/malloc.c:23-26 | the next multiple of 16, saturating at the last one |
| FreeLists.Region | runtime/malloc.c:43-47 | what is mapped: whole pages, at least a mebibyte, and room for the request and a header unless the sum wraps around |
| FreeLists.ListFrom | runtime/malloc.c:82-88 | following the links from the head visits every free chunk, in increasing order of address |
| Int128.UDivMod | runtime/int128.c:19-55 | quotient and remainder are exact for every 128-bit dividend and nonzero divisor, those above 2^127 included; division by zero gives 0 and the dividend |
| Int128.Ge | runtime/int128.c:5-9 | the order of the two-limb values |
| Int128.Sub | runtime/int128.c:11-17 | the difference modulo 2^128 |
| Int128.Add1 | runtime/int128.c:85-89 | the successor modulo 2^128 |
| Int128.ShiftIn | runtime/int128.c:37-43 | the shifted remainder, with the 129th bit kept as the carry |
| Int128.DivideBit | runtime/int128.c:36-50 | one step of the long division keeps quotient and remainder of the dividend bits read so far |
| Int128.Clz64 | runtime/int128.c:57-67 | 64 minus the bit length |
| Int128.Shl128 | runtime/int128.c:69-75 | the left shift modulo 2^128 for every count |
| Int128.Shr128 | runtime/int128.c:77-83 | the right shift for every count |
| Int128.Neg | runtime/int128.c:91-97 | the negative modulo 2^128 |
| Int128.SignedAbs | runtime/int128.c:155-162 | sign and magnitude of the two's complement value, the most negative one included |
| Int128.ToIeee | runtime/int128.c:100-153 | the bits are those of the value rounded to the significand width, for every magnitude, both formats and both signs |
| Int128.QuartersRound | runtime/int128.c:115-135 | keeping two extra bits with a sticky last one, then setting, adding and dropping, is rounding to nearest with ties to even |
| Int128.RoundEvenIsNearest | runtime/int128.c:115-145 | the rounded quotient is nearest, and even when two are equally near |
| Int128.NearestOfAll | runtime/int128.c:100-153 | no value with a significand of that width and any exponent is nearer to the magnitude, and one as near leaves the chosen significand even (section 4.3.1 of IEEE 754-2019) |
| Int128.RoundedValue | runtime/int128.c:136-153 | significand and exponent, after the carry, stand for the rounded integer |
| Int128.InfinityThreshold | runtime/int128.c:136-153 | infinity results exactly for binary32 magnitudes of at least 2^128 - 2^103 |
| Int128.IeeeFields | runtime/int128.c:146-153 | sign, biased exponent and fraction read back from the packed bits |
| Int128.UnitFloats | runtime/int128.c:100-153 | the patterns of 1 and 0 in binary32 and of -1 and 0 in binary64 |
| Int128.MagToI128 | runtime/int128.c:283-314 | the scaled significand rounded toward zero, under its sign, and 0 outside the exponents 0 to 127 |
| Int128.Fix | runtime/int128.c:321-363 | conversion of every bit pattern of both formats, with the results for infinities and NaNs |
| Int128.FixedTruncates | runtime/int128.c:100-153 | a finite pattern of either format becomes its value rounded toward zero, 0 below 1 and from 2^128 on |
| Int128.SignedMagnitude | runtime/int128.c:127-138 | the result is the magnitude under its sign; an unsigned negative one wraps around in the low word when it fits there |
| Int128.FixedSpecials | runtime/int128.c:316-346 | infinities become 0, NaNs and negative infinities without a sign to go to the pattern of two set limbs |
| Int128.FixedOfFinite | runtime/int128.c:283-314 | converting a finite result of u128_to_ieee back gives the rounded integer |
| Int128.UnsignedRoundTrip | runtime/int128.c:283-314 | an unsigned value survives the way to a float and back exactly when its set bits fit the significand |
| Int128.SignedRoundTrip | runtime/int128.c:283-314 | the same for signed values |
| Decimals.Mul64 | runtime/decimal.c:51-64 | the full 128-bit product of two words |
| Decimals.MulSmall128 | runtime/decimal.c:66-75 | the product by a word modulo 2^128 |
| Decimals.AddLimbs | runtime/decimal.c:30-36 | the sum modulo 2^128 |
| Decimals.Div10 | runtime/decimal.c:77-93 | quotient and remainder by ten of a two-limb value |
| Decimals.NDigits | runtime/decimal.c:116-128 | the number of decimal digits below 10^37, and 39 from there on |
| Decimals.CountedIsDigits | runtime/decimal.c:116-128 | below 2^128 the count is the number of digits exactly below 10^37 and from 10^38 on |
| Decimals.CountedTooMany | runtime/decimal.c:116-128 | the 38 digits of 10^37 are counted as 39 |
| Decimals.Quantize | runtime/decimal.c:130-164 | the loop terminates and computes the digit-by-digit rounding |
| Decimals.QuantizedIsClose | runtime/decimal.c:130-164 | a finite result is within 6/11 of its own last digit of the input however many digits were dropped, and correctly rounded exactly when the digits cut off do not lie between one half and the threshold (5/11 of a unit behind an odd digit, 6/11 behind an even one); it lies in the format and has full precision unless its exponent is the smallest |
| Decimals.IteratedExactly | runtime/decimal.c:137-158 | dropping digits one at a time, without the iteration: the quotient goes up exactly when the part cut off is above 5/11 or 6/11 of a unit |
| Decimals.IteratedIsRoundedOnce | runtime/decimal.c:137-158 | dropping digits one at a time gives one correct rounding exactly when the part cut off avoids that gap |
| Decimals.RoundedTwice | runtime/decimal.c:137-158 | 146 loses two digits to 2, where one rounding gives 1 |
| Decimals.CloseIsSharp | runtime/decimal.c:137-158 | 6/11 cannot be improved: for every number of digits some coefficient comes within 6/11 of the last place of it |
| Decimals.QuantizedIsIterated | runtime/decimal.c:137-158 | the loop drops exactly the counted digits before it stops on a finite value |
| Decimals.DroppedIsLeast | runtime/decimal.c:137-140 | no smaller number of digits would leave a coefficient and an exponent of the format |
| Decimals.OverflowExactly | runtime/decimal.c:130-164 | a value becomes infinite exactly when it still has too many digits, or too large an exponent, at the largest exponent |
| Bid.Encode | runtime/decimal.c:166-223 | the coded words for every value whose fields fit, in all three widths and both coefficient forms |
| Bid.Decode | runtime/decimal.c:225-279 | the value of every coded word in all three widths |
| Bid.DecodeOfEncode | runtime/decimal.c:166-279 | decoding undoes encoding of a finite value exactly up to the exponent emax - (p - 1) (section 3.5.2 of IEEE 754-2019) |
| Bid.ReadsAsLong | runtime/decimal.c:166-279 | what a finite value above that exponent reads back as, for a coefficient of the usual form |
| Bid.EncodeOfDecode | runtime/decimal.c:166-279 | encoding undoes decoding on every finite word, and on infinities and NaNs exactly when they carry no payload |
| Bid.QuantizedEncodes | runtime/decimal.c:130-164 | whatever quantizing leaves fits the fields of the encoding |
| DecimalOps.Convert | runtime/decimal.c:651-668 | a conversion between widths decodes, quantizes and encodes |
| DecimalMeaning.ConversionMeans | runtime/decimal.c:651-668 | a conversion keeps sign, infinity and NaN; a number comes within 6/11 of the last digit of the result, and becomes 0 or infinite only beyond the ends of the format |
| DecimalOps.WidenNarrow | runtime/decimal.c:651-668 | widening and narrowing a finite word is the identity exactly when its coefficient is canonical and a zero has exponent 0 |
| DecimalOps.ThroughBoth | runtime/decimal.c:955-1006 | a decimal32 value widened to decimal128 through decimal64 comes back to the same decimal64 word |
| DecimalOps.AddFinite | runtime/decimal.c:290-339 | addition with the smaller operand cut to the larger exponent, and the sticky correction when signs differ |
| DecimalOps.CutDigits | runtime/decimal.c:309-314 | quotient by a power of ten, and whether anything was cut off |
| DecimalOps.SumIsExact | runtime/decimal.c:290-339 | when aligning cuts off no digit, the sum is the exact signed sum, rounded once |
| DecimalSums.SumIsRounded | runtime/decimal.c:290-339 | for canonical operands of every width a finite sum is the real sum correctly rounded exactly under a condition on the operands: what aligning cuts off is at most half of the last place of the format, or cutting and then dropping digits rounds as one rounding does; its sign is that of the real sum |
| DecimalSums.SumLosesDigits | runtime/decimal.c:290-339 | 1E11 + 9999999 in decimal32 stays 1E11, where 1000100E5 is correctly rounded |
| DecimalSums.AlignedCuts | runtime/decimal.c:302-337 | aligning keeps exactly the whole units of the real sum, in the larger exponent, for either sign |
| DecimalSums.CutIsRoundedOnce | runtime/decimal.c:309-314 | cutting digits off and dropping more of them one at a time is one rounding exactly when what was removed avoids the gap |
| DecimalSums.QuantizedAtDigits | runtime/decimal.c:130-164 | quantizing a coefficient at an exponent of the format drops exactly the digits it has in excess, carries included |
| DecimalOps.SumCommutes | runtime/decimal.c:290-339 | addition commutes except between two different zeros |
| DecimalOps.ZeroSums | runtime/decimal.c:290-339 | 0 + (-0) is -0, and -0 + 0 is 0 |
| Wide.Product256 | runtime/decimal.c:366-381 | the four-limb product of two coefficients is exact |
| Wide.AddLimb | runtime/decimal.c:341-349 | the sum of two limbs and a carry, with the carry out |
| Wide.Fold | runtime/decimal.c:383-412 | a product above 128 bits loses its last digits until it fits |
| Wide.FoldedCuts | runtime/decimal.c:383-412 | the digits lost are the fewest that let the product fit |
| Wide.MulSmall | runtime/decimal.c:420-432 | the limbs of an array times a word, modulo the width of the array |
| Wide.BitOfLimbs | runtime/decimal.c:434-437 | bit i of the number that the limbs spell |
| Wide.Divide256 | runtime/decimal.c:462-482 | the 256-step division is exact: quotient and remainder of a four-limb dividend by any nonzero two-limb divisor |
| DecimalOps.MulFinite | runtime/decimal.c:351-418 | the product as the runtime computes it |
| DecimalOps.DivFinite | runtime/decimal.c:439-497 | the quotient as the runtime computes it, scaled in 256 bits |
| DecimalOps.Shift10 | runtime/decimal.c:281-288 | the product by a power of ten modulo 2^128 |
| DecimalOps.FolderMulFinite | src/dfp.c:310-333 | the product as the folder computes it, from the low 128 bits |
| DecimalOps.FolderDivide | src/dfp.c:358-373 | the 128-step division without a carry test is exact for divisors below 2^127 |
| DecimalOps.FolderDivFinite | src/dfp.c:335-378 | the quotient as the folder computes it, scaled in 128 bits |
| DecimalOps.ProductIsClose | runtime/decimal.c:351-418 | for decimal32 and decimal64 operands a finite product is within 6/11 of its own last digit of the exact product, and correctly rounded exactly when the digits dropped from it avoid the gap |
| DecimalOps.ProductRoundedTwice | runtime/decimal.c:351-418 | 13 times 7692319 in decimal32 becomes 1000002E2, where the exact product rounds to 1000001E2 |
| DecimalOps.ProductLeavesFormat | runtime/decimal.c:351-418 | the decimal32 words of 1E90 and 1E6 have a product word that reads back as 8388609E-81 |
| DecimalOps.QuotientIsClose | runtime/decimal.c:439-497 | for decimal32 and decimal64 operands a finite quotient is within 6/11 + 10^-4 of its own last digit of the exact quotient, within 6/11 when the division is exact, and correctly rounded exactly when the digits dropped from the sticky quotient avoid the gap |
| DecimalOps.StickyRounds | runtime/decimal.c:484-496 | one rounding of the quotient made odd when something remains is one rounding of the exact quotient |
| DecimalOps.RuntimeOp | runtime/decimal.c:499-554 | the special cases of the four operations around the finite ones |
| DecimalOps.FolderOp | src/dfp.c:380-432 | the same in the folder |
| DecimalOps.RuntimeBits | runtime/decimal.c:590-601 | from coded operands to the coded result at run time |
| DecimalOps.FolderBits | src/dfp.c:517-527 | from coded operands to the coded result at compile time |
| DecimalOps.FoldAgrees | src/dfp.c:380-432 | on every pair of decimal32 or decimal64 words folder and runtime give the same bits for all four operations, exactly unless they meet inf * 0 or inf / inf under different signs |
| DecimalMeaning.PlusMeans | runtime/decimal.c:499-527 | for all finite operands of every width, zeros and non-canonical ones included and in either exponent order, a + b is finite, has the sign of the real sum and is less than 17/11 of its last digit away from it |
| DecimalMeaning.MinusMeans | runtime/decimal.c:499-527 | the same for a - b and the real difference |
| DecimalMeaning.ZeroOperands | runtime/decimal.c:297-298 | a zero operand leaves the other one as it is, and of two zeros the second |
| DecimalMeaning.PlusRounds | runtime/decimal.c:290-339 | a + b of canonical operands is the real sum correctly rounded exactly under the condition on the operands |
| DecimalMeaning.MinusRounds | runtime/decimal.c:290-339 | the same for a - b |
| DecimalMeaning.DifferenceVanishes | runtime/decimal.c:324-334 | 1E3 - 999 is 0 in decimal32, and the real difference is 1 |
| DecimalMeaning.TimesMeans | runtime/decimal.c:528-539 | a * b of nonzero operands has the sign of the real product, is infinite exactly when it still has too many digits at the largest exponent, and is within 6/11 of its last digit of the real product, in decimal128 10^-4 more when digits are folded away |
| DecimalMeaning.TimesZero | runtime/decimal.c:528-539 | a zero operand makes a zero under the sign of the product |
| DecimalMeaning.OverMeans | runtime/decimal.c:439-497 | a / b of nonzero operands has the sign of the real quotient, is infinite exactly when it still has too many digits at the largest exponent, and is within 6/11 + 10^-4 of its last digit of the real quotient, in every width as long as the scaled quotient fits 128 bits |
| DecimalMeaning.NarrowQuotient | runtime/decimal.c:439-497 | quotients of decimal32 and decimal64 words always fit |
| DecimalMeaning.QuotientWraps | runtime/decimal.c:483-490 | 1E33, written with 34 digits, divided by 1 in decimal128 loses the high half of its quotient and comes out below 10^4 |
| DecimalMeaning.Specials | runtime/decimal.c:499-554 | what each operation gives for zeros, infinities and NaNs |
| DecimalMeaning.FolderMeans | src/dfp.c:380-432 | the folder computes the same values in decimal32 and decimal64, up to the sign of an invalid result |
| DecimalMeaning.OperandIsCodable | runtime/decimal.c:226-279 | every finite word codes an operand that these results cover |
| DecimalMeaning.OneWords | runtime/decimal.c:226-279 | the words of 1 in the three widths |
| DecimalMeaning.LargestWords | runtime/decimal.c:226-279 | the words of the largest finite numbers in the three widths |
| DecimalOps.FoldDiffers | src/dfp.c:400-404 | for the decimal32 words of inf and -0 the folder gives 0x7C000000 and the runtime 0xFC000000 |
| Bytes.Buffer.UnsignedLeb | src/debug.c:119-126 | appends the unsigned LEB128 form |
| Bytes.Buffer.SignedLeb | src/debug.c:108-118 | appends the signed LEB128 form of a positive or negative number |
| Bytes.UlebRoundTrip | src/debug.c:119-126 | decoding undoes the unsigned encoding, whatever follows (section 7.6 of DWARF 4) |
| Bytes.SlebRoundTrip | src/debug.c:108-118 | decoding undoes the signed encoding, whatever follows |
| Bytes.UnsignedExamples | src/debug.c:119-126 | the encodings that section 7.6 of DWARF 4 lists for unsigned numbers |
| Bytes.SignedExamples | src/debug.c:108-118 | the encodings that section 7.6 of DWARF 4 lists for signed numbers |
| LineProgram.EmitDebugLine | src/debug.c:1002-1100 | reading the emitted section gives the file table and, in order, one row for each line entry with its address, file, line, prologue mark and the last positive column so far, then the end of the sequence; for names a C string and a file table can hold, up to 4 GiB |
| LineProgram.EmitProgram | src/debug.c:1056-1093 | running the emitted opcodes gives exactly those rows |
| LineProgram.EndsRight | src/debug.c:1086-1092 | the sequence ends at its address exactly when some line set one or the text begins at 0 |
| LineProgram.EndRowIsLast | src/debug.c:1086-1092 | the end row lies at or behind the last line and the end of every function, at the address of one of them; without lines the text base takes the place of the last line, and the address is short of it |
| LineProgram.SampleProgram | src/debug.c:1056-1093 | a program with every opcode that is emitted, byte by byte, and its rows |
| LineProgram.EndsTooLow | src/debug.c:1086-1092 | a function of 16 bytes without a line in a text at 0x400000: the sequence ends at 16 |
| LineProgram.EmitLine | src/debug.c:1059-1085 | the opcodes of one entry append one row with its address, file, line and prologue mark and the last positive column so far, and leave the registers in step |
| LineProgram.MoveTo | src/debug.c:1065-1070 | the machine arrives at the address, whichever opcode is chosen |
| LineProgram.FileIndex | src/debug.c:1062-1064 | the number of the file in the table |
| LineProgram.FileTable | src/debug.c:1003-1029 | every file of an entry and the translation unit are in the table, once each |
| LineProgram.MarksPrologue | src/debug.c:1077-1083 | a row is marked exactly at the prologue end of a function that is not empty |
| LineProgram.SetAddressMoves | src/debug.c:1065-1067 | the machine reads the extended opcode as that absolute address |
| LineProgram.MovesThen | src/debug.c:1056-1093 | what two chunks of a program do one after the other |
| LineProgram.ReadsBack | src/debug.c:1031-1054 | the header leads a reader past the tables to the program |
| Records.ModuleRoundTrip | src/debug.c:495-626 | parsing what was serialized succeeds for every module whose fields fit, and rebuilds it, up to missing and empty strings, exactly when no two consecutive line entries share a pc or a place and every line is positive |
| Records.WholeModule | src/debug.c:495-626 | making equal what parsing cannot tell apart (missing and empty strings) leaves a module alone exactly when its strings are of the kind parsing gives, so it changes no other field |
| Records.ExactRoundTrip | src/debug.c:495-626 | the very same module comes back exactly when its line table is separate, its names and files are there and its type and callee names are not empty |
| Records.AddAllKeeps | src/debug.c:138-163 | adding the entries of a line table one by one gives the table again exactly when they are separate |
| Records.AddLineCases | src/debug.c:138-163 | an entry at the pc of its predecessor moves the line and column there under the old file, one at the same place is dropped, any other is added |
| Records.FileStaysBehind | src/debug.c:138-163 | two entries at one pc in different files leave the line of the second under the file of the first |
| Records.VarRoundTrip | src/debug.c:379-493 | a variable record comes back with its members and ranges |
| Records.FuncRoundTrip | src/debug.c:507-534 | a function record comes back with its variables and call sites |
| Records.StrField | src/debug.c:347-365 | a C string comes back, a missing one as the empty one |
| RecordIO.Serialize | src/debug.c:495-540 | the buffer receives exactly the serialized records |
| RecordIO.Deserialize | src/debug.c:542-626 | the parser computes the records of any byte sequence, or fails exactly where they break off or are malformed, and never reads past its end |
| RecordIO.ThereAndBack | src/debug.c:495-626 | writing and reading one module, buffer and read pointer included |
| RecordIO.Reader.TakeStr | src/debug.c:354-365 | a string is read exactly when its length and all its bytes are there |
| RecordIO.Reader.Take | src/debug.c:367-377 | the little-endian value of the next bytes |
| RecordIO.ReadLines | src/debug.c:549-557 | the lines read go into the table one by one |
| Assembler.Asm.Resolve | src/a64.c:79-138 | succeeds exactly when every label is bound and in range; every such branch, conditional branch, ADRP and ADRP with ADD then decodes to the address of its label, with all other fields and words unchanged |
| Assembler.ReachableIsEncodable | src/a64.c:79-138 | a label is in range exactly when some value of the field leads to it |
| Assembler.Asm.BranchIf | src/a64.c:592-614 | the words and fixups of a conditional branch in the short and in the wide form |
| Assembler.Asm.WideBranchOver | src/a64.c:585-590 | the inverted branch over an unconditional one, with its own label behind them |
| Assembler.Asm.Branch | src/a64.c:565-571 | a branch word with its fixup |
| Assembler.Asm.AdrpAddLabel | src/a64.c:630-635 | an ADRP and an ADD of the same register with one fixup for both |
| Assembler.Asm.AdrpLabel | src/a64.c:624-626 | an ADRP word with its fixup |
| Assembler.Asm.WordWithFixup | src/a64.c:63-67 | a word and a fixup at its offset, apart from the words of all other fixups |
| Assembler.Asm.NewLabel | src/a64.c:33-42 | a label with a new number, not yet bound |
| Assembler.Asm.Bind | src/a64.c:44-47 | the label stands for the current offset, and nothing else changes |
| Assembler.InverseOpposes | src/a64.c:592-598 | flipping the low bit negates a condition exactly when it is below AL |
| Assembler.ConditionalReaches | src/a64.c:592-614 | a resolved short conditional branch goes to its label exactly when the condition holds |
| Assembler.WideConditionalReaches | src/a64.c:585-614 | over all sixteen condition codes, the resolved wide form goes where the short one does, in the same flag and register states, exactly for conditions below AL or a label right behind it |
| Assembler.AlwaysMissed | src/a64.c:585-614 | the wide form of b.al misses its label in every state |
| Assembler.SetField | src/a64.c:92-110 | or-ing a value into a clear field sets that field and no other |
| Assembler.Asm.MovImm64 | src/a64.c:173-189 | running the emitted movz and movk words, at most four of them, leaves v in the register for every 64-bit v and no other register changed; register 31 discards it |
| Layout.StructDef.constructor | src/parser.c:1050-1052 | an empty definition with its packed and aligned specifiers |
| Layout.StructDef.Push | src/ast.c:975-1099 | members follow one another in declaration order without sharing a bit, each at the place the rules give it, a bit-field inside one cell of its type, and any other member at a multiple of its alignment when that is a power of two; a repeated name or a member behind a flexible array is an error |
| Layout.StructDef.Finish | src/ast.c:1105-1108 | the size covers every member and grows by less than the alignment; it is the least multiple of the alignment that does when that is a power of two, which it is when every type and specifier has one |
| Layout.StructDef.Raise | src/parser.c:1528 | an aligned specifier behind the members raises the alignment |
| Layout.StructDef.Repack | src/parser.c:1529-1551 | a packed specifier behind the members lays the same members out again, in the same order, and loses none |
| Layout.StructDef.PushBitField | src/ast.c:1029-1072 | placement of a bit-field and what it leaves of its run |
| Layout.StructDef.PushZeroWidth | src/ast.c:1014-1025 | a zero-width field closes the run and goes on at the masked size |
| Layout.StructDef.PushOrdinary | src/ast.c:1073-1098 | an ordinary member goes to the masked size, a multiple of its alignment when that is a power of two |
| Layout.StructDef.PushUnion | src/ast.c:1008-1010 | a union member goes to bit 0, and the size grows to the largest |
| Layout.StructDef.CloseRun | src/ast.c:961-969 | closing a run leaves the size covering its last byte |
| Layout.NextFitIsLeast | src/ast.c:1034-1037 | an unpacked field starts at the first bit that leaves room for it in its unit |
| Layout.NaturalField | src/ast.c:1038-1045 | for a field aligned no more than its type the second adjustment changes nothing |
| Layout.AlignUpIsLeast | src/ast.c:466-469 | for a power of two, the least multiple not below the size |
| Layout.AlignUpIsMultiple | src/ast.c:466-469 | for a power of two the mask rounds up to a multiple |
| Layout.AlignsExactlyPowers | src/ast.c:466-469 | the mask gives a multiple for every size exactly when the alignment is a power of two; otherwise it fails at size 1 already |
| Layout.PowerIsPow2 | src/ast.c:466-469 | the test val & (val - 1) recognizes the powers of two |
| Layout.PowersAlign | src/ast.c:1004-1006 | when every type and specifier has a power of two, so has the definition, and every member that is not a bit-field meets its alignment |
| Layout.VectorOfTwelve | src/ast.c:466-475 | a char and a vector of 12 bytes: the vector goes to byte 4 and the size is 16, and neither is a multiple of 12 |
| Layout.MemberIsAligned | src/ast.c:1000-1006 | a member that is not a bit-field meets its explicit alignment and, in a definition that is not packed, that of its type, when those are powers of two |
| Layout.FieldInOneCell | src/ast.c:1029-1062 | a bit-field that is not packed lies in one cell of its type from its first bit to its last |
| Layout.AlignMeetsAll | src/ast.c:1105-1108 | the finished alignment and size are multiples of every explicit alignment, of every type alignment unless packed, and of the specifier of the definition |
| Layout.OrdinaryPlaceIsLeast | src/ast.c:1073-1076 | no earlier byte behind the previous member meets the alignments |
| Layout.FieldPlaceIsLeast | src/ast.c:1029-1048 | no earlier free bit leaves room for the field in one cell; in a packed definition the field takes the first free bit |
| Layout.ZeroWidthMovesOn | src/ast.c:1014-1025 | a bit-field without a width takes no bit and moves the size to the next multiple of its alignment |
| Layout.OveralignedField | src/ast.c:1038-1047 | a field with an alignment of several units starts in a unit that meets it |
| Layout.StillNoSlack | src/ast.c:1063-1098 | the size is that of the largest member or the end of the last one, with no byte to spare |
| Layout.FourMembers | src/ast.c:1029-1098 | the places and sizes of struct { char a : 5; char b : 5; int c : 3; short d; } |
| Layout.AlignedMember | src/ast.c:1000-1006 | an int aligned to 16 behind a char goes to byte 16 |
| Layout.NoSizes | src/ast.c:1001-1030 | a flexible array takes no byte, and a bit-field of a type without a size is read as an int |
| Rounding.RoundDigits | runtime/printf.c:152-198 | the digits spell the input rounded half to even to a multiple of 10^k, all digits dropped and all nines included, with a digit more only for a power of ten |
| Rounding.FixedDigits | runtime/printf.c:213-221 | digits below 10^-prec are rounded away, and digits and exponent stand for the rounded number even when all are |
| Rounding.LeadingDigits | runtime/printf.c:254-262 | the leading digits that are kept stand for the number rounded to them |
| Rounding.RoundedFrom | runtime/printf.c:169-179 | the first dropped digit, the others and the last kept one decide the rounding |
| Words.RoundToIsNearest | runtime/printf.c:145-150 | the rounding that digits and decimals are compared with is to nearest, and to even when two are equally near |
| Rounding.Increment | runtime/printf.c:182-187 | the carry adds one, and escapes exactly when every digit is the largest |
| Rounding.RoundHex | runtime/printf.c:356-385 | the hexadecimal digits spell the payload rounded half to even, with the carry into the leading digit and from there into the exponent |
| Rounding.Nibbles | runtime/printf.c:347-351 | the digits are the leading nibbles of the payload |
| Rounding.StripZeros | runtime/printf.c:352-354 | dropping trailing zeros keeps the value |
| Sorting.Qsort | runtime/stdlib.c:900-903 | for every comparison that is a total preorder the array ends as a sorted permutation of itself, with at most log2 n calls nested |
| Sorting.QsortRec | runtime/stdlib.c:870-898 | sorts its range and nothing else, recursing only into the smaller side |
| Sorting.Partition | runtime/stdlib.c:879-888 | everything left of the returned slot is below the pivot in it, nothing right of it is |
| Markers.Function.Extract | src/opt.c:40-59 | compacts the instructions in place and records each marker with the number of instructions before it |
| Markers.CastIsSigned | src/opt.c:53 | the variable is recorded as the signed 32-bit number with the low bits of the immediate |
| Markers.Function.Reinsert | src/opt.c:67-105 | puts every marker behind as many instructions as recorded, up to the first marker whose position is out of order or out of range, and drops the rest; each marker put in has no destination, the recorded variable and the recorded value |
| Markers.AllUsable | src/opt.c:67-105 | markers with positions in order and in range are all put back |
| Markers.OutAndBack | src/opt.c:40-105 | taking markers out and putting them back is the identity exactly when every marker has no destination, a 32-bit variable and nothing else |
| Markers.BackAndOut | src/opt.c:40-105 | for any instructions in between, taking the markers out again gives those instructions and the same markers |
| Shadow.Sanitizer.Poison | runtime/sanitizer.c:70-83 | closes exactly the bytes of every eight-byte chunk that the region meets |
| Shadow.Sanitizer.Unpoison | runtime/sanitizer.c:85-103 | opens the bytes from the first chunk up to the end of the region and closes the rest of the last chunk |
| Shadow.Sanitizer.Check | runtime/sanitizer.c:123-148 | an access below the shadow reports exactly when one of its bytes is closed |
| Shadow.Sanitizer.Init | runtime/sanitizer.c:48-68 | the map is tried once, and a refusal sticks |

## Left out

- Running out of memory: allocations inside the compiler do not fail, so `domtree_build` never falls back to block ids.
- Answers of the system: the address that a mapping returns, and whether the shadow map is granted, are parameters.
- Computed jumps: `IR_JMP_PTR` has no edge in the model because the code adds none.
- Labels: ids are unique and not negative, as the counter that makes them ensures; the id -1 of an unlabelled block is never a target.
- Allocator.Heap.Free: a chunk absorbed by a merge is no longer a header of the model, so freeing it twice is outside the contract.
- Allocator.Heap.Malloc: headers and payload bytes are two maps kept apart by the tiling invariant, and the calls to the sanitizer are omitted.
- Int128.ToIeee: the x87 format of `pack_xf` and the byte copies between bits and floats are omitted.
- Decimal comparison, conversions between decimals and integers or binary formats, and reading decimals from text.
- DecimalOps.AddFinite: sums with a coefficient of 10^p or more are compared with the real sum only when aligning cuts nothing off.
- DecimalOps.FoldAgrees: decimal128 is left out of the agreement with the folder, whose 128 bits do not hold its scaled operands.
- DecimalMeaning.OverMeans: decimal128 quotients of 2^128 units and more are not compared with the real quotient; the code keeps only their low half.
- LineProgram.EmitProgram: an entry without a file cannot arise, since adding a line rejects it; the section is not claimed to be readable above 4 GiB.
- RecordIO.Deserialize: the records go into an empty module, and what a failing parse leaves behind is not modelled.
- Serialized integers outside their 32 or 64 bits, and the remaining DWARF sections with `refine_param_ranges`.
- Assembler.Asm.Resolve: offsets are not cut to 32 bits, and code is kept as instruction words rather than bytes.
- The encoders of the other AArch64 instructions, `encode_limm` among them.
- Layout.StructDef.Push: sizes and alignments of types are inputs, so nested types, endianness and the argument classes of the System V ABI are omitted.
- Rounding.RoundDigits: digits are numbers instead of characters; producing the digits of a binary value is omitted.
- Rounding.RoundHex: the characters of the output line, and the zeros that pad a longer precision, are omitted.
- Sorting.Qsort: elements are exchanged whole, not in pieces of 64 bytes, and a null array or comparison is omitted.
- Markers.Function.Reinsert: the capacity doubling of the new array is omitted.
- Shadow.Sanitizer.Check: the text of a report and the exit are omitted; addresses do not wrap around.
- Parsing of numbers and the random number generator of `runtime/stdlib.c`.
