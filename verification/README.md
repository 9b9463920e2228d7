# LjTools back end: model and proofs

LjTools assembles LuaJIT bytecode from a textual form, reads bytecode files back, steps through them and interprets
them, and analyses Lua sources. This project models the algorithms below its Qt shell and proves what they are for. Methods with
loops and classes follow the code; each is proved against a function or a plain statement, and the main results are
lemmas about those functions for all inputs, all runs or all reachable states.

| file | subject | main result |
|---|---|---|
| SlotPool, SlotSessions | the pool of 250 slots and its first-fit search | when the search diverges; safety of every sequence of allocations and releases |
| LinearScan, ScanTheorems | linear-scan register allocation | soundness; exactness for single slots; bound on the frame |
| Windows, Records, RecordSlots, RecordPlacement | operand windows on records | merged windows are disjoint and cover the same variables; a record is placed exactly if no cluster is as wide as the pool |
| Upvalues, UpvalueResolution | upvalue numbers and words through nested functions | the emitted words lead from every upvalue to its variable |
| Uleb, Constants, DebugInfo, Container, ContainerRoundTrip, ContainerIO | the bytecode container | writing any tree of prototypes and parsing the bytes rebuilds the tree |
| Expressions, ExpressionScan, ExpressionParsing | the precedence-climbing parser | yields parse back exactly; exactly what is accepted, and when the descent has no end |
| Stepping | the step debugger in bytecode mode | stops are those of a reference on the real call stack |
| Capture, CaptureRuns, Instructions, CallResults, StaticCapture, ForLoops | closures, calls and numeric loops of the test interpreter | the interpreter refines one with lexical environments and no cells |
| Scoping | name resolution of the Lua analyser | the tree of scopes refines a flat list of declarations |
| Emission, Assembly | instruction words, jumps, constant slots | every jump decodes to its label; every slot reads back its constant |
| Basics | types that several components share | |

Integers are unbounded except where a width matters: 8-bit slot numbers and window widths, 16-bit operands and upvalue
words, 32-bit words of the file format and the interpreter's loops are cut explicitly. Conversions of doubles enter as
a parameter (`Narrow`), the operand format of an opcode as another one (`Format`), and the byte order of the writing
and of the reading host as two more. Sequences of bytes stand for devices, and sequences of hook events for a debugged
program.

Places where the code falls short of what one expects of it are part of the model, each with its exact condition: a
request for several slots can search for ever (`SearchDivergesExactly`); a record whose merged windows are as wide as
the pool or wider is not placed, and a width over 255 wraps around on the way (`PlaceRecord`, `TwoWindowsWrap`); a step
can end inside a callback of native code (`StepIsExact`, `CallbackStopsEarly`); a missing closing bracket at the end of
an expression is accepted (`MissingBrackets`, `AcceptsExactly`, with `MissingBracketAccepted` as an instance), and an
operand that is missing behind a unary operator or an opening bracket at the end makes the parser descend for ever
(`EndlessExactly`); line tables of functions with 2^31 lines and more are misread (`LineTablesExactly`); a jump over
2^15 or more instructions wraps around (`JumpDecodes`); a loop whose index leaves the 32-bit range runs on
(`LoopEnds`); and the interpreter puts the results of a call into the slots with their own numbers instead of the ones
from its base on (`ResultsArriveExactly`).

The comment on `jumpToLoop` is silent about where the patched jump leads; the code makes it lead to the backward jump
itself, and `Composer.JumpToLoop` says so. Blocks that LuaJIT closes with `UCLO` get no new cells in the test
interpreter, so variables are per activation in `Capture`.

## Model

| member | source | states |
|---|---|---|
| SlotPools.SlotPool.CheckFree | LuaJitComposer.cpp:694-704 | the number of free slots in front of the first used one, and 0 when the run would touch the last slot of the pool |
| SlotPools.SlotPool.HighestUsedSlot | LuaJitComposer.cpp:787-793 | the largest used slot, -1 for an empty pool |
| SlotPools.SlotPool.LowestUnusedSlot | LuaJitComposer.cpp:795-801 | the first slot at or above the start that is not used |
| SlotPools.SlotPool.NextFreeSlot | LuaJitComposer.cpp:736-773 | the answer and the whole new pool are those of the first-fit specification; a search that does not end is an answer of its own |
| SlotPools.SlotPool.ReleaseSlot | LuaJitComposer.cpp:775-785 | frees the run up to the first slot that is not used, and takes its base off the pending calls only on success |
| SlotPools.RequestIsFirstFit | LuaJitComposer.cpp:736-773 | whenever a run fits above every used slot for a call, or not below the innermost pending call for any other request, the lowest such run is returned |
| SlotPools.FoundRunIsFree | LuaJitComposer.cpp:736-773 | a returned run is inside the pool, at or above the search start, and was free |
| SlotPools.SearchDivergesExactly | LuaJitComposer.cpp:736-773 | the search loop of a request, of a call or not, runs for ever if and only if nothing fits at or above its start and some free block at the end of the pool is too short |
| SlotPools.ReleaseExactly | LuaJitComposer.cpp:775-785 | a release succeeds if and only if its whole run is used; it frees exactly the slots of the run without an unused one at or below them, and takes the first entry of its base off the pending calls only on success |
| SlotSessions.EveryRunIsSafe | LuaJitComposer.cpp:736-785 | every sequence of allocations and releases keeps used slots, pending call bases and frame size equal to what the live and past runs say |
| SlotSessions.EverySession | LuaJitComposer.cpp:713-785 | live runs are disjoint, call bases increase strictly and are used, the frame size is the high-water mark of all runs ever handed out |
| SlotSessions.EveryAllocation | LuaJitComposer.cpp:736-773 | after any such sequence a new run avoids every used slot and lies above every pending call base; a call lies above every used slot |
| LinearScan.SortIntervals | LuaJitComposer.cpp:689-692 | a permutation of the intervals, ordered by start |
| LinearScan.ExpireOldIntervals | LuaJitComposer.cpp:826-837 | exactly the intervals that end before the current start leave the active list, and exactly their runs are freed |
| LinearScan.ScanOne | LuaJitComposer.cpp:824-843 | one round answers as the pool with the runs of all live earlier intervals does, and keeps the scan state |
| LinearScan.AllocateWithLinearScan | LuaJitComposer.cpp:815-845 | the runs are those of a scan in which step i sees the entry slots and the runs of exactly the earlier intervals that reach its start; verdict and final pool follow |
| ScanTheorems.Sound | LuaJitComposer.cpp:815-845 | runs lie in the pool, avoid every slot set on entry, and are disjoint for any two intervals whose closed ranges intersect |
| ScanTheorems.StepIsExact | LuaJitComposer.cpp:736-773 | a single-slot request is granted exactly while fewer intervals are live than slots were free on entry |
| ScanTheorems.Exact | LuaJitComposer.cpp:815-845 | with length 1 the scan succeeds if and only if at no position more intervals are live than slots are free above the last call base |
| ScanTheorems.ExactWithoutCalls | LuaJitComposer.cpp:815-845 | without a pending call: if and only if reserved slots plus live intervals never exceed 250 |
| ScanTheorems.FrameBound | LuaJitComposer.cpp:713-720 | the frame size ends at most at the larger of its entry value and the reserved slots plus the largest number of live intervals, counted from the search start |
| ScanTheorems.FrameIsHighWater | LuaJitComposer.cpp:713-720 | the frame size ends as the highest end of all runs handed out, or as it was if that is larger |
| ScanTheorems.FinalSlots | LuaJitComposer.cpp:822-845 | afterwards the used slots are those set on entry and the runs of the intervals that reach the last position looked at; pending calls are unchanged |
| ScanTheorems.NeverReturnsExactly | LuaJitComposer.cpp:838-840 | the scan never returns if and only if for some interval nothing fits and a free block is too short for it before the end of the pool |
| Windows.ResolvedWindows | LjAssembler.cpp:114-163 | resolved windows are disjoint, cover exactly the union of the original ones, start at headers inside no earlier window, and reach the largest end of their cluster |
| Windows.ReachUnique | LjAssembler.cpp:114-136 | a cluster has one end |
| Windows.WindowSurvives | LjAssembler.cpp:138-163 | every window lies inside one surviving window |
| Windows.MergeKeepsResolved | LjAssembler.cpp:138-163 | merging one cluster leaves the final outcome as it was, so the order of visits does not matter |
| Windows.SettledIsResolved | LjAssembler.cpp:1449-1476 | once every header has been visited nothing is left to merge |
| Records.FindOverlaps | LjAssembler.cpp:114-136 | the list is exactly the headers of the cluster in list order, each once, however the recursion meets them |
| Records.NearestHeader | LjAssembler.cpp:144-152 | walking back finds the nearest variable with a window, at its true distance |
| Records.MergeIntoPrevious | LjAssembler.cpp:142-161 | the header before it grows by what the merged one reaches beyond it, in 8 bits, and the merged one is switched off |
| Records.ResolveOverlaps | LjAssembler.cpp:138-163 | the whole cluster is merged into its first header, in 8 bits; the nearest earlier header is always the previous one of the list, whatever the widths |
| Records.ResolveHeader | LjAssembler.cpp:1450-1466 | visiting a header merges its current cluster, in 8 bits, and nothing else |
| Records.NarrowMerge | LjAssembler.cpp:154-161 | a cluster narrower than 256 is merged without loss: its first header reaches the largest end |
| Records.AnyOrderResolves | LjAssembler.cpp:1449-1476 | when all clusters are narrower than 256, visiting the headers in any order leaves exactly the resolved windows |
| RecordSlots.RegisterRange | LjAssembler.cpp:2063-2082 | the live range of a variable begins or grows with the statement |
| RecordSlots.FetchV | LjAssembler.cpp:1066-1093 | succeeds exactly if the window ends inside the record; raises the width of the first variable (in 8 bits) and extends the ranges of those in the window |
| RecordSlots.FetchAll | LjAssembler.cpp:1066-1093 | numbers and live ranges are those of the statements in order, up to the first window that ends behind the record, where it fails |
| RecordSlots.StatementsRecorded | LjAssembler.cpp:1066-1093 | after statements in order whose windows end inside the record and fit 8 bits, every window is within the number of its first variable and every statement within the live range of every variable it uses |
| RecordSlots.RangesAreTight | LjAssembler.cpp:2063-2082 | a variable without a statement has the empty range; any other range begins exactly with the first statement around the variable and ends with the latest one |
| RecordSlots.RangesInOrder | LjAssembler.cpp:2063-2082 | for statements in order the range goes from the first statement of a variable to its last one, counted from 1 |
| RecordSlots.OneStatement | LjAssembler.cpp:1079-1080 | one statement leaves the number it asks for at its variable, in 8 bits |
| RecordSlots.ResolveAll | LjAssembler.cpp:1449-1476 | headers of several records are visited in the listed order, each record as if it were alone, widths wrapping at 8 bits |
| RecordSlots.NumberWindow | LjAssembler.cpp:1502-1513 | a window gets consecutive slots from its base and nothing else changes |
| RecordSlots.NumberAll | LjAssembler.cpp:1486-1515 | the windows are numbered from their bases, one after the other |
| RecordSlots.NumbersStay | LjAssembler.cpp:1502-1513 | disjoint windows keep their numbers while others are numbered |
| RecordSlots.CheckSlotOrder | LjAssembler.cpp:81-95 | true exactly if the n variables exist and have consecutive slots |
| RecordSlots.RegisteredWindowsAreInOrder | LjAssembler.cpp:1537-1596 | after resolution and numbering every registered window has consecutive slots |
| RecordSlots.Bounds | LjAssembler.cpp:2084-2100 | the hull of the ranges in the window: a bound on all of them that two of them attain |
| RecordPlacement.PlaceRecord | LjAssembler.cpp:1356-1596 | a record of any length, with any statements, headers in any order and any runs inside the pool, gets through registration, merging, numbering and the slot-order check if and only if every window ends inside it and no cluster of windows is as wide as the pool |
| RecordPlacement.PlacedExactly | LjAssembler.cpp:1478-1596 | runs exist and every statement is in order exactly under this condition on the statements, also where widths have wrapped around |
| RecordPlacement.AcceptedIsClustered | LjAssembler.cpp:81-95 | however slots below 250 have come about, a check that accepts all statements shows that no cluster is wider than the pool |
| RecordPlacement.NumberedIsInOrder | LjAssembler.cpp:1478-1596 | with all windows merged and numbered every statement is in order |
| RecordPlacement.RunsExistExactly | LjAssembler.cpp:1478-1500 | a surviving window is narrower than the pool exactly if all clusters are |
| RecordPlacement.TwoWindowsWrap | LjAssembler.cpp:159-161 | two overlapping windows of up to 255 variables are kept as their common width modulo 256 (300 as 44), and placed if and only if it is below 250 |
| Upvalues.Func.ResolveUpval | LjAssembler.cpp:1990-2002 | the number of the variable; every function between the user and the declarer has it afterwards, with its old numbers kept, and no other list changes |
| Upvalues.Func.Describe | LjAssembler.cpp:2016-2021 | the descriptor names the slot in the enclosing function or its number there, and looking that up adds nothing |
| Upvalues.Func.GetUpvals | LjAssembler.cpp:2004-2025 | one descriptor for every number, each the one of the variable with that number |
| Upvalues.AlreadyLinked | LjAssembler.cpp:1994-1996 | a variable known to a function is known to all functions between it and the declarer, so the early return is safe |
| UpvalueResolution.WordRoundTrip | LuaJitComposer.cpp:586-602 | number, local flag and immutable flag are read back from the 16-bit word |
| UpvalueResolution.FetchU | LjAssembler.cpp:1095-1110 | a use keeps all lists dense and closed toward the declarers, and only appends |
| UpvalueResolution.EmitUpvals | LjAssembler.cpp:1626-1630 | the words written describe every upvalue of the function, those not assigned so far are marked as immutable, and no list changes |
| UpvalueResolution.OneHop | LuaJitBytecode.cpp:1163-1171 | one word leads to the slot of the variable or to its number in the enclosing function |
| UpvalueResolution.UpvalLeadsToDeclaration | LuaJitBytecode.cpp:1163-1171 | following words ends after exactly the nesting distance at the declaring function and the slot of the variable |
| UpvalueResolution.DoneStays | LjAssembler.cpp:237-244 | functions already written stay described while lists of enclosing functions grow |
| UpvalueResolution.ProcessFunc | LjAssembler.cpp:170-330 | nested functions first, own statements next, words last: afterwards the whole tree is numbered and described, and outside it only lists of enclosing functions have grown |
| UpvalueResolution.ProcessProgram | LjAssembler.cpp:170-330 | a whole program is numbered and described |
| UpvalueResolution.ProgramUpvalues | LuaJitBytecode.cpp:1163-1171 | in a processed program the words lead from any upvalue of any function to its variable |
| Uleb.DecUndoesEnc | LuaJitBytecode.cpp:132-167 | decoding any number in any surrounding stream gives it back and leaves the rest |
| Uleb.WordRoundTrip | LuaJitBytecode.cpp:132-167 | 32-bit values take at most five bytes and survive 32-bit decoding |
| Uleb.AccumulateIsDec | LuaJitBytecode.cpp:134-146 | collecting groups by shifting in 32 bits yields the number modulo 2^32, whatever its length |
| Uleb.WriteUleb | LuaJitBytecode.cpp:162-167 | appends exactly the encoding |
| Uleb.ReadUleb | LuaJitBytecode.cpp:132-147 | value and bytes left are those of the format, also for truncated input |
| Uleb.DebugReadUleb | LuaJitBytecode.cpp:150-159 | the decoder over a buffer agrees with the one over a stream on value and position |
| Uleb.ReadUleb33 | LuaJitBytecode.cpp:170-190 | the number without its lowest bit, in 32 bits |
| Uleb.EncFive | LuaJitBytecode.cpp:162-167 | numbers of 29 to 35 bits take five bytes, the last one holding the bits above 28 |
| Uleb.PatchCompletes | LuaJitBytecode.cpp:866-885 | truncating to 32 bits and patching the fifth byte gives exactly the encoding of the 33-bit number |
| Uleb.WriteUleb33 | LuaJitBytecode.cpp:866-885 | appends the encoding of the 33-bit number |
| Constants.NumRoundTrip | LuaJitBytecode.cpp:316-351 | an integer or a pair of double words, and which of both it is, are read back |
| Constants.NumsRoundTrip | LuaJitBytecode.cpp:845-889 | whole lists of number constants round-trip with exactly their bytes |
| Constants.WriteNumConsts | LuaJitBytecode.cpp:845-889 | writes the encoding of the list with integral doubles narrowed |
| Constants.NarrowedNums | LuaJitBytecode.cpp:845-864 | the list keeps its length; integers stay, and a double stays unless it has the value of an integer, which takes its place |
| Constants.ReadNumConsts | LuaJitBytecode.cpp:316-351 | reads what the format says for any bytes |
| Constants.ValRoundTrip | LuaJitBytecode.cpp:244-264 | every key or value of a table is read back |
| Constants.WriteVal | LuaJitBytecode.cpp:891-929 | writes the encoding; only values are narrowed, not keys |
| Constants.ReadVal | LuaJitBytecode.cpp:244-264 | reads what the format says for any bytes |
| Constants.TableRoundTrip | LuaJitBytecode.cpp:277-294 | array part without its leading nil, and hash part, are read back |
| Constants.InsertedEntries | LuaJitBytecode.cpp:289-293 | with distinct keys the hash part that is read has exactly the written entries |
| Constants.TableComesBack | LuaJitBytecode.cpp:891-979 | a table as it is written and read has the same array part, position by position, and the same keys, each with its last value: nil, booleans, strings and integers unchanged, doubles unchanged or narrowed |
| Constants.WriteTable | LuaJitBytecode.cpp:958-979 | writes the encoding of the narrowed table |
| Constants.ReadTable | LuaJitBytecode.cpp:277-294 | reads what the format says for any bytes |
| DebugInfo.Word4RoundTrip | LuaJitBytecode.cpp:984-994 | a word is found again in the byte order it was written in |
| DebugInfo.SwapIsOtherOrder4 | LuaJitBytecode.cpp:205-222 | reading in host order and swapping is reading in the other order |
| DebugInfo.WidthIsLeast | LuaJitBytecode.cpp:762-787 | a line table has one, two or four bytes an entry, the least that holds the number of lines |
| DebugInfo.LinesRoundTrip | LuaJitBytecode.cpp:755-798 | lines of the function are recovered from tables of all three widths |
| DebugInfo.LineTableRoundTrip | LuaJitBytecode.cpp:353-402 | the table is found at the head of the section by its size |
| DebugInfo.LineTablesExactly | LuaJitBytecode.cpp:353-402 | all line tables of functions with a given number of lines are recovered if and only if the number is below 2^31 |
| DebugInfo.HugeFunctionMisread | LuaJitBytecode.cpp:371-376 | with any number of lines from 2^31 on, a table of words is read as one of bytes |
| DebugInfo.NameRoundTrip | LuaJitBytecode.cpp:807-827 | names, and the six loop variables as codes, are read back and never end the list |
| DebugInfo.VarsRoundTrip | LuaJitBytecode.cpp:427-450 | delta-coded ranges are recovered modulo 2^32, even when starts decrease |
| DebugInfo.UpsRoundTrip | LuaJitBytecode.cpp:410-422 | zero-terminated upvalue names are recovered |
| DebugInfo.DebugRoundTrip | LuaJitBytecode.cpp:755-836 | the whole section is recovered in any stream |
| DebugInfo.WriteDbgInfo | LuaJitBytecode.cpp:755-836 | produces exactly the section of the format for any lines, those outside the function included |
| DebugInfo.ReadLineNumbers | LuaJitBytecode.cpp:353-402 | reads what the format says for any bytes, on hosts of any byte order |
| DebugInfo.IndexOfNul | LuaJitBytecode.cpp:414-414 | the first zero byte from a position on |
| DebugInfo.ReadNames | LuaJitBytecode.cpp:404-452 | reads what the format says for any bytes, keeping what was read before an error |
| Container.HeaderRoundTrip | LuaJitBytecode.cpp:655-666 | all header fields are read back, with and without debug information |
| Container.CodeRoundTrip | LuaJitBytecode.cpp:205-222 | instruction words are read back |
| Container.MissingWordsAreZero | LuaJitBytecode.cpp:205-222 | the words of any input are read in order, with zeros where it ends |
| Container.UpvalsRoundTrip | LuaJitBytecode.cpp:224-241 | upvalue words are read back |
| Container.TakeChild | LuaJitBytecode.cpp:299-311 | a child reference keeps the stack sound; no prototype is lost |
| Container.NoConstant | LuaJitBytecode.cpp:295-303 | exactly an unknown type and a reference without a prototype on the stack leave a constant empty, and nothing more is read for it |
| Container.HeaderAcceptedExactly | LuaJitBytecode.cpp:604-625 | a file is accepted if and only if it has signature and version of the format and no flags but those for byte order and left out debug information |
| ContainerRoundTrip.ItemsRoundTrip | LuaJitBytecode.cpp:266-314 | reading the constants of a prototype links exactly its own nested prototypes to it, in spite of the reversed order, and touches no other prototype |
| ContainerRoundTrip.BodyRoundTrip | LuaJitBytecode.cpp:644-685 | one prototype is rebuilt from its bytes behind its nested ones |
| ContainerRoundTrip.ProtoRoundTrip | LuaJitBytecode.cpp:699-753 | reading a written tree from any state leads to the state with the tree and the rest of the bytes |
| ContainerRoundTrip.FlatIsRebuilt | LuaJitBytecode.cpp:644-685 | the list of prototypes in post-order is the tree: contents, flags, constants as `SameTable` and `SameNums` say, child references in falling order and outer links agree |
| ContainerRoundTrip.FlagsAreKept | LuaJitBytecode.cpp:699-722 | the two upper flags are kept, and the lowest one is set exactly if it was or if there is a nested prototype |
| ContainerRoundTrip.TreeIsReadBack | LuaJitBytecode.cpp:644-753 | from any stack S the reader ends with S and the root; prototypes read before stay as they are, the new ones form the tree |
| ContainerRoundTrip.FileHeaderRoundTrip | LuaJitBytecode.cpp:604-642 | flags and name are read back |
| ContainerRoundTrip.FileRoundTrip | LuaJitBytecode.cpp:468-500 | a written file is read to its last byte and has exactly the root it was written from |
| ContainerRoundTrip.SmallFile | LuaJitBytecode.cpp:492-500 | the bytes of a small file, one by one |
| ContainerIO.WriteFunction | LuaJitBytecode.cpp:699-753 | appends the encoding of the tree, nested prototypes from the last constant to the first, with the flag for them set |
| ContainerIO.WriteObjConsts | LuaJitBytecode.cpp:946-982 | appends the encoding of the constants |
| ContainerIO.WriteFile | LuaJitBytecode.cpp:492-500 | appends header, tree and end mark |
| ContainerIO.ReadCode | LuaJitBytecode.cpp:205-222 | reads what the format says; missing words are zero |
| ContainerIO.JitBytecode.ReadObjConsts | LuaJitBytecode.cpp:266-314 | constants, stack and outer links change as the format says, for any bytes, with its two error cases |
| ContainerIO.JitBytecode.ParseFunction | LuaJitBytecode.cpp:644-685 | one prototype joins list and stack as the format says, for any bytes |
| ContainerIO.JitBytecode.ParseHeader | LuaJitBytecode.cpp:604-625 | accepts exactly the headers the format allows |
| ContainerIO.JitBytecode.Parse | LuaJitBytecode.cpp:468-490 | reads prototypes up to the end or a length of zero, for any bytes |
| ContainerIO.WriteThenParse | LuaJitBytecode.cpp:468-500 | writing on one host and parsing on another, of any byte orders, gives the tree back: every field, every constant unchanged except for doubles with the value of an integer, every nested prototype and outer link |
| Expressions.SubExprOfYield | ExpressionParser.cpp:1158-1195 | tokens of a tree that respects the priorities are parsed to exactly this tree, whatever closing token and whatever input follows |
| Expressions.PrimaryOfYield | ExpressionParser.cpp:1068-1111 | names with their fields, indices and brackets are collected completely |
| Expressions.ParseOfYield | ExpressionParser.cpp:1113-1216 | parsing the tokens of a tree gives the tree, although the cursor sticks on the last token |
| Expressions.YieldsDiffer | ExpressionParser.cpp:1118-1132 | no two trees that respect the priorities have the same tokens |
| Expressions.GroupingFollowsManual | ExpressionParser.cpp:1118-1132 | of the two groupings of `a p b q c` exactly the one of section 2.5.6 of the Lua 5.1 Reference Manual is parsed, for all pairs of binary operators |
| Expressions.UnaryFollowsManual | ExpressionParser.cpp:1132-1171 | a unary operator binds tighter than every binary operator but exponentiation |
| Expressions.SubExprSound | ExpressionParser.cpp:1158-1195 | whatever is accepted respects priorities and associativity, and its tokens are those of the input continued by its last token |
| Expressions.MissingBracketAccepted | ExpressionParser.cpp:1021-1039 | `((a)` is accepted because the cursor sticks on the last bracket |
| ExpressionScan.EndlessDescent | ExpressionParser.cpp:1158-1171 | reading an operand waits on calls without end if and only if from there on the input consists of unary operators and opening brackets only |
| ExpressionScan.DescentNeverAnswers | ExpressionParser.cpp:1041-1060 | where calls wait without end, the answer of the specification is the endless descent |
| ExpressionScan.ParserScans | ExpressionParser.cpp:1041-1216 | one scan that remembers only the open brackets says for every input whether the parser gives a tree, and of how many tokens, reports an error, or descends for ever |
| ExpressionScan.EndlessExactly | ExpressionParser.cpp:1158-1171 | the parser descends for ever if and only if the scan expects an operand at the last token and this token is a unary operator or an opening bracket |
| ExpressionScan.YieldScans | ExpressionParser.cpp:1041-1216 | the scan passes the tokens of every tree that respects the priorities as one operand |
| ExpressionScan.AcceptsExactly | ExpressionParser.cpp:1041-1216 | for all inputs and trees: the tree is the answer if and only if it respects the priorities, its tokens are those of the input continued by its last token, and no token that follows belongs to it |
| ExpressionScan.MissingBrackets | ExpressionParser.cpp:1021-1039 | an accepted input that is read to its end lacks exactly as many closing brackets as are read beyond it, all of them repetitions of a last closing bracket; otherwise the tokens of the tree are a beginning of the input |
| ExpressionScan.NothingMissing | ExpressionParser.cpp:1021-1039 | with no more opening than closing brackets an accepted input is never read beyond its end; one read to its end is what was parsed if and only if its brackets balance |
| ExpressionScan.YieldsBalanced | ExpressionParser.cpp:1041-1066 | the tokens of every tree have as many closing as opening brackets |
| ExpressionParsing.ExpressionParser.Next | ExpressionParser.cpp:1021-1030 | moves on, and sticks at the end with an invalid token |
| ExpressionParsing.ExpressionParser.Prefixexp | ExpressionParser.cpp:1041-1066 | result and cursor are those of the specification, errors included |
| ExpressionParsing.ExpressionParser.Primaryexp | ExpressionParser.cpp:1068-1111 | result and cursor are those of the specification, errors included |
| ExpressionParsing.ExpressionParser.Simpleexp | ExpressionParser.cpp:1197-1216 | result and cursor are those of the specification, errors included |
| ExpressionParsing.ExpressionParser.Subexpr | ExpressionParser.cpp:1158-1195 | result and cursor are those of the specification for every input; an endless descent is an answer of its own |
| ExpressionParsing.ParsesBack | ExpressionParser.cpp:45-80 | the parser gives back every tree that respects the priorities |
| Stepping.SessionIsExact | Engine2.cpp:733-861 | over every well-bracketed run in which no call directly follows a return, the stops are those of the reference on the real depth, stop number n being answered with command number n |
| Stepping.HookMatches | Engine2.cpp:744-780 | while a step is pending the counted depth equals the real depth relative to the activation of the command |
| Stepping.StepIsExact | Engine2.cpp:754-823 | step over stops at the first instruction at or above its depth, step out above it, if and only if the return that ends the step does not lead into another call |
| Stepping.CallbackStopsEarly | Engine2.cpp:769-777 | a native function that calls back twice makes step over stop inside the second callback |
| Stepping.Engine.RunToNextLine | Engine2.cpp:974-996 | remembers the function and starts counting at zero |
| Stepping.Engine.DebugHook | Engine2.cpp:733-861 | stops and new state are those of the transition system |
| Stepping.Engine.Run | Engine2.cpp:733-861 | a whole run stops where the transition system says |
| Capture.NamedIsFuncSlot | LuaJitBytecode.cpp:1163-1171 | the cell the descriptors lead to is the one of the function and slot that the static lookup names |
| Capture.NewClosure | LuaJitEngine.cpp:1124-1153 | FNEW takes over exactly the cells its descriptors name, directly from the frame or from the running closure |
| Capture.UpvalueCell | LuaJitEngine.cpp:179-197 | the cell of an upvalue of the running closure is the variable the reference finds by walking outward |
| Capture.CellsApart | LuaJitEngine.cpp:809-818 | different variables have different cells |
| Capture.StepSim | LuaJitEngine.cpp:809-1179 | every instruction, calls and returns included, keeps interpreter and reference in the same situation |
| CaptureRuns.EveryRun | LuaJitEngine.cpp:67-85 | every run shows exactly the values of the reference with lexical environments, which stores call results as the interpreter does, and all closures hold the cells of the variables they name |
| CaptureRuns.SharedExactly | LuaJitEngine.cpp:1133-1150 | two closures share a cell if and only if their upvalues stand for the same variable of the same activation |
| CaptureRuns.AssignmentIsShared | LuaJitEngine.cpp:190-197 | an assignment through one closure is what every sharer and the owner read, and changes no other variable |
| CaptureRuns.Interpreter.EnterFrame | LuaJitEngine.cpp:809-818 | a new frame has new cells, the first ones with the arguments |
| CaptureRuns.Interpreter.Capture | LuaJitEngine.cpp:1133-1150 | the loop collects the cells in descriptor order |
| CaptureRuns.Interpreter.Execute | LuaJitEngine.cpp:820-1179 | one instruction changes the state as the model says |
| CaptureRuns.Interpreter.RunProgram | LuaJitEngine.cpp:67-85 | the output of a program is that of the reference |
| CallResults.ResultsLand | LuaJitEngine.cpp:1157-1169 | slot j of the requested range gets result number j, and other slots keep their value |
| CallResults.ResultsArriveExactly | LuaJitEngine.cpp:1157-1169 | the results of all calls with given operands arrive where the caller expects them if and only if none are asked for, or the base is slot 0 and there are enough |
| Instructions.AssignsOneSlot | LuaJitEngine.cpp:1096-1103 | constants, moves, upvalues, globals and closures go to their slot and change no other slot, no global and no output |
| Instructions.AssignsElsewhere | LuaJitEngine.cpp:190-197 | a global or an upvalue cell gets the value of the slot and nothing else changes |
| Instructions.CallPassesArguments | LuaJitEngine.cpp:809-818 | the arguments are the first slots of the new activation, in order, its other slots are nil, and no cell that existed changes |
| Instructions.ReturnHandsOver | LuaJitEngine.cpp:927-931 | the caller gets the values of the slots of the return as results |
| StaticCapture.LookupsAgree | LuaJitBytecode.cpp:1163-1171 | the lookup over emitted words and the one over descriptors end at the same function and slot after the same number of steps |
| StaticCapture.DescriptorsNameVariables | LuaJitBytecode.cpp:1163-1171 | in a processed program the descriptors of a function name declarer and slot of every variable it captures |
| ForLoops.PassValue | LuaJitEngine.cpp:853-892 | pass i of a loop sees start + i * step |
| ForLoops.PassInRange | LuaJitEngine.cpp:862-864 | the passes are exactly the i for which start + i * step has not passed the limit |
| ForLoops.LoopEnds | LuaJitEngine.cpp:872-892 | the loop makes exactly the passes that the distance from start to limit and the step ask for, upward or downward, if and only if the value behind the last one is a 32-bit number |
| ForLoops.ZeroStepRunsOn | LuaJitEngine.cpp:872-892 | a loop with step 0 is entered if and only if its start has not passed its limit, and then never ends |
| ForLoops.ExecFori | LuaJitEngine.cpp:853-871 | sets the visible variable in any case and no other slot |
| ForLoops.ExecForl | LuaJitEngine.cpp:872-892 | advances the index; the visible variable changes only if the loop goes on |
| Scoping.Module.UseName | LuaModule.cpp:494-522 | a use is resolved as in the flat list; the first use of an unknown name declares it globally and is not recorded |
| Scoping.Module.Namelist | LuaModule.cpp:374-383 | names are declared in order, later ones hiding earlier ones |
| Scoping.Module.Expr | LuaModule.cpp:310-334 | expressions, functions in them included, are resolved as in the flat list and change no scope that existed before |
| Scoping.Module.Funcbody | LuaModule.cpp:350-372 | parameters and body declare in a scope of their own |
| Scoping.Module.Forstat | LuaModule.cpp:385-426 | limits are looked up outside the scope of the loop variables |
| Scoping.Module.Statement | LuaModule.cpp:220-301 | every statement resolves and declares as in the flat list |
| Scoping.Module.Chunk | LuaModule.cpp:211-218 | a sequence of statements resolves as in the flat list |
| Scoping.Analyze | LuaModule.cpp:185-209 | a program is resolved as in the flat list, and a declaration lists exactly the uses that point to it |
| Scoping.FindKept | LuaModule.cpp:543-552 | declarations in inner scopes do not change what a scope finds |
| Scoping.DeclareMatches | LuaModule.cpp:374-383 | declaring a name in the table is adding it to the flat list |
| Scoping.UsesOfExactly | LuaModule.cpp:512-521 | the list of uses of a declaration has exactly those that point to it |
| Scoping.LatestIsMostRecent | LuaModule.cpp:543-552 | a name stands for its last declaration in force |
| Scoping.InnerDeclarationsStayInside | LuaModule.cpp:247-269 | declarations in blocks, loops and functions never change what a later name stands for, be it local or global |
| Scoping.StatStays | LuaModule.cpp:494-522 | no statement changes what a known global name stands for |
| Scoping.LocalSeesOuter | LuaModule.cpp:291-301 | in `local x = x` the value sees the outer variable |
| Scoping.LocalFunctionSeesItself | LuaModule.cpp:336-348 | a local function sees itself |
| Scoping.EveryNameIsMet | LuaModule.cpp:211-334 | in every program each name is met once and in order: it is recorded as a use, except for those that declare the global names |
| Scoping.ParameterIsSeen | LuaModule.cpp:350-372 | in the body of a function a name is its last parameter of that name |
| Scoping.ParameterIsGone | LuaModule.cpp:350-372 | behind a function the name stands for the outer declaration again |
| Scoping.LoopVariableIsSeen | LuaModule.cpp:385-426 | limits see the outer declaration, the body the variable of the loop, what follows the outer declaration again |
| Scoping.BlockIsLeft | LuaModule.cpp:247-301 | conditions and values see the outer declaration, what follows a local statement in its block the new one, what follows the block the outer one again |
| Scoping.GlobalIsFound | LuaModule.cpp:494-522 | the first use of an unknown name makes it global and is not recorded; later uses point to it |
| Emission.WordRoundTrip | LuaJitBytecode.cpp:541-565 | all operands of an instruction are read back |
| Emission.JumpDecodes | LuaJitBytecode.h:135-145 | a jump decodes to its target if and only if it spans less than 2^15 instructions |
| Emission.PackRoundTrip | LuaJitComposer.cpp:803-813 | row and column are read back from their common number exactly if they fit their bits |
| Emission.KeptLine | LuaJitComposer.cpp:143-152 | a packed line is stored as its row, unless rows and columns are asked for; then both are kept |
| Emission.Composer.AddOp | LuaJitComposer.cpp:122-162 | appends one instruction and, with debug information, one line, which is cut to its row unless rows and columns are asked for; refuses a third operand over 255 |
| Emission.Composer.Patch | LuaJitComposer.cpp:183-203 | changes only the jump operand of a jump instruction and refuses others |
| Emission.Composer.PatchHere | LuaJitComposer.h:83-83 | the patched jump leads to the next instruction if and only if it spans less than 2^15 instructions |
| Emission.Composer.JumpToLoop | LuaJitComposer.cpp:205-209 | the new jump leads to the loop label, the jump there to the new jump, each if and only if its span fits |
| Emission.Composer.GetConstSlot | LuaJitComposer.cpp:638-657 | slots are dense and stay valid as constants are added |
| Emission.Composer.CloseFunction | LuaJitComposer.cpp:99-120 | every slot ever given reads back its constant, through the reversal of the objects |
| Emission.ListOf | LuaJitComposer.cpp:105-111 | the list by slot, or by slot from the end, whatever the order of the pool |
| Assembly.CheckJumpsAndMore | LjAssembler.cpp:1280-1336 | accepts exactly the programs whose tests are followed by jumps, whose labels are defined and whose last statement returns |
| Assembly.GenerateCode | LjAssembler.cpp:1626-1696 | one word for every statement, with counts turned into last slots or made larger by one |
| Assembly.CountsDecode | LjAssembler.cpp:1637-1671 | the counts of concatenations, lists of nil, calls and returns are found again in their instructions |
| Assembly.OperandsDecode | LjAssembler.cpp:1632-1694 | every instruction says opcode and operands of its statement, counts as distances of slots or larger by one |
| Assembly.OpcodesAre | LjAssembler.cpp:1598-1624 | the opcodes of tests, returns and jumps, one by one |
| Assembly.JumpLands | LjAssembler.cpp:1301-1305 | the emitted jump decodes to the statement of its label |
| Assembly.Assemble | LjAssembler.cpp:1280-1336 | in functions of up to 32768 statements every jump of an accepted program lands on its label, and every other instruction says what its statement says |

## Left out

- SlotPools.SlotPool.NextFreeSlot: lengths are natural numbers; a negative length and slots over 255 passed to `releaseSlot` are not modelled.
- LinearScan.AllocateWithLinearScan: intervals are sorted by a contract, not by `std::sort`, and a slot is kept in a list beside the intervals instead of a field in them.
- RecordSlots.FetchV: start and end of a live range are 22-bit fields in the code; programs are taken to be shorter than 2^22 statements.
- RecordPlacement.PlaceRecord: one record at a time; runs are taken to lie inside the pool, as `ScanTheorems.Sound` says of the scan, and survivors are numbered in the order of the headers instead of by width.
- UpvalueResolution.UpvalLeadsToDeclaration: at most 256 upvalue words in a function, as numbers pass through 8-bit values, and slots that are fixed before nested functions are written (parameters and preset variables).
- ContainerRoundTrip.FileRoundTrip: strings without backslashes, no FFI constants, each nested prototype referenced once; names of debug information as `FitName` says; fewer than 2^31 lines in a function, as `LineTablesExactly` says.
- Uleb.ReadUleb: shifts by 32 and more bits, undefined in the code, drop their bits here.
- DebugInfo.ReadNames: bytes behind the end of a damaged debug section are zero here, and codes 7 and from 128 on, which the code takes from outside its table, are empty names.
- DebugInfo.ReadLineNumbers: sizes are unbounded here; a damaged file whose sizes exceed 2^31 bytes is not modelled.
- Constants.WriteNum: integers are known by their 32-bit pattern, as the reader returns them; that the reader's unsigned value is written back as a double for patterns from 2^31 on is therefore not visible.
- ExpressionParsing.ExpressionParser.Subexpr: `not` or `#` in place of a binary operator, for which the code reads behind its table, end the expression here. Tree nodes are values, so grafting in place is not modelled; the empty input, for which the code makes an empty node, is left to the caller.
- Stepping.Engine.DebugHook: breakpoints, aborts, the line and row-column modes, frames of native functions and tail calls.
- Capture.StepSim: variables exist once per activation, as the interpreter's `UCLO` renews no cells; the reference stores call results as the interpreter does; tables, metatables, native functions, arithmetic and the order of instructions by program counter are left open, any sequence of instructions is covered.
- ForLoops.LoopEnds: wrap-around of the 32-bit index, undefined in the code, is modelled as on the usual hosts.
- Scoping.Analyze: conditions of `repeat` (looked up outside the block by the code), `function name()`, the lists of references by scope, and the order in which a hash table lists names.
- Assembly.GenerateCode: operands arrive as slots and numbers that fit their instruction; what the code does with others (it reports an error, or drops the instruction of a call with 255 arguments) is not modelled.
- Interference between the separate allocation passes of `allocateRegisters3`, and its frame size read from the final bit set.
- User interfaces, terminals, editors, highlighters, project files, devices and the foreign Lua interface.
- Generated parsers and token tables; string escapes; cross-reference data, error texts and warnings.
- The opcode table of LuaJIT: its header is not part of this model.
