# clox, modelled in Dafny

clox is a bytecode interpreter for a Lox-like language, written in C.  This project models
four of its components, and a small fifth one, and proves what they are relied on for.

- **The collector** (`Heap.dfy`, `Collector.dfy`): pages of slots, a free list, a young
  stack, a remember set fed by a write barrier, a young and a full collection, and a
  program that allocates, stores, hides and collects in any order.  Roots are of two kinds,
  as a young collection does not visit all that a full one does.  A slot is a position
  in one sequence of cells and an object is what the cell holds; finding all children of
  an object is following its fields.
- **Code generation and optimization** (`Opcodes.dfy` to `Pipeline.dfy`): syntax trees and
  what they do; the stack machine on instructions and on words; instruction lists with
  sizes, word-relative jumps and links; the doubly linked list and its patching; the
  optimizer on it; emission from the tree; flattening and disassembly.  `Compile.dfy` is
  the code a tree stands for with jumps as indexes, `Emitter.dfy` the generator that
  emits, links and patches, `Drafts.dfy` exactly the list it leaves, `OptimizerRun.dfy`
  the optimizer on values, and `Pipeline.dfy` puts it all together.  `Astray.dfy` takes
  two programs through it that the optimizer breaks, and `Laws.dfy` says what the
  arithmetic shared by folder, machine and tree computes.
- **The hash table** (`Slots.dfy`, `Table.dfy`, `Maps.dfy`): open addressing with linear
  probing and deletion without tombstones, as a finite map, and the map operations on it.
  A key is an equivalence class of equal keys with its hash.
- **Variable resolution** (`Scopes.dfy`, `Upvalues.dfy`, `Nesting.dfy`,
  `FunctionCompiler.dfy`, `Unwinding.dfy`): slots and scopes of a function against a stack
  of environments, captured variables across nested functions against lexical scoping, and
  the value stack that scopes leave behind.
- **Split and join** (`Strings.dfy`).

Methods on classes follow the C code step by step and are proved against functions of the
state; what the code is for is proved about those functions.

## Where the code differs from what it is for

Each of these has a concrete input or an exact condition below.

- A full collection started while the free list is not empty forgets the slots on it
  (memory.c:1420-1440).  Allocation never starts one so; a program's own request may.
- A string allocated hidden is not put on the list of hidden objects when it is hidden
  again (object.c:27-32, object.c:128-133, memory.c:1142-1149): it is kept but not traced,
  and a full collection may free what it points to if nothing else holds it.
- A jump that records the removed instruction itself as its target is patched although its
  target does not move (compiler.c:523-530); the same in adding an operand.
- A conditional jump behind a true constant becomes a pop one word shorter and nothing
  that spans it is patched (compiler.c:565-570).
- Unused constants are removed even when a jump lands on them (compiler.c:766-781).
- The test for a jump to the next instruction (compiler.c:480-482) asks for a distance of
  zero, which no emitted jump has.
- The disassembler that builds a string steps over three words of an instruction that has
  four, and does not know two opcodes (debug.c:799-911).
- Splitting loses a pattern at the very end, so joining does not give it back.
- With an empty pattern `split` never ends on a string that is not empty
  (string.c:234-236).

## Model

| member | source | states |
|---|---|---|
| Heaps.YoungSafe | memory.c:455-501 | Given the write barrier's promise, what a young collection frees is pointed to by no object, and is reachable from any starting points only if it is one of them, whatever its gray loop marked |
| Heaps.YoungSweepSafe | memory.c:455-514 | No survivor of a young collection is left with a pointer to a freed slot |
| Heaps.YoungKeepsIff | memory.c:307-526 | A young collection keeps all that any set of starting points reaches, visited by it or not, if and only if each of these points is old, hidden, off the young stack, marked or remembered: what aging the roots that only full collections visit is for |
| Heaps.MarkedExactly | memory.c:1398-1405 | A set that holds the roots, is closed under fields and holds only reachable slots is exactly the reachable set: what the gray loop leaves when it runs out |
| Heaps.BlackenKeeps | memory.c:694-910 | Popping a gray object and graying its fields keeps the tri-colour invariant and marks nothing unreachable |
| Heaps.FullDanglesIff | memory.c:1436-1480 | A full collection leaves a pointer to a freed slot if and only if an object kept only for its hidden flag, and not traced, points to one that dies |
| Collectors.HiddenUntraced | object.c:128-133 | A run that ends so: a program allocates a hidden string and its class, stores the one in the other and asks for a full collection, which frees the class |
| Heaps.PinnedIffTraced | memory.c:1436-1480 | It leaves none if and only if whatever a hidden object points to is hidden or reachable, listed or not |
| Heaps.HiddenStringPinned | object.c:46-62 | As is so of a hidden string whose class is a root |
| Collectors.SlotsLost | memory.c:1420-1440 | A run that loses slots: two full collections asked for in turn |
| Heaps.UpdateSound | memory.h:91-100 | Changing one object keeps every invariant of the collector as long as each young object it newly points to is remembered |
| Heaps.NewSound | memory.c:553-565 | The first free slot holds the new object, no unused slot is lost, and unless a pointer dangles nothing pointed to that slot and all invariants hold with the object in it |
| Heaps.StillReachable | memory.c:307-526 | What was reachable and is kept with its fields is reachable still |
| Collectors.Collector.GrayObject | memory.c:646-676 | Marks and pushes an object at most once per collection; a young collection passes old objects over, a full one ages what it marks |
| Collectors.Collector.TraceReferences | memory.c:1398-1405 | Ends with an empty gray stack, the tri-colour invariant and only reachable objects marked; it terminates because each object is pushed once |
| Collectors.Collector.TraceYoung | memory.c:441-453 | The two-counter loop terminates; whatever was gray at the start has its young fields marked, nothing unreachable is marked, and every marked object stays on the stack |
| Collectors.Collector.SweepYoungStack | memory.c:457-501 | Promotes, keeps or frees each slot of the young stack once and threads exactly the freed ones onto the free list |
| Collectors.Collector.WhitenGray | memory.c:503-510 | Takes every mark off again and leaves the gray stack empty |
| Collectors.Collector.CollectYoungGarbage | memory.c:307-526 | It frees exactly the young, unhidden objects of the young stack that no root, no C code and no remembered entry names, and their slots join the free list; the others it looks at end up one generation older; all else is as it was; everything reachable is kept, also from roots that only full collections visit; all invariants hold and no unused slot is lost, whatever is hidden |
| Heaps.MarkedHeld | memory.c:441-501 | Marking through fields saves nothing by itself: what is marked, and on the young stack, is visited directly or remembered, by the barrier's promise |
| Collectors.Collector.AddHeap | memory.c:237-271 | Adds a page of unused slots, whatever its memory held, in front of the free list |
| Collectors.Collector.SweepHeaps | memory.c:1420-1494 | Frees exactly the unmarked, unhidden objects of all pages and builds the free list of exactly those, counting each twice |
| Collectors.Collector.CollectGarbage | memory.c:1192-1514 | Exactly the unhidden objects are freed that neither kind of roots, C stack nor hidden objects reach; what is reachable ages twice, once grayed and once swept; a page is added when twice the number freed is below the minimum; the free list is what was freed and that page; no pointer dangles if and only if whatever hidden objects pointed to was hidden or reachable; the slots lost are those lost before and those on the free list before |
| Collectors.Collector.FindRoom | memory.c:541-580 | Does nothing if a slot is free and the young stack has room; adds a page if collecting is off; otherwise runs a young collection and, exactly if that leaves no slot free, a full one; no slot is lost and every reachable object kept; a pointer dangles afterwards only if a full collection was needed and found hidden objects not pinned |
| Heaps.RoomFrees | memory.c:541-580 | When no slot is free and a young collection frees none, everything neither reachable nor hidden is freed, everything else is there, and a page is added exactly when twice the number freed is below the minimum |
| Collectors.Collector.AllocateObject | object.c:19-38 | After making room as FindRoom does, the new object takes the first free slot, which no reachable object occupied; every reachable object is kept and no unused slot lost; all invariants hold unless a full collection was needed and found hidden objects not pinned |
| Collectors.Collector.TakeSlot | memory.c:553-565 | Takes exactly the first free slot and puts it on top of the young stack when it is young and the stack has room; nothing else changes, and all invariants that held still do |
| Collectors.Collector.Write | memory.h:91-100 | Stores exactly that pointer and remembers a young pointee whatever the owner, which keeps the barrier's promise |
| Collectors.Collector.Promote | memory.c:151-158 | Sets the generation, at most the oldest; all invariants are kept if and only if it is not the youngest, or the object is off the young stack, remembered, or held by no object and no root that only full collections visit |
| Heaps.RejuvenatedIff | memory.c:151-158 | Exactly when an object may be put back into the youngest generation |
| Collectors.Collector.HideFromGC | memory.c:1142-1149 | Lists an object and sets its flag, unless the flag is set already |
| Collectors.Collector.UnhideFromGC | memory.c:1151-1158 | Takes an object off the list and clears its flag; every listed object stays flagged |
| Collectors.Collector.Perform | memory.c:528-580 | Each request of a program does exactly what it is for and keeps all invariants, but for a full collection, asked for or made to allocate, that finds hidden objects not pinned; collections and allocations keep every reachable object |
| Collectors.Collector.Run | memory.c:307-580 | Over every run of allocations, barriered stores and removals, root changes, hiding, aging and collections each memory follows from the one before by what was asked for, and all invariants hold up to the first full collection, if any, that finds hidden objects not pinned; none does if they start out pinned and no pointer is stored or taken away; no unused slot is lost unless a full collection is asked for |
| Slots.ProbeFinds | table.c:73-89 | In a table whose entries can all be reached from their home slots, a probe stops at a key's entry if the key is bound and at a free slot otherwise |
| Slots.StoreProbeable | table.c:118-137 | Storing a key where its probe stopped keeps every entry reachable |
| Slots.ClearRepresents | table.c:139-170 | Clearing a slot removes exactly its key from the finite map |
| Slots.RepresentsSize | table.c:118-137 | The number of occupied slots is the size of the finite map |
| Tables.DeleteStep | table.c:150-167 | Clearing an entry behind the hole and adding it again puts it at or before its old slot and keeps the invariant of the deletion, wrapping around included |
| Tables.DeleteEnds | table.c:150-167 | When the walk meets the free slot that ended the cluster, every entry can be reached again |
| Tables.Table.FindEntry | table.c:73-89 | Terminates at the key's entry or the first free slot of its probe sequence whenever a slot is free |
| Tables.Table.Resize | table.c:91-116 | Moves every entry into the larger array: the same finite map and count, all entries reachable |
| Tables.Table.Set | table.c:118-137 | The finite map with the key bound to the value; true exactly for a new key; the count follows; grows to twice its slots, from eight, exactly when over three quarters full |
| Tables.Table.Get | table.h:32-41 | Finds exactly the keys of the finite map, with their values |
| Tables.Table.Delete | table.c:139-170 | Removes exactly that key, keeps every other binding findable, and never resizes while re-adding |
| Tables.Table.ReAddCluster | table.c:150-167 | Re-adding the rest of the cluster terminates at its free slot and restores the probe order without changing map, count or capacity |
| Tables.RunOps | table.c:91-170 | After any run of settings and deletions the table is the finite map they build, the count its size, the capacity none or a power of two of at least eight, a quarter of it free |
| Laws.HomeMasks | table.c:75 | A probe starts at the slot whose number is the low bits of the key's hash |
| Maps.ListedEnumerates | table.h:52-62 | Going through the slots meets each binding of the finite map exactly once |
| Maps.NthEntry | table.c:223-235 | The n-th entry in slot order, or -1 for none |
| Maps.MapIterator.Next | runtime.c:1249-1264 | Each call yields the next entry of an unchanged map and, after the last, nil |
| Maps.AddAll | table.c:183-191 | The union of both maps in which the added table's bindings win, also when a table is added to itself |
| Maps.MapEquals | object.c:1044-1061 | True exactly when both maps bind the same keys to the same values, though only one direction and the counts are checked |
| Maps.LoxMap.MergeWith | map.c:267-284 | Right-biased union, refused on a frozen map |
| Maps.LoxMap.DeleteKeys | map.c:286-300 | Removes exactly the given keys and returns how many were bound; refused on a frozen map |
| Maps.LoxMap.Rehash | map.c:302-320 | Moves the map to a new table with the same bindings |
| Compile.ExprRuns | compiler.c:1849-1932 | The code of an expression leaves its value on the stack, with the same effects, or stops as evaluating it does |
| Compile.StmtRuns | compiler.c:2002-2055 | The code of a statement does what the statement does, loops included, and keeps running as long as it does |
| Compile.CompiledRunsAlike | compiler.c:1844-2055 | For every program, starting globals and outcome: its code comes to that end if and only if running the tree does |
| Code.WordStepAgrees | vm.c:2504-2930 | One step of the machine on flattened words is one step on the instruction list, jump operands read as word distances |
| Code.WordsRunAlike | vm.c:2504-2930 | Words come to an end exactly when the instruction list they flatten does, the same end |
| Code.FlattenAt | compiler.c:797-807 | The words of each instruction lie at its offset |
| Emitters.Emitter.EmitInsn | compiler.c:161-175 | Appends the instruction, which takes the label that is due |
| Emitters.Emitter.IdentifierConstant | compiler.c:831-857 | The index of the name among the constants; a name joins them once, at their end, and afterwards its index is returned again |
| Emitters.Emitter.PatchNext | compiler.c:921-942 | The jump lands behind the last instruction, is linked to it, and the next instruction will be labelled |
| Emitters.Emitter.PatchTail | compiler.c:1869-1887 | The jump lands behind the operator just emitted, which it is linked to and which is labelled |
| Emitters.Emitter.EmitExpr | compiler.c:1849-1932 | What is emitted for an expression means its code at that place, with every jump, link, label and constant in order, leaves all before it as it was, and is exactly the list that follows from the tree and the list before |
| Emitters.Emitter.EmitLogical | compiler.c:1869-1887 | The same for `and` and `or`, whose jump goes over the right side |
| Emitters.Emitter.EmitIf | compiler.c:2002-2021 | The same for `if`, also when the branch is empty |
| Emitters.Emitter.EmitIfElse | compiler.c:2002-2021 | The same for `if` with `else`, two jumps patched |
| Emitters.Emitter.EmitLoop | compiler.c:976-986 | A loop instruction that lands on the condition's first instruction, found by its word offset, linked and labelled |
| Emitters.Emitter.EmitWhile | compiler.c:2022-2055 | The same for `while` |
| Emitters.Emitter.EmitProgram | compiler.c:812-820 | The list emitted for a program means the program's code, is in the order the optimizer needs, and is exactly the one that follows from the tree |
| Emission.EmittedThen | compiler.c:879-893 | Code emitted after code is the code of both, whatever jumps are still open |
| Emission.EmittedNext | compiler.c:921-942 | A jump patched in this way lands on its target, which is labelled once it is there, and disturbs no other instruction |
| Emission.ProgramInOrder | compiler.c:812-820 | A finished program's jumps all have usable links to labelled instructions, none lands behind a value on its way to an operator, and number literals share no constant |
| Pipeline.CompiledWordsRunAlike | compiler.c:788-810 | The flattened, unoptimized words of every program come to the same end as running its tree, or neither ends |
| Pipeline.OptimizedWordsRunAlike | compiler.c:689-810 | So do the words after any run of the optimizer whose steps are sound where they are taken |
| Pipeline.ProgramSettles | compiler.c:689-786 | What the optimizer leaves of any compiled program holds no two numbers pushed for an operator with a known result, no two unlabelled pops in a row, no unlabelled jump that the value pushed before it decides, and, where unused constants are to go, none of them unless a jump was turned into a pop |
| Pipeline.CompileProgram | compiler.c:2605-2609 | Compiling, optimizing and flattening a program, exactly as the tree and the optimizer on values say: unoptimized words run like the tree; optimized ones do whenever the steps taken were sound, so whenever they were folds and fusions only, and leave nothing of what ProgramSettles names |
| Patch.PatchedIffSpans | compiler.c:498-552 | For every jump and loop in the list: the patcher stops exactly at a loop it would leave empty and at a jump that records the removed instruction with nothing left of its distance; it changes, by that instruction's size, the operands of exactly those that span it and of forward jumps that record it |
| Patch.RemoveKeeps | compiler.c:498-552 | Removing an instruction that no jump depends on succeeds, and every jump still lands where it did, with usable links; a loop to it lands on its successor |
| Patch.RemoveLandsIff | compiler.c:498-552 | When the patcher gets through, every jump lands where it should if and only if no forward jump to the removed instruction records it as its target |
| Patch.GoesAstray | compiler.c:523-530 | Such a jump is patched though its target does not move, and lands elsewhere |
| Patch.NoEmptyLoop | compiler.c:484-492 | A loop that would be left to jump to itself stops the patcher |
| Patch.GrowKeeps | compiler.c:630-687 | Adding an operand to an instruction no jump records succeeds and every other jump lands where it did |
| Patch.GrowLandsIff | compiler.c:630-687 | Adding an operand keeps every landing if and only if no forward jump records the instruction as its target |
| Rewrite.RewriteKeeps | compiler.c:689-786 | Replacing a straight stretch of instructions by one of the same effect keeps what the program comes to, provided no jump goes into its middle |
| Simplify.FoldKeeps | compiler.c:699-721 | Folding two number literals and an operator keeps a program's meaning and the list in order for the next step; nothing else shares the literal's constant |
| Simplify.FoldKeepsHere | compiler.c:699-721 | In any list, whatever its jumps and loops, the fold keeps meaning and links if the literal has a constant of its own and no jump depends on the two instructions removed |
| Simplify.FuseKeeps | compiler.c:723-736 | Fusing two unlabelled pops keeps a program's meaning and the list in order for the next step |
| Simplify.FuseKeepsHere | compiler.c:723-736 | In any list the fusion keeps the meaning if no jump lands on either pop |
| Simplify.JumpPoppedIff | compiler.c:554-573 | Turning a conditional jump into a pop without patching keeps every landing if and only if no other jump spans it |
| Simplify.JumpPoppedKeeps | compiler.c:748-764 | If none does, the step keeps the program's meaning behind a true constant |
| Simplify.DropJumpKeeps | compiler.c:748-764 | Removing a jump that a false constant never takes keeps the program's meaning, provided nothing lands behind it |
| Simplify.UnusedKeeps | compiler.c:766-781 | Removing an unused constant and its pop keeps the program's meaning, provided no jump records the constant and none lands behind the pop |
| Simplify.UnusedLandsIff | compiler.c:766-781 | When the patcher gets through both removals, every jump lands where it should if and only if no forward jump to the constant records it as its target |
| Optimizer.ActionKeeps | compiler.c:689-786 | Every step of the optimizer that is sound where it is taken succeeds, keeps the list in order and what the program comes to |
| Optimizer.ActionLandsIff | compiler.c:689-786 | Exactly when a step leaves every jump landing where it should: folds and fusions always; a pop in place of a jump if no jump spans it; a removal if no forward jump to the instruction records it |
| Optimizer.LandedWordsRunAlike | compiler.c:689-786 | Words before and after a step come to the same ends if the step leaves every jump landing where it should |
| Optimizer.RunKeeps | compiler.c:689-786 | So does every run of such steps, in any order |
| Optimizer.FoldAndFuseSound | compiler.c:699-736 | Every run of folds, cascades included, and fusions is sound |
| Optimizer.OptimizedRunsAlike | compiler.c:689-786 | Words before and after a sound run come to the same ends |
| Astray.SpannedJumpGoesAstray | compiler.c:565-570 | `while (x) { if (true) {} }` compiled both ways: with x false the unoptimized words halt as the program does, and the optimized ones run past the last word, because the jump out of the loop is not shortened |
| Astray.RecordedConstantGoesAstray | compiler.c:766-781 | `if (x) {} 5;` compiled both ways: with x false the unoptimized words halt, and without the unused number the jump over the branch lands past the last word |
| Iseqs.Iseq.AddInsn | chunk.c:57-69 | The list with the instruction at its end; counts and links in order |
| Iseqs.Iseq.InsnIndex | chunk.c:71-84 | The position of an instruction, or -1 when it is not in the list |
| Iseqs.Iseq.RmInsn | chunk.c:86-112 | The list without the instruction, next and prev links, counts and word count in order; other links move with their instructions |
| Iseqs.Iseq.RmInsnAndPatchJumps | compiler.c:498-552 | Succeeds exactly when no assertion stops it, and then the list is the patched one without the instruction |
| Iseqs.Iseq.AddInsnOperand | compiler.c:630-687 | Succeeds exactly when no assertion stops it, and then the list is the patched one with the operand added |
| Iseqs.Iseq.RecordedIndex | compiler.c:514-521 | The instruction a jump records as its target, through either link |
| OptimizerRuns.NothingLeft | compiler.c:689-786 | The optimizer leaves nothing to fold, but for zero divisors, no two pops to fuse and no jump behind a constant that decides it, although it never looks back after fusing pops or turning jumps into pops; given number literals with constants of their own and conditional jumps right behind their conditions |
| OptimizerRuns.SettledClean | compiler.c:689-764 | Told by what the instructions do: no fold with a result, no fusion and no decided jump is possible any more |
| OptimizerRuns.NoneUnused | compiler.c:766-781 | No unused constant is left where they are to be removed, unless a jump was turned into the pop behind it |
| Optimizer.BlocksSpared | compiler.c:766-781 | No run takes away the value that a block goes on with |
| Optimizer.NoJumpNext | compiler.c:480-482 | On a list in order the test for a jump to the next instruction never holds, as such a jump has distance one: they all stay |
| OptimizerRuns.StopsOnlyThere | compiler.c:689-786 | On a list in order the optimizer is stopped by nothing but a fold C does not define or the first step that would change what the program does |
| OptimizerRuns.UnusedKept | compiler.c:766-781 | No unused constant is removed when they are to be kept |
| IseqOptimizer.FoldStep | compiler.c:699-721 | Applies exactly to an operator behind two number literals; a zero divisor moves on; otherwise the two instructions are gone, the constant changed and the cursor goes back to it; stops only where the step has no outcome |
| Laws.FoldsAsRun | vm.c:2383-2407 | Folding foretells what the machine does with the two numbers, a zero divisor included |
| Laws.NumbersOnly | vm.c:2383-2407 | An operator throws a type error exactly when an operand is no number |
| Laws.Sums | compiler.c:422-423 | Folding `+`: zero changes nothing and the sum moves with either operand |
| Laws.Differences | compiler.c:424-425 | Folding `-` undoes `+`, and `+` undoes it |
| Laws.Products | compiler.c:426-427 | Folding `*`: one changes nothing, operands may be swapped and sums multiplied term by term |
| Laws.Quotients | compiler.c:428-433 | Folding `/` undoes `*`, and `*` undoes it |
| Laws.Truncates | compiler.c:439-452 | Converting to an integer drops the fraction towards zero |
| Laws.DropsFractions | compiler.c:434-452 | The integer operators see nothing else of their operands |
| Laws.Remainders | compiler.c:434-439 | Folding `%` leaves a multiple of the divisor, something smaller than the divisor, with the sign of the dividend |
| Laws.Bitwise | compiler.c:440-445 | Folding `|`, `&` and `^` goes bit by bit in two's complement |
| Laws.BitsDetermine | compiler.c:440-445 | Which determines the integer |
| Laws.ShiftsLeft | compiler.c:446-450 | Folding `<<` multiplies by a power of two, but for what does not fit the word |
| Laws.ShiftsRight | compiler.c:451-452 | Folding `>>` divides by a power of two, rounding down |
| Laws.ShiftsInWord | compiler.c:446-452 | A shift has no defined result exactly for distances outside the word |
| Laws.Orders | vm.c:831-855 | Of two numbers exactly one is less or they are equal, a number is less than a larger one, and the other comparisons follow |
| Laws.Equals | vm.c:857-900 | Values are equal or not; only numbers are compared otherwise |
| Laws.Negates | vm.c:2519-2527 | Negating is subtracting from zero, and throws a type error for what is no number |
| Laws.BuiltInsStay | vm.c:2639-2685 | No run of any instructions binds a built-in name |
| IseqOptimizer.FuseStep | compiler.c:723-736 | Applies exactly to two unlabelled pops and leaves the fused list; stops only where the patcher does |
| IseqOptimizer.ReplaceJumpInsn | compiler.c:554-573 | Leaves a labelled jump, removes an unconditional or peeking one, turns the conditional one into a pop without counting the lost word; stops exactly on other jumps or where the patcher does |
| IseqOptimizer.UnusedStep | compiler.c:766-781 | Applies exactly to a pop behind a constant unless the next instruction continues a block; stops only where the patcher does |
| IseqOptimizer.Visit | compiler.c:689-786 | Each visit of the cursor does exactly what is chosen at that place, which makes the list shorter or moves on |
| IseqOptimizer.OptimizeIseq | compiler.c:689-786 | Comes to an end on every list exactly when no step in its way is stopped, and then the list and the steps are those of the optimizer on values; the word count stays exact unless a jump was turned into a pop |
| Chunks.InsnAtOffset | chunk.c:293-305 | The instruction that starts at the offset, exactly for the offsets at which one starts |
| Chunks.InsnOffset | compiler.c:904-918 | The words between two instructions, -1 when the second is not behind the first |
| Chunks.Chunk.WriteWord | chunk.c:131-147 | Appends the word; a full chunk doubles, from eight words on |
| Chunks.CopyIseqToChunk | compiler.c:788-810 | The chunk gets exactly the words of the instructions the optimizer leaves, or of all when it is turned off |
| Disassembler.Walk | debug.c:308-313 | Steps through the words by the size the disassembler gives each opcode, a closure's being that of its function |
| Opcodes.CountsAgree | compiler.c:177-210 | For every opcode the operands the compiler writes, the words the machine reads and those the printing disassembler steps over agree |
| Disassembler.PrintingWalkFinds | debug.c:679-797 | The printing disassembler visits exactly the starts of instructions written with the operands the compiler gives them, to the end, closures with their captured variables included |
| Disassembler.BuildingWalkFindsIff | debug.c:799-914 | The string-building one does so if and only if no instruction is one of the three it sizes wrongly or does not know |
| Disassembler.WalkRecovers | debug.c:679-797 | Reading the words at those starts gives back every opcode with its operands |
| Disassembler.FlattenInjective | compiler.c:797-807 | Two lists of instructions with the same words are the same instructions |
| Disassembler.SpreadFlattens | compiler.c:1675-1686 | The words are the same whether those that follow a closure are taken as its operands or, as they are emitted, as instructions of their own |
| Scopes.LookupAgrees | compiler.c:335-346 | Looking a name up from the last slot down agrees with looking it up through the environments, innermost first |
| Scopes.ScopesAgree | compiler.c:213-294 | After every nested run of scope pushes, declarations, captures and pops the slots and the stack of environments agree on every name, on the count and on the errors |
| Scopes.ScopesOrdered | compiler.c:1072-1094 | In every such run depths do not decrease along the slots and no name but the compiler's own is declared twice at one depth |
| Scopes.PopRestores | compiler.c:272-294 | A scope pushed and popped leaves exactly the slots of the scope around it, but for flags of captured ones |
| Upvalues.ResolveFinds | compiler.c:356-387 | A name is found in the functions around exactly when lexical scoping finds it; unless room runs out, following the descriptor returned outwards reaches the local lexical scoping assigns, which is flagged as captured; nothing else changes but descriptors added at the ends |
| Upvalues.ResolveStable | compiler.c:308-387 | Descriptors handed out before keep their place and lead to the same local |
| Upvalues.ChaseInjective | compiler.c:308-327 | No two descriptors of a function lead to the same local |
| Upvalues.FullOnlyAtLimit | compiler.c:318-321 | Room runs out only in a function that has every descriptor it may have |
| Upvalues.InnermostChanges | compiler.c:356-387 | Scopes that come and go in the innermost function, and inner functions that begin and end, keep all descriptors in order |
| Nesting.LexicalAgrees | compiler.c:335-387 | Looking a name up in the slots of all functions around is looking it up through their environments |
| Nesting.OutermostInStep | compiler.c:213-294 | A program starts out with slots and environments in step |
| Nesting.NestingAgrees | compiler.c:213-387 | Through every run of scopes, declarations, functions that begin and end and names resolved, the slots of all functions agree with all their environments on every name |
| Nesting.NestingResolves | compiler.c:356-387 | At any point of such a run a name is found in the functions around exactly when one of their environments binds it, and the descriptor leads to the slot of the innermost binding |
| Nesting.NestingStable | compiler.c:308-387 | Whatever is compiled in between, a descriptor leads to the same slot for as long as its function is being compiled |
| FunctionCompilers.FunctionCompiler.ResolveLocal | compiler.c:335-346 | The last slot of that name, or -1 |
| FunctionCompilers.FunctionCompiler.PushScope | compiler.c:213-226 | One scope deeper, the slots as they were |
| FunctionCompilers.FunctionCompiler.PopScope | compiler.c:272-294 | Takes the innermost scope's slots and emits, last slot first, a close for each captured one and a pop for the others that need one |
| Unwinding.ScopeUnwinds | compiler.c:272-294 | After any run leaving the scope goes through its slots from the last down: it closes each captured since it was taken and pops each other, but those the compiler added to stay, and in a block none |
| Unwinding.HeightIsSlots | compiler.c:272-294 | In a function that is no block the value stack is at every point of a run as high above where it was as there are more slots: slot numbers are places on the stack |
| Unwinding.ScopeBalances | compiler.c:213-294 | So any scope leaves the value stack as high as it found it |
| Unwinding.FunctionLeaves | compiler.c:1255-1260 | The slot of a function itself is given up like the others |
| FunctionCompilers.FunctionCompiler.DeclareVariable | compiler.c:1072-1094 | A new slot for the name, to be given up with its scope; an error when the scope has the name or there are too many locals; at the outermost level the index of the name among the constants, which it joins once |
| FunctionCompilers.FunctionCompiler.AddFakeLocal | compiler.c:1053-1070 | A slot under the compiler's own name, or an error when there are too many |
| FunctionCompilers.FunctionCompiler.IdentifierConstant | compiler.c:831-857 | The index of the name among the constants, where it was or at their end if it is new |
| FunctionCompilers.FunctionCompiler.AddUpvalue | compiler.c:308-327 | The index of the descriptor, shared if it is there already; 0 with an error when there is no room |
| FunctionCompilers.FunctionCompiler.ResolveUpvalue | compiler.c:356-387 | Changes the whole stack of functions as the resolution on values says, and returns its index |
| FunctionCompilers.FunctionCompiler.NamedVariable | compiler.c:1097-1124 | Emits the instruction that reads or writes exactly the variable lexical scoping assigns, with as many operands as the machine reads: a slot of this function, a descriptor that leads to the slot of one around, or a global, and the index of the name; earlier descriptors keep leading where they led |
| Strings.StrStr | string.c:234 | The first match at or after a position |
| Strings.Split | string.c:220-243 | The pieces up to each match in turn, and what remains if anything does |
| Strings.JoinAll | array.c:155-179 | The pieces with the separator between neighbours |
| Strings.SplitThenJoin | string.c:220-243 | Joining the pieces with the pattern gives the string back if and only if the last match does not end where the string ends; otherwise one pattern at the end is lost |
| Strings.TrailingLost | string.c:239-242 | A string for which that happens |
| Strings.EmptyPatternStalls | string.c:234-236 | With an empty pattern and a string that is not, the loop is after any number of rounds where it started, has pushed as many empty pieces and goes round again |
| Strings.JoinThenSplit | array.c:155-179 | Splitting what was joined gives back pieces that share no character with the separator, if the last is not empty |
| Strings.PartsWithout | string.c:234-238 | No piece holds the pattern |

## Left out

- Collectors.Collector.AllocateObject: promises all invariants only if no full collection it has to make leaves a pointer dangling, which Collectors.Collector.CollectGarbage says exactly when one does.
- Collectors.Collector.Run: leaves out what a program does after a pointer dangles, putting an object back into the youngest generation while it is on the young stack and not remembered, and taking such an object as a root that only full collections visit.
- Which roots each collection visits: two arbitrary sets stand for them.
- IseqOptimizer.FoldStep: stops where C leaves the result undefined, as a remainder by a number that truncates to zero.
- Iseqs.Iseq.RecordedIndex: stops where the code would read through a link to a freed instruction.
- Strings.Split: asks for a pattern, or an empty string, because otherwise the loop never ends, as Strings.EmptyPatternStalls says.
- Upvalues.ResolveFinds: says where the descriptor leads only when no function on the way has run out of descriptors, in which case an error is reported.
- Pipeline.CompileProgram: optimized words are proved to run like the tree only for runs whose steps are sound, because Astray has programs that other steps break; Optimizer.ActionLandsIff and Optimizer.LandedWordsRunAlike say step by step which do not.
- Simplify.UnusedKeeps: goes one way, as it also keeps the list in order for further steps; Simplify.UnusedLandsIff is the exact condition for the landings, under which Optimizer.LandedWordsRunAlike keeps what the words come to.
- Simplify.DropJumpKeeps: goes one way for the same reason; Patch.RemoveLandsIff is the exact condition for the landings, under which Optimizer.LandedWordsRunAlike keeps what the words come to.
- Finalizers, zombie threads, what each object type points to, statistics and profiling of the collector.
- Pointer stores that bypass the write barrier: every store is taken to go through it.
- Numbers are reals, with the wrap-around and truncation of the integer operators modelled; floating-point rounding is not. Conversions out of range and shifts that overflow, which C leaves undefined, wrap around.
- NaN and signed zeros, so that every number equals itself.
- Limits on the value stack, the number of constants and the size of an operand, and the wrap-around of a pop count.
- Globals of single scripts and the lookup of constants when a global is not found.
- Strings, arrays, maps, calls, classes, `for`, `foreach`, `break`, `continue` and exceptions in the language.
- `break` instructions, the catch table and the words that follow a closure instruction, in the optimizer, which does not patch them.
- Line numbers and nesting levels beside the words, and the bookkeeping of variables for the debugger.
- Deleting entries while scanning a table, and strings compared by hash alone.
- Scanner, parser, input and output, threads and the regular expression matcher.
