# fantuan-kernel in Dafny

A model of the algorithmic core of fantuan-kernel and its C library, and proofs
of what that core keeps over whole runs. `dafny verify dfyconfig.toml` checks
everything.

The parts, bottom to top:

- **Regular expressions** (`Regex*.dfy`). The parser turns a pattern into a
  tree, the emitter turns the tree into SPLIT/JMP/SAVE code with back-patching,
  and a backtracking machine runs the code under a step budget. `RegexSyntax`
  gives the tree two meanings: which spans it matches, and which match the
  engine prefers, captures included. The code is proved sound and complete
  against both. `RegexCost` computes from the tree and the subject alone how
  many steps an attempt takes, so that `RegexSearch` can say exactly which
  matches a search finds. `RegexLaws` says what the tests mean without them: of
  single bytes, under change of case, in the mirror and line by line.
- **Physical memory and address spaces** (`Bitmaps`, `FrameAllocator`,
  `Paging`, `Spawn`). The bitmap allocator is a state machine over sets of
  frames. The Sv39 tree refines a flat map from pages to entries over every run
  of maps. Spawning accounts for every frame on every way out.
- **ELF** (`ElfFormat`, `ElfImage`, `ElfMeaning`, `ElfLoader`, `SpawnElf`). The
  loader refines a byte-level image with overlapping segments, which is what the
  program headers ask for, and what it maps is what a spawned task sees.
- **The user heap** (`HeapBreak`, `HeapTiles`, `HeapLinks`, `MallocSpec`,
  `Malloc`). The break maps pages. `malloc` partitions what lies below it into
  tiles. The linked free list in memory refines the list of tiles.
- **NVMe** (`NvmeProtocol`, `NvmeDriver`). One queue pair as steps of a host and
  a controller in any order, and the driver on top of it.
- **Scheduler, calendar, SHA-256, UTF-8, signals, terminal** (`Scheduler`,
  `Calendar`, `TimeLib`, `Sha256Spec`, `Sha256Constants`, `Sha256Vector`,
  `Sha256`, `Utf8`, `Signals`, `Tty`).

Code that updates state in place is a class whose methods are proved against
functions of the old state. The laws are lemmas about those functions.

Clocks, device behaviour, the reapable set, user-memory validity and the lexers
for bracket expressions and intervals are parameters. The locks and interrupt
flags around the operations are not modelled: each operation is one step.

## Where the code does not do what one would expect

For each of these there is a concrete input and the condition, checkable
beforehand, under which the property holds.

- A search can miss a match. An attempt succeeds if and only if there is a match
  and its price is within the budget (`RegexSearch.AttemptExact`). Patterns such
  as `(a*)*` have no price at all: they match everywhere and are found nowhere
  (`RegexSearch.LoopingMissesItsMatch`, `RegexSearch.EmptyRepetitionNeverFound`).
- An empty branch or group leaves a null child that the emitter follows. This
  happens if and only if reading the pattern comes to the end of a branch with
  nothing in it (`RegexParse.Parser.HollowNode`, `RegexParse.Regcomp`). The
  pattern `()` is accepted and has one (`RegexParse.EmptyGroup`). If the
  allocation of an unchecked leaf node fails, the parser drops the atom; the
  claims about the text are for runs in which that did not happen.
- A very large `malloc` damages the heap, if and only if `MallocSpec.Overruns`
  holds of the state before the call (`MallocSpec.MallocExact`,
  `MallocSpec.HugeRequestOverruns`). The block has room for the request if and
  only if aligning it does not wrap (`MallocSpec.MallocGives`).
- `brk` keeps its slot in order if and only if rounding the address up does not
  wrap (`HeapBreak.BreakKeepsGood`, `HeapBreak.FreshGood`); the last address of
  all moves the break past the mapped end (`HeapBreak.LastAddressWraps`).
- After a command was given up on, its late completion is taken for that of a
  later one (`NvmeProtocol.StaleCompletion`); the completion is the right one if
  and only if none was given up on (`NvmeProtocol.ConsumedIsIssued`).
- An image with a page where the user stack goes loses the frame of that page,
  on the way out and when spawning succeeds (`Spawn.SpawnUser`,
  `Spawn.StackOverImage`).
- A load that fails after the root was taken keeps the root and every frame it
  took (`Spawn.SpawnUser`, `Spawn.FailedLoadKeeps`).
- On RISC-V the checks on a file admit segments above 2^38
  (`SpawnElf.HighFileAccepted`). Such a page is mapped through the kernel's own
  tables and is seen from the kernel's root (`Paging.HighMapIsTheKernels`). The
  pages of a file can be mapped one by one, each in the user half, if and only
  if every segment ends below (`SpawnElf.ListedIsSeparate`,
  `SpawnElf.UserHalfIndex`).
- `mktime` gives a time back if and only if its year fits an `int`
  (`TimeLib.MkTimeOfBrokenDown`); the first second after comes back as the first
  second of all (`TimeLib.FirstLostSecond`).
- The decoder accepts surrogates, which the encoder refuses: the bytes ED A0 80
  (`Utf8.SurrogateDecoded`, `Utf8.DecodeIsRfc`, `Utf8.ByteRoundTrip`).
- A limit is kept by both string conversions if and only if it is not 0
  (`Utf8.DecodeLimit`, `Utf8.EncodeLimit`). The null after a string that is
  exactly as long as the limit goes one place beyond it (`Utf8.StoredWithin`,
  `Utf8.StoredBytesWithin`, `Utf8.OneTooMany`).
- A task that goes to sleep goes on running if and only if nobody is ready
  (`Scheduler.NobodyReady`), for instance when it is alone
  (`Scheduler.LoneSleeperRuns`).

## Model

| member | source | states |
|---|---|---|
| RegexSyntax.EvalMatches | libc-fantuan/src/regex_exec.c:38-102 | whatever choices the engine makes, it only ends at spans the tree matches |
| RegexSyntax.MatchesEval | libc-fantuan/src/regex_exec.c:38-102 | and some choices reach every span the tree matches |
| RegexCaptures.EvalDisciplined | libc-fantuan/src/regex_exec.c:76-84 | a match leaves each group as it was or sets it to a span inside the match that the group's own body matches |
| RegexCompile.Emitter.Push | libc-fantuan/src/regex_compile.c:30-46 | appends one instruction, or fails exactly when the array cannot grow and then changes nothing |
| RegexCompile.Emitter.Emit | libc-fantuan/src/regex_compile.c:88-141 | the code appended for a tree is the code of its plan, with every jump patched; the code before it is untouched |
| RegexCompile.Emitter.EmitRep | libc-fantuan/src/regex_compile.c:50-86 | a counted repetition becomes `min` copies and then a loop or optional copies |
| RegexCompile.Emitter.Compile | libc-fantuan/src/regex_compile.c:153-183 | a finished program is the code of the tree followed by MATCH |
| RegexCode.CompiledWellFormed | libc-fantuan/src/regex_compile.c:50-141 | every jump stays inside the program and every slot below the limit |
| RegexCode.CompiledSound | libc-fantuan/src/regex_compile.c:50-141 | an accepting path through the code is a match of the tree with the same choices, end and captures |
| RegexCode.CompiledComplete | libc-fantuan/src/regex_compile.c:50-141 | every match of the tree is an accepting path through the code |
| RegexMachine.Machine.Go | libc-fantuan/src/regex_exec.c:38-102 | the loop with its recursion on SPLIT and SAVE computes the recursive run: result, end, steps left and slots |
| RegexMachine.FailureRestores | libc-fantuan/src/regex_exec.c:76-84 | a failing run leaves every capture slot and the end as they were |
| RegexMachine.FailureIsFinal | libc-fantuan/src/regex_exec.c:38-102 | a run that fails with steps left has ruled out every path |
| RegexMachine.SuccessIsFirst | libc-fantuan/src/regex_exec.c:85-90 | a run that succeeds took the first accepting path in the order of preference |
| RegexMachine.EnoughIsEnough | libc-fantuan/src/regex_exec.c:40-42 | a run that ends within its budget does the same with any larger one |
| RegexCost.RunPriced | libc-fantuan/src/regex_exec.c:38-102 | the price computed from tree and subject is exactly the number of steps: with as many the run ends as the price says, with fewer it runs out |
| RegexCost.PriceBounded | libc-fantuan/src/regex_exec.c:38-102 | if every round of every unbounded repetition moves, the price is within a bound on the plan and the bytes to go |
| RegexCost.StaysIsMatch | libc-fantuan/src/regex_exec.c:38-102 | a plan can come to its end without moving exactly where the tree matches the empty span |
| RegexCost.EmptyRoundStarves | libc-fantuan/src/regex_exec.c:85-93 | a repetition reached where its body matches the empty span never ends, unless a round that moved succeeds first |
| RegexCost.EmptyRoundsNeverEnd | libc-fantuan/src/regex_exec.c:85-93 | if that holds from a position on, no budget is enough, whatever follows |
| RegexCost.DoomedNeverHits | libc-fantuan/src/regex_exec.c:85-93 | a plan every way through which enters such a repetition never succeeds |
| RegexSearch.AttemptSound | libc-fantuan/src/regex_exec.c:125-133 | a successful attempt is a match of the tree at its start and the preferred one |
| RegexSearch.AttemptComplete | libc-fantuan/src/regex_exec.c:125-133 | a failed attempt with steps left means that the tree does not match at that start |
| RegexSearch.AttemptCaptures | libc-fantuan/src/regex_exec.c:125-133 | every group is unset or holds a span inside the match that its body matches |
| RegexSearch.AttemptExact | libc-fantuan/src/regex_exec.c:125-133 | an attempt succeeds if and only if the tree matches at its start and the price is at most 200000 steps and 400 for each byte of the subject; it runs out if and only if the price is not |
| RegexSearch.ProductiveIsAffordable | libc-fantuan/src/regex_exec.c:125-133 | a pattern whose repetitions always move and whose bound is within the budget is affordable at every start |
| RegexSearch.RepeatedTestIsAffordable | libc-fantuan/src/regex_exec.c:125-133 | a repeated character, dot or class is affordable on subjects of every length |
| RegexSearch.DoomedIsUnreachable | libc-fantuan/src/regex_exec.c:125-133 | a doomed pattern is found at no start, with no budget |
| RegexSearch.EmptyRepetitionNeverFound | libc-fantuan/src/regex_exec.c:125-133 | an unbounded repetition of something that matches the empty string everywhere matches everywhere and is found nowhere |
| RegexSearch.LoopingMissesItsMatch | libc-fantuan/src/regex_exec.c:125-133 | `(a*)*` matches at every place of every subject and every attempt at it fails |
| RegexSearch.Report | libc-fantuan/src/regex_exec.c:134-143 | the caller is told the slots of each group, and -1 for groups unset or beyond the pattern's |
| RegexSearch.Regexec | libc-fantuan/src/regex_exec.c:104-149 | reports the leftmost start at which the tree matches affordably, with the spans of the preferred match and of the group bodies in it; reports nothing if and only if there is no such start |
| RegexLaws.CharMeans | libc-fantuan/src/regex_exec.c:30-49 | an ordinary character matches exactly its byte, or without regard to case exactly the two cases of its letter |
| RegexLaws.AnyMeans | libc-fantuan/src/regex_exec.c:50-56 | a dot matches any one byte, but no newline when lines are told apart |
| RegexLaws.ClassMeans | libc-fantuan/src/regex_exec.c:57-63 | a bracket expression matches the bytes of its set |
| RegexLaws.AnchorsMean | libc-fantuan/src/regex_exec.c:64-75 | an anchor holds at its end of the subject unless the flag denies it, and inside exactly next to a newline when lines are told apart |
| RegexLaws.RunMeans | libc-fantuan/src/regex_exec.c:38-102 | a repeated one-byte test matches exactly the stretches of bytes that pass, of a length within the bounds |
| RegexLaws.CaseLaw | libc-fantuan/src/regex_exec.c:30-36 | without regard to case, what a search finds, and its preferred match with all captures, does not depend on the case of the subject or of the pattern |
| RegexLaws.MirrorLaw | libc-fantuan/src/regex_exec.c:43-75 | a tree matches a span if and only if the tree read backwards, with the anchors and their flags exchanged, matches the mirror image of the span |
| RegexLaws.LineLaw | libc-fantuan/src/regex_exec.c:64-75 | when lines are told apart, everything from the place after a newline on matches as if the subject began there |
| RegexLaws.LeftFirst | libc-fantuan/src/regex_exec.c:85-90 | the preferred match of an alternation is that of its left side wherever the left side matches, and else that of the right |
| RegexLaws.LongestRun | libc-fantuan/src/regex_exec.c:85-90 | the preferred match of a repeated one-byte test is the longest run of bytes that pass |
| RegexLaws.GroupHolds | libc-fantuan/src/regex_exec.c:76-84 | a group holds the span it matched last |
| RegexLaws.AlwaysReported | libc-fantuan/src/regex_exec.c:76-84 | a group that every way through the pattern passes is set in the preferred match |
| RegexParse.NumberedGroups | libc-fantuan/src/regex_parse.c:81-94 | groups numbered as they close have the numbers 1 to their count, none twice |
| RegexParse.Parser.ParseAtom | libc-fantuan/src/regex_parse.c:63-139 | one atom: the tree is built from, and spelled by, exactly the text passed |
| RegexParse.Parser.ParseGroup | libc-fantuan/src/regex_parse.c:67-95 | a group gets its number when it closes, and there are at most eight |
| RegexParse.Parser.ParseRep | libc-fantuan/src/regex_parse.c:141-199 | an atom takes every repetition operator that follows it; a repetition spelled here is what is built |
| RegexParse.Parser.ParseCat | libc-fantuan/src/regex_parse.c:201-233 | concatenation, to the left, up to a bar, a closing parenthesis or the end |
| RegexParse.Parser.ParseAlt | libc-fantuan/src/regex_parse.c:235-262 | alternation, to the left |
| RegexParse.Parser.Parse | libc-fantuan/src/regex_parse.c:264-294 | an accepted pattern is spelled by its tree from end to end, with groups and classes numbered in order; a text some tree spells is accepted with exactly that tree, given nodes enough and at most eight groups; the tree has a null child if and only if the text has an empty branch |
| RegexParse.Parser.OperatorText | libc-fantuan/src/regex_parse.c:148-168 | the texts `a*`, `a+` and `a?` spell zero or more, one or more, and at most one |
| RegexParse.Parser.BasicOperatorText | libc-fantuan/src/regex_parse.c:162-168 | in basic syntax the last two are escaped |
| RegexParse.Parser.TestText | libc-fantuan/src/regex_parse.c:114-125 | the texts of the dot and the anchors |
| RegexParse.Parser.GroupText | libc-fantuan/src/regex_parse.c:63-95 | the texts of alternation and grouping, in both syntaxes |
| RegexParse.Parser.HollowNode | libc-fantuan/src/regex_parse.c:201-262 | a left-to-right scan of the text finds exactly the null children of the tree it spells |
| RegexParse.EmptyGroup | libc-fantuan/src/regex_parse.c:67-95 | the extended pattern `()` is accepted with a null child |
| RegexParse.Regcomp | libc-fantuan/src/regex_compile.c:153-183 | a program produced is runnable: the code of a tree without null children that spells the pattern, in range, with distinct group numbers; a pattern spelled by such a tree is refused only if the code array cannot grow |
| Bitmaps.Bitmap.Set | kernel-core/src/frame.rs:148-165 | sets one bit and no other |
| Bitmaps.Bitmap.Clear | kernel-core/src/frame.rs:148-165 | clears one bit and no other |
| FrameAllocator.Allocator.constructor | kernel-core/src/frame.rs:67-120 | a frame is free after set-up if and only if a usable region makes it so and no hole touches it; the free count is right |
| FrameAllocator.HolesStayReserved | kernel-core/src/frame.rs:67-139 | no byte of a reserved range from 1 MiB to 4 GiB lies in a free frame |
| FrameAllocator.FreeComesFromUsable | kernel-core/src/frame.rs:67-139 | every free frame holds a byte of a usable region, none below 1 MiB |
| FrameAllocator.FreeExactly | kernel-core/src/frame.rs:67-139 | a frame is free after set-up if and only if it holds an address of a usable region from 1 MiB to 4 GiB and no hole reaches into it |
| FrameAllocator.Allocator.MarkRange | kernel-core/src/frame.rs:122-139 | exactly the frames a range touches are marked |
| FrameAllocator.Allocator.Alloc | kernel-core/src/frame.rs:148-165 | takes the first free frame from the cursor on, cyclically; both bitmaps, the count and the cursor follow; there is none if and only if no frame is free |
| FrameAllocator.Allocator.Free | kernel-core/src/frame.rs:175-190 | gives back an owned frame; a foreign or double free changes nothing |
| FrameAllocator.Allocator.Reclaim | kernel-core/src/frame.rs:201-215 | frees a reserved frame; any other is left alone |
| FrameAllocator.Allocator.AllocContiguous | kernel-core/src/frame.rs:228-244 | takes the lowest run from the cursor up, else the lowest below it; there is none if and only if no free run lies wholly on one side of the cursor |
| FrameAllocator.Allocator.ScanRun | kernel-core/src/frame.rs:246-279 | finds the lowest free run in a range, or there is none |
| FrameAllocator.StepEffect | kernel-core/src/frame.rs:148-279 | a call moves only the frames it hands out, gives back or reclaims |
| FrameAllocator.StepFrees | kernel-core/src/frame.rs:148-279 | which frames are free after a call: those that were and were not handed out, an owned frame given back, a reserved frame reclaimed, and no other |
| FrameAllocator.GivenBackComesLast | kernel-core/src/frame.rs:148-190 | a frame given back at once is handed out again by the next call if and only if no other is free |
| FrameAllocator.NearestAfterRun | kernel-core/src/frame.rs:228-279 | after a run was handed out, the next single frame is the nearest free one after the run, round the end |
| FrameAllocator.RunStaysSound | kernel-core/src/frame.rs:148-279 | from a state in which free, owned and reserved partition the frames, every run keeps them so |
| FrameAllocator.ReservedNeverHanded | kernel-core/src/frame.rs:148-279 | over every run a reserved frame is not handed out before it is reclaimed |
| FrameAllocator.NoDoubleHandOut | kernel-core/src/frame.rs:148-279 | over every run a frame handed out twice was given back in between |
| Paging.WalkIsFlat | kernel-riscv/src/paging.rs:155-193 | for user addresses the hardware walk of the tree is a look-up in the flat map |
| Paging.MapRefinesFlat | kernel-riscv/src/paging.rs:179-193 | after one map the page's walk gives the new entry and every other user page's walk is as before |
| Paging.RunRefinesFlat | kernel-riscv/src/paging.rs:155-193 | after any run of maps the walk of every user address gives the last map of its page, or what it gave at the start |
| Paging.RunStaysApart | kernel-riscv/src/paging.rs:155-193 | after any run root entries 256 to 511 equal the kernel's and the kernel's root is none of the tables |
| Paging.Sv39.UserTable | kernel-riscv/src/paging.rs:155-166 | the table is there already, or a free frame is zeroed and hung in place and nothing else changes |
| Paging.Sv39.MapUserPage | kernel-riscv/src/paging.rs:179-193 | for every address the tables its indices lead to are found or hung and the entry is written; in the user half of a tree the flat map gains exactly this entry, new tables come from the free frames and nothing outside the tree changes |
| Paging.WordsWritten | kernel-riscv/src/paging.rs:155-193 | the words written, bit by bit: V for a table; V, R, U, A, D and the rights asked for a page |
| Paging.UserRights | kernel-riscv/src/paging.rs:179-193 | user mode may read a page it is given, and may write or execute it if and only if that was asked; a table entry is no page |
| Paging.HighMapIsTheKernels | kernel-riscv/src/paging.rs:155-193 | an address above the user half with a valid kernel entry is mapped in the kernel's own table: the kernel's root now translates it, and a table outside the tree has changed |
| Paging.Sv39.NewUserRoot | kernel-riscv/src/paging.rs:168-176 | a free frame becomes a root that maps nothing below and has the kernel's half above |
| Paging.Sv39.FreeUserRoot | kernel-riscv/src/paging.rs:197-225 | releases exactly the frames met in the user half, and the root |
| Paging.MeetsItsFrames | kernel-riscv/src/paging.rs:197-225 | the frames met are exactly the tables and leaves of the tree |
| Paging.TeardownRestores | kernel-riscv/src/paging.rs:168-225 | tearing down what was built leaves both bitmaps as they were |
| Paging.EarlyFreesDoNotMatter | kernel-riscv/src/task.rs:214-221 | frames freed before the teardown that meets them again are given back once |
| Spawn.Load | kernel-core/src/elf.rs:115-258 | for an image of separate user pages: on success exactly these are mapped, with their rights, each to a frame of its own; a failed load has given nothing back |
| Spawn.FailedLoadKeeps | kernel-core/src/elf.rs:167-233 | a load that failed after taking the root has not restored the bitmaps |
| Spawn.OverlayLeaves | kernel-riscv/src/task.rs:204-212 | mapping the stack over the image keeps every frame of the tree but those of the pages it covers |
| Spawn.StackAccounted | kernel-riscv/src/task.rs:197-212 | what was taken is the tree's frames and the displaced ones, which are apart |
| Spawn.UnwindGivesBack | kernel-riscv/src/task.rs:214-221 | freeing the stack by hand and then the tree gives back all but the displaced frames, each once |
| Spawn.NothingDisplaced | kernel-riscv/src/task.rs:204-212 | nothing is displaced if and only if the image stays clear of the stack |
| Spawn.SeesItsPages | kernel-riscv/src/task.rs:185-247 | stack addresses reach the stack's frames, image addresses the frame of their page with the image's rights, other user addresses fault |
| Spawn.StackSeen | kernel-riscv/src/task.rs:197-212 | addresses from 0x300000 to 0x303FFF reach the frames of the stack in order; user mode may read and write them and not execute them |
| Spawn.StaysUndisturbed | kernel-riscv/src/task.rs:197-221 | no frame of the image is taken for a table or a stack afterwards |
| Spawn.SpawnUser | kernel-riscv/src/task.rs:185-247 | for an image of separate user pages, every way out: both bitmaps restored without a user stack; without a kernel stack restored if and only if the image is clear of the stack; after a failed load if and only if the header was at fault; on success the exact frames spent, what the new task sees, that its image's frames serve nothing else, and the kernel half; it fails only for a bad file, because no frame was left, or because no four free frames in a row were left on either side of the cursor |
| Spawn.StackOverImage | kernel-riscv/src/task.rs:204-212 | an image with a page at 0x300000 is accepted and its frame is displaced |
| ElfFormat.HeaderRoundTrip | kernel-core/src/elf.rs:61-87 | a file header laid out as the System V ABI says passes the checks and is read back, for both classes |
| ElfFormat.PhdrRoundTrip | kernel-core/src/elf.rs:91-111 | a program header laid out as the ABI says is read back, for both classes |
| ElfFormat.OnlyHeadersPass | kernel-core/src/elf.rs:115-142 | a file whose header passes begins with exactly such a header for the right machine, and it is the one read |
| ElfImage.PagesFromAre | kernel-core/src/elf.rs:212-223 | the walk reaches exactly the pages some segment covers |
| ElfImage.PagesFromOnce | kernel-core/src/elf.rs:212-223 | and none twice |
| ElfImage.SegmentsInside | kernel-core/src/elf.rs:180-210 | every segment that passes fits the user half and the file, and there are at most 16 |
| ElfMeaning.TableExactly | kernel-core/src/elf.rs:148-165 | the program-header table is accepted if and only if its entries are large enough, there is one, all lie in the file and the entry point is in the user half |
| ElfMeaning.AcceptedExactly | kernel-core/src/elf.rs:180-210 | the segments are accepted if and only if there are at most 16 loadable headers and each has its memory in the user half, its bytes in the file and no more bytes than memory |
| ElfMeaning.OnPageExactly | kernel-core/src/elf.rs:176-179 | a header is on a page if and only if one of its addresses is; one without memory, if it points into the middle of the page |
| ElfMeaning.RightsAsked | kernel-core/src/elf.rs:201-229 | a page with the rights of its segments is writable if and only if some loadable header on it has bit 1 of its flags word set, and executable if and only if some has bit 0 set |
| ElfMeaning.BytesAsked | kernel-core/src/elf.rs:234-250 | a byte of the image is that of the last loadable header with a file byte for its address, or zero if there is none |
| ElfLoader.Union | kernel-core/src/user.rs:21-28 | writable if either is, executable if either is |
| ElfLoader.Loader.Collect | kernel-core/src/elf.rs:180-210 | the loadable segments in order, or a refusal |
| ElfLoader.Loader.Merge | kernel-core/src/elf.rs:224-229 | the page is writable or executable if and only if some segment on it is |
| ElfLoader.Loader.Fill | kernel-core/src/elf.rs:234-250 | each byte of the page is that of the last segment whose file bytes reach it, or zero |
| ElfLoader.Loader.LoadFull | kernel-core/src/elf.rs:115-258 | succeeds if and only if the checks pass and there is a frame for every page; then exactly the pages that loadable headers are on are mapped, once, in walk order; each is writable or executable if and only if a header on it has the flag bit, and each byte is that of the last header with one; the entry and image end are right |
| ElfLoader.EndOfIs | kernel-core/src/elf.rs:212-255 | the image end is the least address above every page |
| ElfLoader.PagesAreAsked | kernel-core/src/elf.rs:212-255 | the pages walked are exactly those some loadable header is on, each once |
| ElfLoader.FaithfulAsAsked | kernel-core/src/elf.rs:201-250 | a page as its segments say is as the program headers ask, flag bit by flag bit and byte by byte |
| ElfLoader.AddressLoaded | kernel-core/src/elf.rs:212-255 | every address of every segment lies in exactly one mapped page, which holds its byte and has the rights of all segments on it |
| ElfLoader.OnlyCovered | kernel-core/src/elf.rs:212-255 | no page is mapped that no segment covers |
| ElfLoader.LastWins | kernel-core/src/elf.rs:234-250 | where segments overlap, the last file byte stays |
| SpawnElf.LoaderMapsListed | kernel-core/src/elf.rs:212-255 | what the loader mapped is the image that is spawned |
| SpawnElf.ListedIsSeparate | kernel-core/src/elf.rs:188-192 | the image can be mapped page by page if and only if every segment ends below 2^38 |
| SpawnElf.LoaderPours | kernel-core/src/elf.rs:234-251 | the loader leaves in each frame of its supply the bytes of the page it maps there |
| SpawnElf.SegmentReached | kernel-core/src/elf.rs:212-255 | an address of a segment off the stack walks to a frame that holds its byte, with the rights of all segments on its page |
| SpawnElf.ReachedServed | kernel-core/src/elf.rs:201-255 | such an address may be written or executed by user mode if and only if a loadable header on its page has the flag bit, and holds the byte of the last header with one |
| SpawnElf.SpawnFile | kernel-riscv/src/task.rs:185-247 | from a file whose segments end below 2^38: the account of spawning and why it fails; in a spawned task user mode may read every address of every loadable header off the stack, may write or execute it if and only if a header on its page has the flag bit, and finds there the byte the headers ask for |
| SpawnElf.HighFileAccepted | kernel-core/src/elf.rs:188-192 | a RISC-V file with a segment at 2^38 passes every check, and its page is not in the user half |
| SpawnElf.UserHalfIndex | kernel-riscv/src/paging.rs:187-188 | which addresses index the user half of the root |
| HeapBreak.Breaks.InitTask | kernel-core/src/brk.rs:22-30 | resets one slot and no other |
| HeapBreak.Breaks.CloneTask | kernel-core/src/brk.rs:32-39 | the child's slot is the parent's |
| HeapBreak.Breaks.Brk | kernel-core/src/brk.rs:41-73 | the page loop computes the break call as a whole: answer, slot and frames left, also when frames run out half-way |
| HeapBreak.FreshGood | kernel-core/src/brk.rs:22-30 | a new slot is in order if and only if rounding its base does not wrap, and where it then begins |
| HeapBreak.BreakKeepsGood | kernel-core/src/brk.rs:41-73 | a call keeps base, break and mapped end in order, with each page mapped exactly once, if and only if rounding does not wrap |
| HeapBreak.BreakExactly | kernel-core/src/brk.rs:41-73 | the break moves if and only if the address is not below the heap and there are frames up to it; frames are conserved, mapped pages stay, no more are added than needed, and the two errors are told apart |
| HeapBreak.LastAddressWraps | kernel-core/src/brk.rs:41-73 | asking for the last address succeeds at once and leaves the break past the mapped end |
| HeapBreak.HeapBytesMapped | kernel-core/src/brk.rs:41-73 | every byte below the break lies in a page mapped by exactly one call |
| HeapTiles.ReuseKeeps | libc-fantuan/src/malloc.c:77-89 | reusing a listed block keeps the partition and the sorted, coalesced list |
| HeapTiles.CarveKeeps | libc-fantuan/src/malloc.c:51-69 | so does carving a block off the arena |
| HeapTiles.NewChunkKeeps | libc-fantuan/src/malloc.c:51-69 | and beginning a new chunk |
| HeapTiles.ReleaseKeeps | libc-fantuan/src/malloc.c:93-117 | giving a block back keeps the partition, sorts it in and merges it with both neighbours |
| MallocSpec.MoveGranted | libc-fantuan/src/malloc.c:30-49 | the break moves if and only if the target is in range and there are frames for it |
| MallocSpec.MallocExact | libc-fantuan/src/malloc.c:71-91 | the heap stays partitioned, sorted, coalesced and backed by the break if and only if the request does not overrun, said of the state before the call |
| MallocSpec.MallocGains | libc-fantuan/src/malloc.c:71-91 | such a request yields null or one new live block |
| MallocSpec.MallocGives | libc-fantuan/src/malloc.c:71-91 | the block has room for the request if and only if aligning does not wrap |
| MallocSpec.MallocNull | libc-fantuan/src/malloc.c:30-91 | the answer is null if and only if no listed block is large enough, the chunk has no room and the kernel does not grant another |
| MallocSpec.FirstMalloc | libc-fantuan/src/malloc.c:30-91 | the first request of a process takes 17 pages and is answered 16 bytes above the heap base, or null with fewer frames |
| MallocSpec.HugeRequestOverruns | libc-fantuan/src/malloc.c:51-69 | a request whose header wraps overruns a new heap |
| MallocSpec.ReallocGrows | libc-fantuan/src/malloc.c:133-153 | a growing block is traded for a new one, or kept if that is refused |
| MallocSpec.ReallocExactly | libc-fantuan/src/malloc.c:133-153 | resizing to nothing frees the block; a block with room is answered as it is and nothing changes; one without gives way to a new block with room, or is kept and the answer is null if and only if malloc has none |
| MallocSpec.RunKeeps | libc-fantuan/src/malloc.c:51-153 | over every run of malloc, free and realloc the heap stays partitioned, sorted, coalesced and backed |
| MallocSpec.LiveBytesMapped | libc-fantuan/src/malloc.c:30-69 | each byte of a live block lies in that block alone and in a page the kernel mapped exactly once |
| MallocSpec.HeapOfProcess | libc-fantuan/src/malloc.c:30-153 | from the start of a process, after any run: live blocks are disjoint, aligned and mapped |
| Malloc.UserHeap.Sbrk | libc-fantuan/src/malloc.c:30-49 | the break call and the heap top move together or not at all |
| Malloc.UserHeap.Bump | libc-fantuan/src/malloc.c:51-69 | computes the bump step and writes the header |
| Malloc.UserHeap.FindFit | libc-fantuan/src/malloc.c:77-89 | the list walk stops at the first block that is large enough |
| Malloc.UserHeap.Malloc | libc-fantuan/src/malloc.c:71-91 | on linked headers computes the step on tiles; the answer is null if and only if no listed block fits, the chunk has no room and the kernel grants none, and else one new live block; the layout stays valid if and only if the request does not overrun; no byte of a live block changes |
| Malloc.UserHeap.Free | libc-fantuan/src/malloc.c:93-117 | on linked headers gives the block back and merges; no byte of another live block changes |
| Malloc.UserHeap.Realloc | libc-fantuan/src/malloc.c:133-153 | a block with room is answered as it is, with memory and heap unchanged; size 0 frees it and answers null; a growing block keeps all its bytes in a new one, or is kept with its bytes if and only if there is none, and then the answer is null; no other live block changes |
| NvmeProtocol.StepKeeps | drivers/c/nvme.c:46-92 | every step of host or controller keeps the invariant of both rings, with tags and wraps |
| NvmeProtocol.ConsumedIsIssued | drivers/c/nvme.c:46-92 | for every depth and interleaving the completion consumed is for the command issued as many commands ago as were given up on, so for the last one if and only if none was |
| NvmeProtocol.SeenIsPosted | drivers/c/nvme.c:76-90 | the poll sees an entry if and only if one is there to consume, and it is the oldest |
| NvmeProtocol.ControllerCanStep | drivers/c/nvme.c:46-92 | while the host waits in vain the controller can take a step |
| NvmeProtocol.StaleCompletion | drivers/c/nvme.c:76-92 | the shortest run with a wrong match |
| NvmeDriver.CommandMeans | drivers/c/nvme_io.c:84-111 | the dwords name the sectors and the direction meant |
| NvmeDriver.ActKeeps | drivers/c/nvme.c:46-92 | whatever the controller does, a clean status means the command was carried out once |
| NvmeDriver.ObligedClean | drivers/c/nvme.c:46-92 | if the controller fetches the command and then carries it out before failing it, a completion with status 0 is there, whatever else it does |
| NvmeDriver.PolledExactly | drivers/c/nvme.c:76-85 | polling ends in vain if and only if nothing was posted by the last of 5001 polls |
| NvmeDriver.PromptSeen | drivers/c/nvme.c:76-85 | a command carried out in time for any of the 5001 polls is seen, with status 0 |
| NvmeDriver.Nvme.constructor | drivers/c/nvme.c:158-164 | the initial queue has at most four entries and satisfies the invariant |
| NvmeDriver.Nvme.Submit | drivers/c/nvme.c:46-92 | times out if and only if nothing was posted by the last of 5001 polls; otherwise the completion consumed is this command's, the answer is 0 if and only if its status is, and then the command was carried out exactly once; a command on the disk that the controller carries out in time is answered 0; a timeout leaves one command given up on and a queue of more than two entries in order |
| NvmeDriver.Nvme.Rw | drivers/c/nvme_io.c:84-111 | success means exactly the sectors asked for were moved, in order, and nothing else was; a transfer that lies on the disk succeeds if the controller carries out each chunk in time |
| Scheduler.ReapedSound | kernel-core/src/task.rs:358-386 | reaping frees the stacks of the tasks it removes, no other, and never the running one's |
| Scheduler.ReapedExactly | kernel-core/src/task.rs:358-386 | after reaping a slot is unused if and only if it was, or held a zombie that is not running and whose status was consumed; every other slot is equal; a stack is released if and only if it was that of such a slot |
| Scheduler.ScheduledExactly | kernel-core/src/task.rs:257-294 | what `schedule` makes of each slot, and that the turn goes to the first slot round the table that may run |
| Scheduler.ZombieKept | kernel-core/src/task.rs:257-386 | over every run a zombie whose status is not consumed keeps its slot, id, stack and exit code |
| Scheduler.ExitCodeKept | kernel-core/src/task.rs:257-386 | the code a task exits with is in its slot from the next switch on, until the status is consumed |
| Scheduler.SleepHandsOver | kernel-core/src/task.rs:296-303 | a task that goes to sleep while another may run hands over and is asleep until its tick, otherwise unchanged |
| Scheduler.SlotComesBack | kernel-core/src/task.rs:191-386 | after `schedule` with a zombie to reap that is not running, registering a task succeeds |
| Scheduler.RunSound | kernel-core/src/task.rs:191-386 | over every run the running task keeps its slot and its stack, live tasks have their own ids and stacks, and no stack leaks |
| Scheduler.BoundedWait | kernel-core/src/task.rs:257-294 | a ready task waits for fewer calls of `schedule` than its cyclic distance, at most 15, whatever the others do |
| Scheduler.SleeperWait | kernel-core/src/task.rs:257-294 | so does a sleeper from the first call at or after its deadline on |
| Scheduler.NotEarly | kernel-core/src/task.rs:257-303 | and it does not run before |
| Scheduler.WakeTick | kernel-core/src/task.rs:296-303 | the deadline is at least a tick ahead and less than a tick short of the time asked for |
| Scheduler.NobodyReady | kernel-core/src/task.rs:257-294 | a task that is not ready is left running if and only if no slot may run |
| Scheduler.LoneSleeperRuns | kernel-core/src/task.rs:257-303 | a task that is alone and goes to sleep is still the running one |
| Scheduler.Table.Register | kernel-core/src/task.rs:191-212 | takes an unused slot and the next id and changes nothing else; fails if and only if no slot is unused, and then changes nothing |
| Scheduler.Table.ReapExited | kernel-core/src/task.rs:358-386 | empties exactly the slots of zombies that are not running and whose status was consumed, releases exactly their stacks, and leaves the other slots as they are |
| Scheduler.Table.Schedule | kernel-core/src/task.rs:257-294 | reaps, wakes and picks: what becomes of every slot, and that the turn goes to the first slot round the table that may run, or stays if there is none |
| Scheduler.Table.SleepMs | kernel-core/src/task.rs:296-303 | the running task sleeps until its tick and the next is picked |
| Scheduler.Table.ExitWith | kernel-core/src/task.rs:315-335 | the running task becomes a zombie with its status |
| Calendar.DaysOfCivil | libc-fantuan/src/time.c:101-125 | the date of a day number has that day number, for all integers |
| Calendar.CivilOfDays | libc-fantuan/src/time.c:101-125 | the day number of a valid date gives the date back |
| Calendar.CivilValid | libc-fantuan/src/time.c:111-125 | every day number gives a date of the Gregorian calendar |
| Calendar.NextDay | libc-fantuan/src/time.c:111-125 | consecutive day numbers give consecutive dates |
| Calendar.EpochIs | libc-fantuan/src/time.c:111-125 | day 0 is 1 January 1970 |
| TimeLib.Storage.FillTm | libc-fantuan/src/time.c:127-148 | fills in the broken-down time of a second count of any sign |
| TimeLib.FieldsAre | libc-fantuan/src/time.c:127-148 | every field is in range and right (date, ordinal day, weekday, time of day) if and only if the year less 1900 fits an `int` |
| TimeLib.YearBegins | libc-fantuan/src/time.c:101-125 | a day falls in a year or a later one if and only if it is not before that year's first of January |
| TimeLib.MkTimeOfBrokenDown | libc-fantuan/src/time.c:127-166 | a time comes back from its broken-down form if and only if it lies between the first second of year INT_MIN and the last of year INT_MAX |
| TimeLib.FirstLostSecond | libc-fantuan/src/time.c:127-166 | the second after comes back as the first of these |
| Sha256Spec.AbsorbSplit | kernel-core/src/sha256.rs:35-59 | whole blocks may be absorbed in parts |
| Sha256Spec.PaddedBlocks | kernel-core/src/sha256.rs:61-73 | the padding of section 5.1.1 of FIPS 180-4 fills whole blocks |
| Sha256Constants.RoundConstants | kernel-core/src/sha256.rs:6-17 | each round constant is the first 32 bits of the fraction of the cube root of its prime |
| Sha256Constants.InitialWords | kernel-core/src/sha256.rs:19-21 | the initial words are those of the square roots of the first eight primes |
| Sha256Constants.ChChooses | kernel-core/src/sha256.rs:75-118 | Ch is y where x has a one and z where it has a zero |
| Sha256Constants.MajIsMajority | kernel-core/src/sha256.rs:75-118 | Maj is what two of the three have, bit by bit |
| Sha256Vector.HashOfAbc | kernel-core/src/sha256.rs:75-118 | the hash of "abc" is the one given with the standard, by way of all 64 words and rounds |
| Sha256.Sha256.CompressBlock | kernel-core/src/sha256.rs:75-118 | the round loops compute the compression of section 6.2.2 of FIPS 180-4 |
| Sha256.Sha256.Update | kernel-core/src/sha256.rs:35-59 | the message absorbed is the old one followed by the data, however it was buffered |
| Sha256.Sha256.Finish | kernel-core/src/sha256.rs:61-73 | for every message under 2^61 bytes and every way of splitting it the digest is its hash; the padding loop ends |
| Utf8.DecodeLoop | libc-fantuan/src/wchar.c:24-57 | the loop computes the decoder's function |
| Utf8.EncodeTotal | libc-fantuan/src/wchar.c:86-123 | exactly the Unicode scalar values have an encoding |
| Utf8.SurrogateDecoded | libc-fantuan/src/wchar.c:24-57 | the first surrogate is decoded and not encoded |
| Utf8.DecodeIsRfc | libc-fantuan/src/wchar.c:24-57 | the decoder accepts what the grammar of section 4 of RFC 3629 does, and surrogates besides |
| Utf8.ShortExactly | libc-fantuan/src/wchar.c:24-57 | more bytes are asked for if and only if the lead byte announces more than there are |
| Utf8.DecodeEncoded | libc-fantuan/src/wchar.c:86-123 | an encoded character is decoded, whatever follows it |
| Utf8.EncodeDecoded | libc-fantuan/src/wchar.c:86-123 | a decoded character encodes to its bytes, unless it is a surrogate |
| Utf8.MbsRToWcs | libc-fantuan/src/wchar_conv.c:21-53 | converts character by character up to the limit, or refuses; what is stored, the null included, and when `*src` becomes null |
| Utf8.WcsRToMbs | libc-fantuan/src/wchar_conv.c:55-85 | converts until the next character would exceed the limit, or refuses; what is stored, the null included, and when `*src` becomes null |
| Utf8.DecodeLimit | libc-fantuan/src/wchar_conv.c:21-53 | the count stays within the limit if and only if the limit is not 0 or the string is empty |
| Utf8.EncodeLimit | libc-fantuan/src/wchar_conv.c:55-85 | likewise |
| Utf8.DecodeFirst | libc-fantuan/src/wchar_conv.c:21-53 | with a limit, the characters are the first so many of the whole string |
| Utf8.EncodeMost | libc-fantuan/src/wchar_conv.c:55-85 | with a limit, as many characters are encoded as fit, and the next would not |
| Utf8.StoredWithin | libc-fantuan/src/wchar_conv.c:21-53 | what is stored stays within a limit if and only if the string does not have exactly that many characters |
| Utf8.StoredBytesWithin | libc-fantuan/src/wchar_conv.c:55-85 | likewise for bytes |
| Utf8.OneTooMany | libc-fantuan/src/wchar_conv.c:21-53 | one character with a limit of 1 stores two |
| Utf8.WideRoundTrip | libc-fantuan/src/wchar_conv.c:21-85 | a string of nonzero scalar values comes back |
| Utf8.ByteRoundTrip | libc-fantuan/src/wchar_conv.c:21-85 | a byte string that decodes re-encodes to itself if and only if it holds no surrogate |
| Signals.Task.DeliverCurrent | kernel-core/src/signal.rs:35-100 | builds the frame and enters the handler, or says how the signal ends |
| Signals.Task.SigReturn | kernel-core/src/signal.rs:102-133 | reads the frame back and continues, or dies |
| Signals.DeliverPushes | kernel-core/src/signal.rs:57-97 | the frame lies strictly below the interrupted stack pointer, the handler is entered with its stack 8 off 16, and nothing from the stack pointer up is written |
| Signals.DeliverDecides | kernel-core/src/signal.rs:35-100 | when a signal is dropped, when a handler is entered (if and only if there is one, it can return and its frame can be written), and with which signal the process ends otherwise |
| Signals.FrameLayout | kernel-core/src/signal.rs:57-97 | where in the frame each register, the signal and the mask are |
| Signals.HandlerSpNear | kernel-core/src/signal.rs:57-97 | the handler's stack begins no further down than the frame, the return address and the alignment take |
| Signals.ReturnDecides | kernel-core/src/signal.rs:102-133 | returning succeeds if and only if the frame can be read, and changes no memory |
| Signals.HandlerBlocks | kernel-core/src/signal.rs:57-97 | while it runs, blocked are what was blocked, the signal itself and the action's mask, and never SIGKILL |
| Signals.ReturnRestores | kernel-core/src/signal.rs:102-133 | if the frame is still there every register and the mask come back |
| Signals.RunUnwinds | kernel-core/src/signal.rs:57-133 | however deep the nesting, nothing at or above a handler's frame changes |
| Signals.HandledUnwinds | kernel-core/src/signal.rs:57-133 | after a signal taken and returned from, nesting included, the process is as it was except below its stack pointer |
| Tty.Terminal.Feed | kernel-core/src/tty.rs:140-222 | one byte is one step of the editing function; nothing is dropped |
| Tty.Terminal.CompleteLine | kernel-core/src/tty.rs:128-137 | the whole line becomes pending |
| Tty.Terminal.Read | kernel-core/src/tty.rs:226-259 | what all reads delivered, with what is pending, is the editing function of every byte polled; an answer is short only if nothing more is complete; a read waits, and polls again, only if nothing is; end of file is reported once per mark |
| Tty.EraseUndoes | kernel-core/src/tty.rs:140-222 | erase undoes a plain character if and only if the line had room for it |
| Tty.SignalKeys | kernel-core/src/tty.rs:140-222 | with signals on, interrupt, quit and suspend discard the line |
| Tty.EraseKeys | kernel-core/src/tty.rs:140-222 | erase and backspace take the last character off, if there is one |
| Tty.KillUndoes | kernel-core/src/tty.rs:140-222 | kill undoes a line of plain characters of any length |
| Tty.EofKey | kernel-core/src/tty.rs:140-222 | end of file hands over an unfinished line without a newline, and counts on an empty one |
| Tty.NewlineKeys | kernel-core/src/tty.rs:140-222 | a newline, or a carriage return that stands for one, completes the line |
| Tty.OtherKeys | kernel-core/src/tty.rs:140-222 | any other byte is typed while the line has room, except the flow-control ones |
| Tty.DefaultKeys | kernel-core/src/tty.rs:75-88 | the keys of a terminal nobody has set up |
| Tty.PlainLine | kernel-core/src/tty.rs:140-222 | a line of up to 256 plain characters comes out as typed |
| Tty.OutGrows | kernel-core/src/tty.rs:140-222 | what has come out is never taken back |

## Left out

- Bracket expressions and intervals of regular expressions (`regex_class.c`): a class is an arbitrary set of bytes, and where its text ends is a parameter.
- Leftmost-longest matching and back-references: the engine does not offer them.
- RegexParse.Parser.Parse: when the allocation of an unchecked leaf node fails, only the shape of the tree is claimed, not its text.
- RegexLaws.CaseLaw: bracket expressions are taken to hold both cases of their letters, as `regex_class.c` fills them in when case is ignored.
- RegexSearch.Regexec: null arguments, which the code refuses at once.
- Spawn.SpawnUser: of images with a page at or above 2^38 only the allocator's own invariant is claimed; `SpawnElf.ListedIsSeparate` says exactly which files those are. Registering a new task and writing its initial frame are not modelled.
- Spawn.Load: a page table that cannot be allocated is a kernel panic, after which nothing is claimed of the frames.
- ElfLoader.Loader.LoadFull: the frames that page tables take are accounted for in `Spawn`, not here.
- The other architectures' page tables.
- Malloc.UserHeap.Realloc: requests that overrun, or that align to zero, are excluded when a new block is needed; `MallocSpec.MallocExact` says what they do.
- `calloc` and `posix_memalign`: thin layers over `malloc`.
- NvmeDriver.Nvme.Submit: after a timeout nothing is claimed of the medium. Controllers that complete out of order are not modelled.
- NVMe admin commands, identification and SMART logs: the same queue with other opcodes.
- Scheduler: fork, exec and the switch itself.
- Signals: the order in which pending signals are dequeued, and `sigaction`, `sigprocmask` and `sigsuspend`.
- Tty.Terminal.Read: settings are fixed, and raw mode and echo are not modelled.
- Sha256.Sha256.Finish: nothing is claimed for messages of 2^61 bytes or more.
- Locks, interrupt flags, memory barriers and TLB flushes.
- The file systems, the network, graphics, other drivers and the rest of the C library: not part of this model.
