# Course-assignment cores: shell pipelines, a free-list heap, a page-table walk, a word-count list

This project models four small sequential cores of a set of operating-systems
course assignments and proves properties of them in Dafny.

- **The shell's pipeline bookkeeping** (`hw3/shell.c`)
  - A line is split into `|`-separated stages the way `strtok_r` does it, into a stage array that doubles when full.
  - `n - 1` pipes are made into the descriptor array `fd`, and each stage gets its input/output pair from the `cur_read` arithmetic of `main`.
  - `lookup` searches the builtin table.
  - `run_cmd` saves and restores descriptors 0 and 1 around a builtin. On the external path it closes, in the shell, the descriptors it handed to the child.
  - The child classifies a trailing `> path` / `< path` and builds the argument vector.
  - `run_program` tries the program name verbatim and then each `PATH` directory in order.
  - Descriptors are an abstract table (class `Descriptors.FdTable`) from descriptor numbers to open file descriptions, so dup, dup2, close and pipe have their POSIX meaning over it.
- **The free-list allocator** (`hw5/mm_alloc.c`). The list of `struct meta` headers is a sequence of blocks in list order, each with its address, recorded size, free flag and stored `prev` link. Content bytes are a function from addresses to bytes. `sbrk` moves a break up to a fixed limit. Class `Alloc.Heap` holds this state and has a method per C function:
  - `split`, `merge` and `mm_free`;
  - `mm_malloc`, with its reuse and grow branches;
  - `mm_realloc`, with its free-then-malloc-then-memcpy branch;
  - `mm_size`.

  Each method is proved equal to a specification function on values (`SplitAt`, `MergeAt`, `FreeAt`, `AllocSpec`, `ReallocSpec`). Lemmas about those functions state:
  - byte conservation;
  - first-fit choice;
  - coalescing;
  - well-formedness of the list.
- **The MMU's page walk** (`hw6/hw6-pt-starter/src/mmu.c`). This is three-level translation of 32-bit virtual addresses as in PAE paging (section 4.4 of the Intel 64 and IA-32 Architectures Software Developer's Manual, Volume 3A), with 8-byte entries. Physical memory is a value giving the entry and the byte that `ram_fetch` reads at each physical address. `str_from_virt` is a loop that copies bytes into a doubling buffer until the first NUL.
- **The word-count list** (`hw2/word_count_p.c`). The list is a sequence of `(word, count)` entries in list order, held by class `WordCount.WordCountList`, and an entry pointer is its index. It has find, add (increment in place or push to the front), length, sort by a caller's comparison, and printing of one `"%8d\t%s\n"` line per entry.

When no `PATH` candidate can be executed, `run_program` returns without reporting anything (`hw3/shell.c:95-107`); `RunProgram` returns the candidates tried and no success.

## Model

| member | source | states |
|---|---|---|
| StrTok.NextToken | hw3/shell.c:287 | one strtok call: nothing is left exactly when only delimiters remain; otherwise a non-empty, delimiter-free field and a strictly shorter remainder |
| StrTok.LeadingDelims | hw3/shell.c:287 | the number of delimiters the text starts with: all of those are delimiters and the next character is not |
| StrTok.NextTokenAt | hw3/shell.c:287 | where the field lies: it starts right after the leading delimiters, ends at the next delimiter (which is consumed, the rest being exactly what follows it) or at the end of the text, where the rest is empty |
| StrTok.FieldsConcat | hw3/shell.c:287 | strtok splitting loses exactly the delimiters: the fields joined give the input with every delimiter removed |
| StrTok.FieldsWellFormed | hw3/shell.c:287 | every field is non-empty and contains no delimiter (empty segments between delimiters are skipped) |
| StrTok.FieldsJoin | hw3/shell.c:287 | on text with no delimiter at either end and none doubled, joining the fields with one delimiter between each two gives the text back: every delimiter ends a field |
| StrTok.NextField | hw3/shell.c:287-295 | a strtok loop that has handed out k fields gets field k from its next call, and the fields after it are exactly what remains |
| StrTok.SingleField | hw3/shell.c:287 | a text without the delimiter is one field, the text itself: a line with no `\|` is a single stage |
| StrTok.LastCharGivesField | hw3/shell.c:279-287 | a text whose last character is not the delimiter yields at least one field |
| Buffers.Grow | hw3/shell.c:289-292 | the doubling realloc: a fresh array of twice the length whose first half holds the old contents, a power of two if the old length was |
| Builtins.Lookup | hw3/shell.c:80-85 | the index of the first table entry named cmd, or -1 exactly when cmd is NULL or names no builtin; always in [-1, 4) |
| Builtins.NamesDistinct | hw3/shell.c:46-51 | the four builtin names are pairwise distinct, so lookup's first match is the only one |
| Redirect.Classify | hw3/shell.c:165-176 | output redirection exactly when there are more than two tokens and the second-to-last is `>`, input exactly when it is `<` (so never both); the path is the last token and the argument count drops by exactly 2; otherwise all tokens are arguments |
| Redirect.ClassifyRejoin | hw3/shell.c:165-189 | the argument tokens followed by the redirection's two tokens give back the stage's token list |
| Redirect.RejoinClassify | hw3/shell.c:165-176 | conversely, arguments followed by a redirection suffix classify back to that redirection and argument count |
| Redirect.BuildArgv | hw3/shell.c:197-201 | the argument vector has len + 1 slots: the first len tokens in order, then the NULL terminator |
| Redirect.TerminatorOutOfBounds | hw3/shell.c:197-201 | the array as declared, with len slots, has no slot for the terminator written at index len |
| ProgramPath.Candidates | hw3/shell.c:95-107 | the paths run_program tries, in order: the name verbatim first, then one per non-empty `PATH` field, that field, `/` and the name, so one more than the fields |
| ProgramPath.Joined | hw3/shell.c:100-102 | each built candidate is a PATH directory, then `/`, then the program name, one per directory in order |
| ProgramPath.RunProgram | hw3/shell.c:95-109 | the candidates tried are a non-empty prefix of (name verbatim, then each non-empty PATH entry joined with the name); every try but the last failed; it reports success exactly when the last try ran, and tries them all when none runs |
| ProgramPath.CandidatesShape | hw3/shell.c:98-106 | every candidate after the first is a non-empty, colon-free directory joined with `/` and the name |
| ProgramPath.NoPathEntries | hw3/shell.c:95-107 | a PATH of nothing but colons leaves the name verbatim as the only candidate |
| Pipeline.SplitLine | hw3/shell.c:281-295 | the stage count is the number of `\|`-fields of the line; stage i holds the tokens of field i; the array length is a power of two, 1 for no stage and less than twice the count otherwise, so it doubled only when full |
| Pipeline.Push | hw3/shell.c:289-294 | appending one stage: the array doubles exactly when it is full, and the stages so far stay in front of the new one |
| Pipeline.LineHasStage | hw3/shell.c:279-287 | a line read by fgets, ending in a newline, has at least one stage |
| Pipeline.EachEndOnce | hw3/shell.c:298-311 | with n stages, each of the 2(n-1) pipe ends is handed to exactly one stage, read ends only as inputs and write ends only as outputs |
| Pipeline.AdjacentStagesShareAPipe | hw3/shell.c:298-311 | stage i writes pipe i's write end and stage i + 1 reads pipe i's read end |
| Pipeline.EndsDiffer | hw3/shell.c:305-313 | no stage reads and writes the same descriptor |
| Descriptors.FdTable.Dup | hw3/shell.c:119-120 | dup of a closed descriptor fails with -1 and changes nothing; of an open one it takes the lowest closed number for the same file |
| Descriptors.FdTable.Dup2 | hw3/shell.c:123 | newfd refers to oldfd's file (newfd closed first); nothing happens when oldfd is closed or both are equal |
| Descriptors.FdTable.Close | hw3/shell.c:124 | the descriptor is closed and no other changes |
| Descriptors.FdTable.Pipe | hw3/shell.c:300 | read and write ends take the two lowest closed numbers, on two new file descriptions |
| Descriptors.FdTable.MoveOnto | hw3/shell.c:122-130 | the `if (fd != target) { dup2; close }` step: when they differ the target refers to fd's file and fd is closed; otherwise nothing changes |
| Descriptors.FdTable.RunBuiltin | hw3/shell.c:117-137 | the handler sees the stage's input on 0 and its output on 1 (the shell's own when those are the defaults); afterwards 0 and 1 are the shell's originals again, the two save descriptors are the lowest closed numbers holding the originals, and the handed descriptors are closed with nothing else changed |
| Descriptors.BuiltinEffect | hw3/shell.c:119-135 | the same save / rewire / restore sequence on descriptor maps: what 0 and 1 hold while the handler runs and after the restore |
| Descriptors.FdTable.RunExternal | hw3/shell.c:207-228 | in the shell, when fork succeeded the handed descriptors other than 0 and 1 are closed; when it failed (the `perror` branch) none is; nothing else changes |
| Descriptors.FdTable.RunCmd | hw3/shell.c:112-231 | for either path 0 and 1 end as they began; the handed descriptors end closed, except on the external path when fork failed, where they stay open; a builtin leaves exactly two new descriptors (the saved copies of 0 and 1, at numbers closed before), an external command none |
| Coordinator.MakePipes | hw3/shell.c:298-301 | 2(n-1) descriptors: pipe k's read end in fd[2k] and write end in fd[2k + 1], each on a new file, with every older descriptor unchanged |
| Coordinator.RunStage | hw3/shell.c:305-313 | running stage i with its hand-off pair (fork taken to succeed) closes exactly the pipe ends stage i owns, leaves later stages' ends open on their pipes, keeps every descriptor open before the line on its file, and adds nothing but saved copies of 0 and 1 |
| Coordinator.MiddleStage | hw3/shell.c:308-309 | the pair `(fd[cur_read], fd[cur_read + 3])` the middle loop passes with cur_read == 2(i - 1) is stage i's intended wiring |
| Coordinator.MiddleHandoff | hw3/shell.c:306-309 | the intended wiring of middle stage i resolves to `fd[2(i-1)]` and `fd[2(i-1) + 3]` |
| Coordinator.EndHandoffs | hw3/shell.c:305-311 | the first stage gets (STDIN, fd[1]) and the last (fd[2(n-1) - 2], STDOUT) |
| Coordinator.MiddleWiring | hw3/shell.c:306-308 | middle stage i reads slot 2(i-1) (pipe i-1's read end) and writes slot 2(i-1)+3 (pipe i's write end) |
| Coordinator.LastWiring | hw3/shell.c:311 | the last stage reads slot 2(n-1) - 2, the last pipe's read end, and writes standard output |
| Coordinator.RunMiddleStages | hw3/shell.c:306-310 | the loop over stages 1 .. n-2 hands each stage its intended pair, in order |
| Coordinator.AssembleHandoffs | hw3/shell.c:305-311 | first stage, middle stages and last stage together hand every stage its intended pair |
| Coordinator.RunChain | hw3/shell.c:304-311 | for n > 1, every stage is run left to right with its intended pair and all pipe ends end closed |
| Coordinator.NoPipeLeft | hw3/shell.c:298-314 | once every stage has run, no descriptor refers to any pipe made for the line |
| Coordinator.StageStep | hw3/shell.c:305-313 | one run_cmd on the descriptor maps, as RunCmd promises it: the pending-pipes invariant moves on from stage i to stage i + 1 |
| Coordinator.RunLine | hw3/shell.c:298-314 | the pair each stage got is its intended wiring (a single stage gets (STDIN, STDOUT)); every descriptor open before the line (0, 1 and any other) keeps its file; the only new descriptors are builtins' saved copies of 0 and 1; none refers to a pipe of the line |
| Coordinator.ProcessLine | hw3/shell.c:279-314 | one line of the main loop: split, pipes and stages keep every descriptor open before the line on its file, add only saved copies of 0 and 1, and leave no descriptor on a pipe of the line |
| Alloc.BlockAt | hw5/mm_alloc.c:177 | the block whose contents pointer is p (header H bytes before it), or none exactly when no block on the list has that contents pointer |
| Alloc.FirstFit | hw5/mm_alloc.c:71-105 | the first block in list order that is free and large enough, or -1 exactly when none is |
| Alloc.AllocSpec | hw5/mm_alloc.c:41-123 | size 0 returns NULL and changes nothing; a failure changes nothing; a success zeroes a range covering the granted contents |
| Alloc.SplitAt | hw5/mm_alloc.c:24-39 | split on values: one block more; block i keeps its address and back-link, and the new block after it links back to block i |
| Alloc.SplitFrame | hw5/mm_alloc.c:24-39 | split touches only block i: the blocks before it are unchanged, those after it unchanged one place further on (the old successor's `prev` is not updated) |
| Alloc.SplitConserves | hw5/mm_alloc.c:24-39 | split keeps the footprint: the new free block's size plus size plus a header is the old size, it starts right after the shrunk block and ends where the old one did, and the shrunk block is in use with the requested size |
| Alloc.SplitWellFormed | hw5/mm_alloc.c:24-39 | split keeps the list ordered, disjoint and below the break |
| Alloc.MergeAt | hw5/mm_alloc.c:165-171 | merge on values: one block fewer; block i keeps its address, free flag and back-link |
| Alloc.MergeFrame | hw5/mm_alloc.c:165-171 | merge touches only blocks i and i + 1: the blocks before are unchanged, those after keep address, size and flag, and the first of them now links back to block i (`m1->next->prev = m0`) |
| Alloc.MergeConserves | hw5/mm_alloc.c:165-171 | merge removes one block, the first keeps its address and absorbs the second's header and contents, and the footprint is kept |
| Alloc.MergeWellFormed | hw5/mm_alloc.c:165-171 | merge keeps the list well formed |
| Alloc.MergeShape | hw5/mm_alloc.c:186-190 | merging a block with both neighbours gives one block holding all three |
| Alloc.FreeAt | hw5/mm_alloc.c:173-196 | mm_free on values: the list loses at most two blocks, one per merge (its shape is FreeShape) |
| Alloc.FreeShape | hw5/mm_alloc.c:179-195 | free replaces the block, with any free neighbours, by one free block at the first one's address, and merges a neighbour exactly when it is free |
| Alloc.PrevNullAtHead | hw5/mm_alloc.c:184 | with headers above address 0, an accurate back-link is NULL exactly at the first block, so mm_free's `m->prev != NULL` agrees with FreeAt's test |
| Alloc.FreeConserves | hw5/mm_alloc.c:173-196 | free keeps the footprint |
| Alloc.FreeWellFormed | hw5/mm_alloc.c:173-196 | free keeps the list well formed |
| Alloc.FreeCoalesces | hw5/mm_alloc.c:179-195 | when no two free blocks were adjacent, none are afterwards, and the coalesced block is free |
| Alloc.FreeKeepsPlace | hw5/mm_alloc.c:179-195 | with an in-use predecessor, the freed block stays at its index and address, at least as large |
| Alloc.ReusedAt | hw5/mm_alloc.c:73-85 | reusing a fitting block leaves it in use, at its address, with the requested size |
| Alloc.ReusedWellFormed | hw5/mm_alloc.c:73-104 | reuse, with or without a split, keeps the list well formed |
| Alloc.ReusedNoAdjacentFree | hw5/mm_alloc.c:73-104 | reuse creates no adjacent free pair |
| Alloc.AllocWellFormed | hw5/mm_alloc.c:41-123 | malloc keeps the list well formed; the break only grows, and never past the limit |
| Alloc.AllocGrantsBlock | hw5/mm_alloc.c:41-123 | a non-NULL result is the contents pointer of an in-use block of exactly the requested size |
| Alloc.AllocFirstFit | hw5/mm_alloc.c:69-105 | when some block fits, malloc reuses the first fitting block in list order and does not move the break |
| Alloc.AllocFails | hw5/mm_alloc.c:43-109 | a NULL result for a non-zero size means no block fits and sbrk would pass the limit |
| Alloc.AllocFirstBlock | hw5/mm_alloc.c:47-64 | on an empty heap the first allocation makes exactly one in-use block of the requested size at the old break, with no neighbours, zeroed header and contents |
| Alloc.GrowOrphans | hw5/mm_alloc.c:70-120 | with two or more blocks and none fitting, growing leaves a two-block list: every block between the head and the new one is lost |
| Alloc.AppendAtTailKeepsBlocks | hw5/mm_alloc.c:107-122 | linking the new block after the real tail keeps every block, stays well formed, grows the footprint by exactly header plus size and gives the new block an accurate back-link |
| Alloc.SizeAfterAllocIs | hw5/mm_alloc.c:154-160 | the size mm_realloc reads from the old header after mm_malloc: the request when malloc reused that very block, its freed size otherwise |
| Alloc.ReallocSpec | hw5/mm_alloc.c:128-162 | size 0 frees and returns NULL with break and contents untouched; a NULL pointer with a non-zero size behaves as mm_malloc (the other branches: ReallocShrinks, ReallocGrantsBlock, ReallocCopyFits) |
| Alloc.ReallocShrinks | hw5/mm_alloc.c:146-149 | shrinking returns the same pointer, splits in place to the requested size, and keeps contents, break and footprint |
| Alloc.ReallocGrantsBlock | hw5/mm_alloc.c:128-162 | a non-NULL result is the contents pointer of an in-use block recording the requested size; a NULL result for a non-zero size leaves break and bytes alone and the old block in use at p again (`m->free = 0`) |
| Alloc.ReallocWellFormed | hw5/mm_alloc.c:128-162 | on the inputs ReallocReady admits (a grown block has no free neighbour), realloc keeps the header list well formed and the break within the limit |
| Alloc.ReallocGrowWellFormed | hw5/mm_alloc.c:152-158 | after the free, both the failure branch (block marked in use again) and the malloc keep the header list well formed (the copy comes after; see ReallocCopyFits) |
| Alloc.ReallocCopyFits | hw5/mm_alloc.c:152-160 | growing a block with no free neighbour: free leaves it at its place with its size, and the m->size bytes copied after a successful malloc are at most the request, so memcpy stays inside the granted block |
| Alloc.ReallocCopyOverruns | hw5/mm_alloc.c:152-160 | a well formed four-block heap where the grown block has a free successor: m->size becomes 1048 after the merge, the new block is at 4128, and the copy covers the header at 4192 of a block that stays on the list |
| Alloc.ReallocZeroesContents | hw5/mm_alloc.c:152-161 | when malloc hands the freed block back, realloc returns the same pointer with the first size bytes zero: the old contents are lost |
| Alloc.ReallocSameSizeExample | hw5/mm_alloc.c:152-161 | a one-block heap reallocated to its own size returns its pointer with its first byte zeroed, though it held 7 |
| Alloc.KeptMovedContents | hw5/mm_alloc.c:152-161 | the moving branch that copies the bytes held before the call has the same list, break and pointer, and the new block begins with the old contents |
| Alloc.KeptMovedFits | hw5/mm_alloc.c:152-160 | the corrected branch, whatever the successor: the list stays well formed, a grown result is an in-use block recording the request, and outside it the bytes are those malloc left |
| Alloc.Heap.constructor | hw5/mm_alloc.c:21 | an empty list (head is NULL) with the break at its base, which is above address 0 as every address sbrk returns is; the invariant keeps every header at or above that base |
| Alloc.Heap.Head | hw5/mm_alloc.c:21 | the head pointer: in a valid heap NULL exactly when the list is empty, so `head == NULL` and the model's empty list agree |
| Alloc.Heap.Sbrk | hw5/mm_alloc.c:49-51 | the old break, moved up by n, or -1 with the break unchanged when that would pass the limit |
| Alloc.Heap.Split | hw5/mm_alloc.c:24-39 | the list becomes SplitAt of the old list and stays well formed |
| Alloc.Heap.Merge | hw5/mm_alloc.c:165-171 | the list becomes MergeAt of the old list and stays well formed |
| Alloc.Heap.Reuse | hw5/mm_alloc.c:73-85 | the contents pointer of the reused block, its first size bytes zeroed, the list as Reused describes |
| Alloc.Heap.StartHeap | hw5/mm_alloc.c:47-64 | the `head == NULL` branch: the pointer, list, break and contents AllocSpec gives for an empty list |
| Alloc.Heap.AppendAfterHead | hw5/mm_alloc.c:107-122 | the grow branch when nothing fits: the pointer, list (new block linked after head), break and contents AllocSpec gives |
| Alloc.Heap.Malloc | hw5/mm_alloc.c:41-123 | the pointer, list, break and contents AllocSpec gives for the old heap, which stays well formed |
| Alloc.Heap.Free | hw5/mm_alloc.c:173-196 | NULL changes nothing; otherwise the list becomes FreeAt of the old list and stays well formed |
| Alloc.Heap.Realloc | hw5/mm_alloc.c:128-162 | on the inputs ReallocReady admits, the pointer, list, break and contents ReallocSpec gives for the old heap, which stays well formed |
| Alloc.Heap.Move | hw5/mm_alloc.c:152-161 | mm_free then the placing step, as MovedSpec gives it; for a block with no free neighbour grown to at least its size, the bytes copied are at most the request |
| Alloc.Heap.Place | hw5/mm_alloc.c:154-161 | mm_malloc then memcpy of the old header's size, or the block marked in use again when malloc fails; when the freed block is no larger than the request, the copy is at most the request |
| Alloc.Heap.Size | hw5/mm_alloc.c:198-202 | the recorded size of p's block, and for NULL the 64-bit wrap of -1 times the header size |
| Mmu.PfnToAddr | hw6/hw6-pt-starter/src/mmu.c:25-27 | the frame number shifted into place: a 4096-aligned address |
| Mmu.PfnRoundTrip | hw6/hw6-pt-starter/src/mmu.c:25-27 | shifting back recovers the frame number's low 20 bits |
| Mmu.PdptIndex | hw6/hw6-pt-starter/src/mmu.c:31-32 | bits 31:30, in [0, 4) |
| Mmu.PdIndex | hw6/hw6-pt-starter/src/mmu.c:45-46 | bits 29:21, in [0, 512) |
| Mmu.PtIndex | hw6/hw6-pt-starter/src/mmu.c:59-60 | bits 20:12, in [0, 512) |
| Mmu.Offset | hw6/hw6-pt-starter/src/mmu.c:73-74 | bits 11:0, below 4096 |
| Mmu.Decompose | hw6/hw6-pt-starter/src/mmu.c:31-74 | the four fields put back together, by shifts or by pd·2^30 + pmd·2^21 + pte·2^12 + off, give the address back |
| Mmu.Compose | hw6/hw6-pt-starter/src/mmu.c:31-74 | conversely, any four in-range fields come back out of the address built from them |
| Mmu.SameIndices | hw6/hw6-pt-starter/src/mmu.c:31-60 | two addresses on the same page have the same three table indices |
| Mmu.EntryAddr | hw6/hw6-pt-starter/src/mmu.c:33 | the address of entry index, base plus 8 times index as at lines 33, 47 and 61: it keeps the base's 8-byte alignment (that it lies in the table's page is EntryInTable) |
| Mmu.EntryInTable | hw6/hw6-pt-starter/src/mmu.c:33 | entry index of an aligned table lies inside the table's page, at 8 times index from its base |
| Mmu.PdAddr | hw6/hw6-pt-starter/src/mmu.c:30-41 | the page directory named by the PDPT entry for vaddr, page-aligned |
| Mmu.PtAddr | hw6/hw6-pt-starter/src/mmu.c:44-55 | the page table named by the page directory entry, page-aligned |
| Mmu.PgAddr | hw6/hw6-pt-starter/src/mmu.c:58-69 | the page named by the page table entry, page-aligned |
| Mmu.PhysAddr | hw6/hw6-pt-starter/src/mmu.c:72-76 | phys_addr: with a page-aligned page, the address lies at or above the page, vaddr's offset into it |
| Mmu.PageOffset | hw6/hw6-pt-starter/src/mmu.c:72-76 | phys_addr on an aligned page keeps the page as its high bits and the virtual offset as its low 12 bits |
| Mmu.VirtToPhys | hw6/hw6-pt-starter/src/mmu.c:82-98 | the status is always 0: every walk succeeds |
| Mmu.Page | hw6/hw6-pt-starter/src/mmu.c:83-91 | the page the three-level walk ends in, page-aligned |
| Mmu.WalkSplits | hw6/hw6-pt-starter/src/mmu.c:82-98 | the translated address is the walk's page with vaddr's offset |
| Mmu.SamePage | hw6/hw6-pt-starter/src/mmu.c:82-98 | addresses on the same virtual page translate into the same physical page |
| Mmu.PresentIgnored | hw6/hw6-pt-starter/src/mmu.c:37-38 | clearing every present bit changes no translation, as the present checks are commented out |
| Mmu.FetchByte | hw6/hw6-pt-starter/src/mmu.c:107-112 | translate vaddr + i and fetch one byte: the byte i places after vaddr |
| Mmu.Put | hw6/hw6-pt-starter/src/mmu.c:113-118 | write byte i, double the buffer exactly when i + 1 reaches its length, then write the NUL at i + 1, keeping the bytes before |
| Mmu.StrFromVirt | hw6/hw6-pt-starter/src/mmu.c:100-121 | the buffer holds the bytes at vaddr, vaddr + 1, ... up to and including the first NUL, then a NUL; its length is a power of two, less than twice what it holds |
| WordCount.Find | hw2/word_count_p.c:48-61 | the index of the first entry with that word, or none exactly when no entry has it |
| WordCount.AddedShape | hw2/word_count_p.c:63-84 | a present word has its count raised by one with length and every other entry unchanged; an absent one is pushed to the front with count 1, the old entries following unchanged |
| WordCount.AddedCountSelf | hw2/word_count_p.c:69-83 | the word's count goes up by exactly one |
| WordCount.AddedCountOther | hw2/word_count_p.c:63-84 | every other word's count is unchanged |
| WordCount.AddedWellFormed | hw2/word_count_p.c:63-84 | add keeps the words pairwise distinct and every count at least 1 |
| WordCount.Insert | hw2/word_count_p.c:111 | one insertion step adds exactly the new entry to the multiset of entries |
| WordCount.InsertSorted | hw2/word_count_p.c:111 | inserting into a sorted list keeps it sorted under a strict weak order |
| WordCount.SortByPermutes | hw2/word_count_p.c:108-112 | sorting is a permutation of the entries |
| WordCount.SortBySorted | hw2/word_count_p.c:108-112 | the result is ordered by the supplied comparison |
| WordCount.SortByWellFormed | hw2/word_count_p.c:108-112 | sorting keeps words distinct and counts positive |
| WordCount.PadLeft | hw2/word_count_p.c:92 | `%8d`'s padding: width max(len, 8), the digits at the end, spaces before |
| WordCount.DigitsValue | hw2/word_count_p.c:92 | the decimal digits read back as the number |
| WordCount.DigitsLead | hw2/word_count_p.c:92 | a number of two or more digits has no leading zero |
| WordCount.LineFields | hw2/word_count_p.c:92 | a line is the count right-aligned in 8 columns, a tab, the word and a newline |
| WordCount.RenderLines | hw2/word_count_p.c:86-94 | with newline-free words the output has exactly one line per entry |
| WordCount.WordCountList.constructor | hw2/word_count_p.c:33-37 | an empty list, which satisfies the list invariant |
| WordCount.WordCountList.Len | hw2/word_count_p.c:39-46 | the number of entries |
| WordCount.WordCountList.FindWord | hw2/word_count_p.c:48-61 | the loop's result is Find of the entries, which it leaves unchanged |
| WordCount.WordCountList.AddWord | hw2/word_count_p.c:63-84 | the entries become Added of the old entries (see AddedShape), the invariant is kept, and the returned entry holds the word |
| WordCount.WordCountList.FprintWords | hw2/word_count_p.c:86-94 | the text is the entries' lines in list order |
| WordCount.WordCountList.Sort | hw2/word_count_p.c:108-112 | the entries become a sorted permutation of the old ones, keeping the invariant |

## Left out

- Process creation, exec, waiting, process groups, terminal ownership and signal dispositions (`fork`, `execv`, `waitpid`, `setpgid`, `tcsetpgrp`, `signal`, `init_shell`) are OS effects. Whether `fork` succeeded is a parameter of a launch.
- ProgramPath.RunProgram: whether `execv` succeeds is a parameter. Copying into the 1024-byte `buf` is not bounded, and `getenv("PATH")` returning NULL is not modelled: the path is a string.
- Descriptors.FdTable.RunCmd: the child's side is not modelled. That side covers the second lookup, the redirection `open`s and their failure messages, and exec. Only the shell's descriptor table is stated.
- Coordinator.RunStage: every `fork` is taken to succeed (it passes `forked = true` to RunCmd). When `fork` fails, `run_cmd` prints an error and closes neither handed end, as RunExternal models, and the line's pipes would then stay open in the shell.
- Coordinator.ProcessLine: the `malloc` and `realloc` of the stage array (`hw3/shell.c:281`, `290-291`) are not checked in the code and are taken to succeed.
- Descriptors.FdTable.RunBuiltin: the saved copies of 0 and 1 are never closed, as in the code. The handler's own I/O (`cd`, `pwd`, help, exit) is not modelled.
- Descriptors.FdTable.Pipe: there is no descriptor limit, so `pipe` and `dup` never fail with EMFILE.
- The tokenizer (`tokenize`, `tokens_get_token`) is a function parameter, because its source is not part of this model.
- Coordinator.ProcessLine: requires at least one stage. With zero stages, `2 * (cur_size - 1)` wraps as `size_t` and the C code has no defined behaviour. Reading the line with `fgets`, and the 4096-byte line limit, are left out.
- The `cd`, `pwd`, `exit` and `?` handlers and the line-number prompt are not modelled.
- Alloc: `sbrk` is modelled as a break that may move up to a fixed limit, and fails past it.
  - Headers are kept apart from the content bytes, so `memcpy` of a header and raw pointer arithmetic on headers are not modelled.
  - `size + sizeof(struct meta)` is required not to wrap in 64 bits.
- Alloc.Heap.Free: requires the freed block's stored `prev` to be accurate. `split` can leave a successor's `prev` stale, and freeing through a stale link merges across other blocks. The model does not follow that corruption. It also requires `p` to be the contents pointer of a block still on the list: freeing a block that the `last` defect dropped from the list (GrowOrphans) is not modelled. The C follows that block's own `prev` and `next`, and can relink the list through it.
- Alloc.ReallocSpec: its own `ensures` cover only size 0 and a NULL pointer. The shrinking, moving and failing branches are stated by ReallocShrinks, ReallocGrantsBlock, ReallocCopyFits and ReallocZeroesContents.
- Alloc.Heap.Realloc: requires `p` to be NULL or the contents pointer of a block still on the list; resizing a block that the `last` defect dropped from the list (GrowOrphans) is not modelled, though `mm_realloc` reads and frees it through its own header. It also requires what the C code silently relies on (`ReallocReady`):
  - room for `split`'s header when shrinking;
  - an accurate back-link;
  - an in-use predecessor when growing. Otherwise the header that `mm_realloc` reads after `mm_free` lies inside memory the new allocation may overwrite;
  - a successor that is not free when growing. Otherwise `mm_free` merges it, `m->size` becomes the merged size and `memcpy` writes past the granted block over the headers after it (Findings). The model keeps headers apart from the bytes, so on such inputs its list would stay well formed where the C heap is corrupted; Realloc, ReallocWellFormed and ReallocSpec therefore promise nothing there.
  `memcpy` with overlapping ranges is modelled as copying from the bytes before the call.
- Alloc.Heap.Size: requires `p` to be NULL or the contents pointer of a block still on the list; `mm_size` of a block that the `last` defect dropped from the list (GrowOrphans) returns the size in that block's header, and the model, which keeps no headers off the list, does not cover it.
- Alloc.Heap.Malloc follows the code as written, including the `last` defect listed under Findings. The corrected append is stated beside it as a function with its lemma, not used by the class.
- `hw5/mm_test.c` is a `dlopen` harness and is not modelled.
- Mmu: `ram_fetch`, `ram_init`, `ram_load` and `main` with its `strtol` parsing are foreign or I/O. Memory is the `Ram` value.
  - The `malloc` buffers leaked by each level are not modelled.
  - The header files that define the address and entry types are not part of this model. Addresses are taken as 32-bit and entries as 8 bytes.
- Mmu.StrFromVirt: takes as a ghost argument a position below 2^31 where a NUL lies. This keeps `int i` from overflowing and makes the loop terminate. The page-fault branch returning NULL is unreachable, because `virt_to_phys` always returns 0, so it is not modelled. A realloc failure is not modelled either.
- WordCount: the mutex (`pthread_mutex_*`) is left out and every operation is sequential. `hw2/pwords.c` is not modelled.
- WordCount.WordCountList.AddWord: the count is an unbounded integer, so `count++` overflowing `int` is not modelled. A `malloc` failure is not modelled. The word is stored by value, so pointer aliasing of `wc->word` is not modelled.
- WordCount.WordCountList.Sort: the list library's `list_sort` is not part of this model. An insertion sort stands in for it, and the promise is a sorted permutation, not stability. `less_list`'s unpacking of the comparison is folded into passing the comparison directly.
- WordCount.WordCountList.FprintWords: `fprintf` to a stream becomes the text returned; `%d` of a negative count is rendered with a minus sign.

## Findings

| source | as written | input that shows it | evidently intended | confidence | as-written member | corrected member |
|---|---|---|---|---|---|---|
| hw3/shell.c:197-201 | `char * cmd[len]` declares len slots, then `cmd[len] = NULL` writes one past the end | any command, e.g. the tokens `ls`: len = 1, one slot, and `cmd[1]` is written | an array of len + 1 slots ending in NULL | not executed | Redirect.TerminatorOutOfBounds | Redirect.BuildArgv |
| hw5/mm_alloc.c:70-120 | `last` starts at `head`; its update at lines 88-89 sits inside a loop that runs only while `m->next != NULL`, so it never runs | two in-use blocks and a request neither fits: the new block is linked after the head and the second block drops off the list | the new block linked after the tail, the final `m` of the loop | not executed | Alloc.GrowOrphans | Alloc.AppendAtTailKeepsBlocks |
| hw5/mm_alloc.c:152-161 | `mm_free` then `mm_malloc` may hand back the same block, and `mm_malloc` zeroes it (lines 75/94) before `memcpy` copies from it | a heap of one 64-byte block in use, `mm_realloc(p, 64)`: p comes back with its contents zeroed | the old contents copied into the new block; KeptMovedContents holds by the definition of KeptMoved, and the substance of the correction, that this copy stays inside the granted block and keeps the list well formed, is KeptMovedFits | not executed | Alloc.ReallocSameSizeExample | Alloc.KeptMovedContents |
| hw5/mm_alloc.c:152-160 | `memcpy(addr, m->contents, m->size)` reads `m->size` after `mm_free`, which may have merged a free successor into the block | blocks at 4096 (64 bytes, free), 4192 and 4240 (16 bytes, in use), 4288 (1000 bytes, free), break 5320, `mm_realloc(4272, 48)`: the new block is at 4128 and 1048 bytes are copied over the headers at 4192 and 4240 | copy the block's size from before the free | not executed | Alloc.ReallocCopyOverruns | Alloc.KeptMovedFits |
