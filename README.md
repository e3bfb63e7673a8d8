# Three C programs, modelled and proved in Dafny

This project models three pieces of sequential C code and proves what they promise.

- **An explicit-free-list heap allocator** (`Allocator/mm.c`).
  - Each mapped page holds a padding word, a prolog block (header and footer `PACK(16, 1)`), blocks with a boundary tag at each end, and a terminator `PACK(0, 1)`.
  - Free blocks form a doubly linked list threaded through their payloads: `pre` at offset 0, `next` at offset 8.
  - `mm_malloc` takes the first fit from the list, or asks `extend` for a new page; `set_allocated` splits the block when more than 32 bytes would be left.
  - `mm_free` marks the block free, runs `coalesce`'s four-case merge, and hands the page back to the page provider when its whole-page test holds. As written, that test reads the wrong word and can also fire on a page that is not wholly free (see Findings).
- **A toy x86-like processor** (`Simulator/simulator.c`).
  - `decode_instructions` splits 32-bit words into opcode, two register numbers and a signed 16-bit immediate.
  - `execute_instruction` runs one instruction on 17 `int` registers (register 6 is `%esp`, register 16 the flags) and a 1024-byte stack, and returns the next program counter.
  - `main` loops until the program counter reaches `num_instructions * 4`.
- **Two image kernels** (`Performance/kernels.c`).
  - `complex` writes the grey level of each source pixel to the cell mirrored through the anti-diagonal.
  - `motion` replaces each pixel by the mean of the in-bounds cells of the 3 x 3 window below and to the right of it.
  - Each has a naive version and an optimised one. The optimised `complex` is loop-blocked; the optimised `motion` splits the image into the interior, the edge strips and the corner, with a fixed-shape helper for each.

**How the allocator is modelled**
- `Allocator.Heap` is a class whose fields are the mapped words (`mem`, a map from byte address to word, where an unwritten word reads as 0), `list_header`, `initial_page` and the page size.
- Every function of `mm.c` is a method that makes the same writes in the same order. Each write address is read back from the words already written, as the macros do.
- The one exception is `mm_free`'s whole-page test. `Allocator.Heap.MmFree` uses the corrected test. `AllocatorEffects.ReleasedAsWritten` is `mm_free` exactly as written, and `AllocatorTheorems.FreeAsWrittenOk` proves that the two agree unless the test as written misfires.
- Each method's postcondition equates the new words with a function in `AllocatorEffects`.
- `AllocatorTheorems` proves what those functions do to a well-formed heap (`AllocatorHeap.HeapOk`):
  - header and footer agree;
  - sizes are multiples of 16;
  - blocks tile their pages;
  - `PREV_BLKP` and `NEXT_BLKP` find the neighbours;
  - the list holds exactly the free blocks, correctly linked;
  - no two free blocks are adjacent.

**How the simulator and the kernels are modelled**
- The simulator's methods work in place on `registers` and `memory` arrays. They are proved equal to the functions `SimulatorStep.Execute`, `Step` and `Run`.
- `cmpl` is modelled as the program runs it. It clears register 16, then each flag test re-reads both operands, so an operand that is register 16 reads the flags set so far (`SimulatorStep.Compared`). With no such operand, the flags are `CompareFlags` of the two values, which `SimulatorProps.CompareBranch` relates to the jumps.
- The kernels' methods work in place on `dest`/`dst` arrays. They are proved to produce `KernelComplex.ComplexImage` and `KernelWindow.MotionImage`. Since the naive and optimised versions produce the same image, they are equivalent.

## Model

| member | source | states |
|---|---|---|
| AllocatorCodec.GetSize | Allocator/mm.c:58 | `GET_SIZE`, `w & ~0xF`: the word with its low four bits cleared (closed form in `SizeMask`) |
| AllocatorCodec.SizeMask | Allocator/mm.c:58 | `GET_SIZE(w) == w - w % 16`: a multiple of 16, at most w and more than w - 16 |
| AllocatorCodec.AllocMask | Allocator/mm.c:57 | `GET_ALLOC(w) == w % 2` |
| AllocatorCodec.Align | Allocator/mm.c:32 | `ALIGN(n)` is a multiple of 16 with `n <= r < n + 16`, i.e. the least multiple of 16 that is at least n |
| AllocatorCodec.PageAlign | Allocator/mm.c:35 | `PAGE_ALIGN(n)` is a multiple of the page size with `n <= r < n + pagesize`, the least such multiple |
| AllocatorCodec.PackUnpack | Allocator/mm.c:54-58 | for a size that is a multiple of 16 and an alloc bit of 0 or 1, `GET_SIZE(PACK(s, a)) == s` and `GET_ALLOC(PACK(s, a)) == a` |
| AllocatorCodec.RequestShape | Allocator/mm.c:110 | the size mm_malloc asks for, `ALIGN(size + OVERHEAD)`, is a multiple of 16 and at least 32 for any size of at least 1 |
| AllocatorCodec.MaskModel | Allocator/mm.c:57-58 | on 64-bit words the mask forms agree with the arithmetic ones the model uses |
| AllocatorCodec.PageMaskModel | Allocator/mm.c:35 | for a 4096-byte page, PAGE_ALIGN's `& ~(pagesize - 1)` on 64-bit words is the round-down `x - x % pagesize` that PageAlign uses |
| AllocatorCodec.PowerOfTwoAligned | Allocator/mm.c:35 | a power-of-two page size of at least 16 is a multiple of 16, so page-aligned sizes are 16-aligned |
| AllocatorList.ListPush | Allocator/mm.c:283-299 | after add_list_node(bp) the list is bp followed by the old list in the old order, bp's `pre` is NULL and its `next` the old head |
| AllocatorList.ListRemove | Allocator/mm.c:304-323 | after remove_list_node on the node at index k the list is the old list without exactly that node, in order, with the head updated |
| AllocatorList.ListRemoveHead | Allocator/mm.c:309-312 | the head after remove_list_node is the first node of the shortened list (NULL when it is empty) |
| AllocatorList.LinkedFrom | Allocator/mm.c:269-276 | following `next` from any node of a well-formed list visits the rest of the list in order and then reads NULL |
| AllocatorEffects.RemoveNodeUnlinks | Allocator/mm.c:304-323 | on a well-formed list, remove_list_node's re-reads see its first reads, so its writes are the two unlinking writes |
| AllocatorEffects.FirstFitIn | Allocator/mm.c:265-278 | first_fit's result is NULL or a list node whose header's size is at least s |
| AllocatorTheorems.FirstFitByHeaders | Allocator/mm.c:265-278 | walking the list by the header words finds the first node, head to tail, whose block holds s bytes, or NULL |
| AllocatorTheorems.FirstFitOk | Allocator/mm.c:265-278 | on a well-formed heap first_fit returns the first list node whose block holds at least s bytes; it returns NULL iff no free block does |
| AllocatorEffects.SizeDiff | Allocator/mm.c:161 | `pre_size - size` on `size_t`: the exact difference when it is not negative, else that difference plus a multiple of 2^64, below 2^64 |
| AllocatorEffects.AllocateSplitForm | Allocator/mm.c:158-174 | set_allocated with more than 32 bytes left: b is unlinked, gets tags of `size`, and the rest at b + size gets free tags and is pushed |
| AllocatorEffects.AllocateWholeForm | Allocator/mm.c:158-179 | set_allocated with at most 32 bytes left: b is unlinked and its tags say all of `pre_size`, allocated |
| AllocatorTheorems.AllocatedBlocks | Allocator/mm.c:158-180 | the blocks after set_allocated: b is allocated with size at least `size` and at most `size + 32`; on a split the rest is a free block of `pre_size - size`; nothing else changes |
| AllocatorTheorems.AllocatedList | Allocator/mm.c:162-173 | every other listed block stays listed; on a split the rest heads the list and its length is unchanged, otherwise the list is one shorter |
| AllocatorTheorems.AllocateOk | Allocator/mm.c:158-180 | set_allocated on a listed free block that holds `size` keeps the heap well formed with exactly those blocks and that list |
| AllocatorEffects.ExtendSize | Allocator/mm.c:189-200 | the page size extend asks for always holds the last `initial_page` and a prolog |
| AllocatorEffects.ExtendSizeShape | Allocator/mm.c:189-200 | every page extend maps is a multiple of the page size, a multiple of 16, and at least one page long |
| AllocatorEffects.ExtendGrowth | Allocator/mm.c:192-200 | while pages grow, a new page is at least twice `initial_page` plus two prologs; after the threshold a page is less than one page size beyond `initial_page` and its prolog |
| AllocatorEffects.InitialPageBounded | Allocator/mm.c:192-200 | `initial_page` never decreases, and it stays below the growth threshold plus a prolog and a page |
| AllocatorEffects.ExtendForm | Allocator/mm.c:202-219 | extend's writes are the padding 0, the prolog tags, the free block's header and footer of `size - 32`, and the terminator, after which the block is pushed |
| AllocatorTheorems.ExtendOk | Allocator/mm.c:187-220 | when the provider maps a span clear of the heap, the heap stays well formed, gains the page and its one free block, and that block heads the list |
| AllocatorEffects.CoalescePrevForm | Allocator/mm.c:231-237 | coalesce with only the block before free: that block's header and bp's footer get the summed size, and the result is the block before |
| AllocatorEffects.CoalesceNextForm | Allocator/mm.c:238-245 | coalesce with only the block after free: that block is unlinked, bp's tags get the summed size, and bp is pushed |
| AllocatorEffects.CoalesceBothForm | Allocator/mm.c:250-257 | coalesce with both neighbours free: the block after is unlinked, and the block before takes the sum of all three sizes in its header and in the footer of the block after |
| AllocatorTheorems.CoalesceAloneOk | Allocator/mm.c:246-249 | coalesce with both neighbours allocated pushes bp and leaves a well-formed heap with the same blocks |
| AllocatorTheorems.CoalescePrevOk | Allocator/mm.c:231-237 | the merged block is the block before, with the summed size and free; the heap is well formed again |
| AllocatorTheorems.CoalesceNextOk | Allocator/mm.c:238-245 | the absorbed block was listed and is no longer; the merged block has the summed size, is free and heads the list |
| AllocatorTheorems.CoalesceBothOk | Allocator/mm.c:250-257 | the merged block spans all three, its tags carry the sum, and the block after leaves the list |
| AllocatorTheorems.CoalesceOk | Allocator/mm.c:225-260 | in all four cases coalesce leaves a well-formed heap where the returned block is free, covers bp, lies on bp's page, is listed once, and every other block is unchanged |
| AllocatorReads.PrologTest | Allocator/mm.c:137 | the word just before a block's header has size 16 iff the block is its page's first |
| AllocatorReads.TerminatorTest | Allocator/mm.c:137 | the word after a block's footer has size 0 iff the block is its page's last |
| AllocatorReads.WholePageExact | Allocator/mm.c:137 | the corrected whole-page test holds iff the block fills its page |
| AllocatorReads.WholePageAsWrittenExact | Allocator/mm.c:137 | the test as written holds iff the block fills its page, or it is its page's last but not first block and the word three words before its payload has size 16; so it never misses a wholly free page, and it agrees with the corrected test when that word does not have size 16 |
| AllocatorTheorems.ReleasePageAsWrittenOk | Allocator/mm.c:137-142 | the release step as written unmaps exactly when the block fills its page or the test misfires on it, and does what the corrected step does whenever the block is its page's first or the word it reads does not have size 16 |
| AllocatorTheorems.ReleasePageOk | Allocator/mm.c:137-142 | with the corrected test: exactly when the block fills its page, it leaves the list and mem_unmap gets the payload less 32 and the size in its header plus 32; otherwise nothing changes |
| AllocatorTheorems.UnmapOk | Allocator/mm.c:139-141 | the span passed to mem_unmap is the page extend mapped; unlinking the block leaves a well-formed heap without that page |
| AllocatorTheorems.FreeOk | Allocator/mm.c:127-143 | mm_free on an allocated block of a well-formed heap leaves a well-formed heap where that block is free and every other allocated block is unchanged; a page goes to mem_unmap only when it is wholly free, with its own base and length, and then leaves the heap (with the corrected test) |
| AllocatorTheorems.ReleaseAgrees | Allocator/mm.c:137-142 | on a well-formed heap, the release step as written does what the corrected step does whenever the word before the block's header has size 16 (the prolog footer, so the block is its page's first) or the word three words before its payload does not have size 16 |
| AllocatorTheorems.FreeAsWrittenOk | Allocator/mm.c:127-143 | for the words and block that coalesce returns, mm_free exactly as written gives the same words and mem_unmap arguments as the model's mm_free, and so everything FreeOk proves, unless that block is not its page's first and the word three words before its payload has size 16 |
| AllocatorTheorems.InitOk | Allocator/mm.c:97-101 | mm_init, which only empties the list, leaves a well-formed heap iff no block is free |
| AllocatorTheorems.MallocHit | Allocator/mm.c:108-122 | when first_fit finds a block, mm_malloc allocates it and keeps the heap well formed |
| AllocatorTheorems.MallocMiss | Allocator/mm.c:113-119 | when first_fit finds nothing and the provider maps a clear span whose block holds the request, mm_malloc allocates from the new page and keeps the heap well formed |
| AllocatorTheorems.MallocOk | Allocator/mm.c:108-122 | mm_malloc(size) returns a newly allocated block of at least `ALIGN(size + 16)` bytes; every page and every allocated block is kept and `initial_page` never decreases (on a miss the new page's block must hold the request) |
| Allocator.Heap.constructor | Allocator/mm.c:72 | the program starts with no page, a NULL list and `initial_page` 0, which is a well-formed empty heap |
| Allocator.Heap.MmInit | Allocator/mm.c:97-101 | only `list_header` is reset; the words and `initial_page` stay; returns 0 |
| Allocator.Heap.AddListNode | Allocator/mm.c:283-299 | the words and head after add_list_node are those of `AddNode` (see ListPush) |
| Allocator.Heap.RemoveListNode | Allocator/mm.c:304-323 | the words and head after remove_list_node are those of `RemoveNode` (see ListRemove) |
| Allocator.Heap.FirstFit | Allocator/mm.c:265-278 | returns `FirstFitIn` of the current words and list (see FirstFitOk) |
| Allocator.ScanList | Allocator/mm.c:267-277 | first_fit's `while` loop along `next` returns the first node whose header holds s, or NULL |
| Allocator.Heap.SetAllocated | Allocator/mm.c:158-180 | the new words are those of `Allocate` (see AllocateOk) |
| Allocator.Heap.Extend | Allocator/mm.c:187-220 | the new words, head and `initial_page` are those of `Extended` (see ExtendOk) |
| Allocator.Heap.GrowPage | Allocator/mm.c:189-200 | the page size is `ExtendSize`; `initial_page` becomes the new size only while pages still grow |
| Allocator.Heap.LayOutPage | Allocator/mm.c:204-219 | extend's six writes and the push |
| Allocator.Heap.Coalesce | Allocator/mm.c:225-260 | the new words and the returned block are those of `Coalesced` (see CoalesceOk) |
| Allocator.Heap.MergeNext | Allocator/mm.c:238-245 | coalesce's case of a free block after bp |
| Allocator.Heap.MergeBoth | Allocator/mm.c:250-257 | coalesce's case of free blocks on both sides |
| Allocator.Heap.MmFree | Allocator/mm.c:127-143 | the new words and the mem_unmap arguments are those of `Released`, mm_free with the corrected whole-page test (see FreeOk and FreeAsWrittenOk) |
| Allocator.Heap.ReleaseWholePage | Allocator/mm.c:137-142 | the corrected whole-page test, the unlink and the span handed to mem_unmap |
| Allocator.Heap.MmMalloc | Allocator/mm.c:108-122 | the new words, `initial_page` and the result are those of `Malloc` (see MallocOk) |
| AllocatorFindings.WholePageMisfire | Allocator/mm.c:137 | on a well-formed heap the test as written reports a block as filling its page when it does not, and the release step as written hands mem_unmap a span that starts at an allocated block's payload; the corrected test releases nothing |
| SimulatorWords.Wrap | Simulator/simulator.c:142-157 | 32-bit `int` arithmetic: the one `int` congruent to the exact result modulo 2^32, equal to it when it fits |
| SimulatorWords.WrapUnique | Simulator/simulator.c:142-157 | Wrap is the only `int` congruent to its argument |
| SimulatorWords.SignedUnsigned | Simulator/simulator.c:160 | `(int)(unsigned)v == v` |
| SimulatorWords.Flags | Simulator/simulator.c:176-194 | the word cmpl leaves has bit 0x1 iff CF, 0x40 iff ZF, 0x80 iff SF, 0x800 iff OF, and never bit 0x400 |
| SimulatorWords.StoreWord | Simulator/simulator.c:170-171 | `*(int*)&memory[a] = v` changes the four bytes at a and no other |
| SimulatorWords.LoadStore | Simulator/simulator.c:166-171 | a word stored is the word loaded back |
| SimulatorWords.LoadStoreApart | Simulator/simulator.c:166-171 | a store leaves every word that does not overlap it as it was |
| SimulatorDecode.Decode | Simulator/simulator.c:112-121 | every decoded field is in range: opcode and registers below 32, immediate in -32768..32767 |
| SimulatorDecode.DecodeEncode | Simulator/simulator.c:112-121 | decoding the word built from opcode << 27, first << 22, second << 17 and the immediate's low 16 bits gives back every field |
| SimulatorDecode.EncodeDecode | Simulator/simulator.c:112-121 | decoding keeps every bit of the word except bit 16 |
| Simulator.DecodeInstructions | Simulator/simulator.c:105-125 | element i of the result is the decoding of word i, and depends on nothing else |
| SimulatorStep.Compared | Simulator/simulator.c:176-195 | cmpl's flags as the program computes them: register 16 cleared, then each test re-reading both operands; equal to `CompareFlags` of the operands' values whenever neither is register 16, and never bit 0x400 |
| SimulatorStep.Execute | Simulator/simulator.c:139-265 | execute_instruction's cases keep 17 registers and a 1024-byte stack; cmpl writes `Compared` |
| Simulator.ExecuteInstruction | Simulator/simulator.c:130-266 | the registers, stack and outcome after the in-place step are those of `Step`, cmpl with an operand register 16 included |
| Simulator.Compute | Simulator/simulator.c:141-195 | the cases that write at most one register, as `Execute` |
| Simulator.Compare | Simulator/simulator.c:176-195 | cmpl's five writes to register 16 in the program's order leave `Compared` of the old registers there and change no other register |
| Simulator.Branch | Simulator/simulator.c:196-233 | the jumps, as `Execute` |
| Simulator.Access | Simulator/simulator.c:165-172 | the two `movl`s through memory, as `Execute` |
| Simulator.StackOp | Simulator/simulator.c:234-261 | call, ret, pushl and popl, as `Execute` |
| Simulator.CallOrReturn | Simulator/simulator.c:234-250 | call and ret, as `Execute` |
| Simulator.PushOrPop | Simulator/simulator.c:252-261 | pushl and popl, as `Execute` |
| Simulator.Simulate | Simulator/simulator.c:82-95 | `%esp` starts at 1024 and the program counter at 0, and the loop runs until the program counter is `num_instructions * 4`, as `Run` |
| SimulatorProps.FallThrough | Simulator/simulator.c:264-265 | every operation but the jumps, call and ret continues at pc + 4 or faults |
| SimulatorProps.Jumps | Simulator/simulator.c:196-232 | a jump changes neither registers nor stack and continues at pc + imm + 4 iff its flag test holds (always for jmp), else at pc + 4 |
| SimulatorProps.RegisterFrame | Simulator/simulator.c:141-261 | no register outside the operation's destination, register 16 for cmpl, or register 6 for the stack operations changes |
| SimulatorProps.MemoryFrame | Simulator/simulator.c:165-261 | only movl_reg_deref, pushl and call write the stack, and each writes the four bytes of one `int` |
| SimulatorProps.CmplFlags | Simulator/simulator.c:176-195 | cmpl changes only register 16 and never sets bit 0x400; when neither operand is register 16: CF iff unsigned b < a, ZF iff b == a, SF iff the wrapped b - a is negative, OF iff the exact difference overflows |
| SimulatorProps.CmplOnFlags | Simulator/simulator.c:176-195 | with register 16 as an operand cmpl reads the flags set so far: `cmpl %16, %16` sets ZF alone, and two concrete operand pairs get flags other than `CompareFlags` of the values before the instruction |
| SimulatorProps.CompareBranch | Simulator/simulator.c:196-230 | on the flags `CompareFlags(a, b)` that `cmpl` sets for operands holding a and b, neither register 16: je jumps iff b == a, jle iff b <= a, jge iff b >= a, jbe iff b <= a unsigned, and jl iff the wrapped b - a is negative |
| SimulatorProps.JlMisses | Simulator/simulator.c:202-204 | after `cmpl 1, INT_MIN` jl as written does not jump although INT_MIN < 1; the intended test does |
| SimulatorProps.JlIntended | Simulator/simulator.c:202-204 | with OF at 0x800, jl after `cmpl a, b` jumps iff b < a |
| SimulatorProps.PushPop | Simulator/simulator.c:252-261 | pushl r then popl s sets s to r's old value and gives register 6 back its value |
| SimulatorProps.CallRet | Simulator/simulator.c:234-250 | call stores pc + 4 below `%esp` and continues at pc + imm + 4; a ret right after continues at pc + 4 and restores every register |
| SimulatorProps.RetHalts | Simulator/simulator.c:239-243 | ret with `%esp` at 1024 halts and changes nothing |
| SimulatorProps.RunMore | Simulator/simulator.c:92-95 | once a run has stopped, more steps change nothing |
| KernelImage.Ridx | Performance/kernels.c:37 | `RIDX(i, j, n) = i * n + j` indexes inside the image for every cell |
| KernelImage.RidxParts | Performance/kernels.c:37 | row and column are recovered from the index |
| KernelImage.RidxApart | Performance/kernels.c:37 | different cells have different indices |
| KernelComplex.Grey | Performance/kernels.c:37-39 | `(r + g + b) / 3` is the rounded-down mean and fits an `unsigned short` |
| KernelComplex.ComplexImageAt | Performance/kernels.c:37-47 | dest at `(dim-1-j, dim-1-i)` has all three channels equal to `(r + g + b) / 3` of src at (i, j) |
| KernelComplex.TargetApart | Performance/kernels.c:37-75 | different source cells go to different destination cells |
| KernelComplex.ComplexFromCells | Performance/kernels.c:33-49 | the destination cells of all source cells cover the image |
| KernelComplex.NaiveComplex | Performance/kernels.c:29-50 | naive_complex writes only dest, and dest becomes `ComplexImage` of src |
| KernelComplex.Complex | Performance/kernels.c:58-85 | the loop-blocked complex writes only dest and produces the same `ComplexImage` as naive_complex |
| KernelComplex.Strip | Performance/kernels.c:67-83 | one strip of source columns is written and no other destination cell changes |
| KernelComplex.Block | Performance/kernels.c:69-81 | one block of source cells is written and no other destination cell changes |
| KernelComplex.SixteenTiles | Performance/kernels.c:61 | every multiple of 16 tiles: the block side `dim >> 4` is positive and divides dim |
| KernelWindow.Neighbours | Performance/kernels.c:122-127 | `num_neighbors` is between 1 and 9 and is the window's in-bounds rows times its in-bounds columns |
| KernelWindow.MotionImageAt | Performance/kernels.c:157 | cell (i, j) of naive_motion's result is the window mean at (i, j) |
| KernelWindow.ComboExact | Performance/kernels.c:133-135 | the `(unsigned short)` cast loses nothing: each channel is the exact rounded-down mean of the window |
| KernelWindow.BoxSumBound | Performance/kernels.c:119-131 | each channel sum of an h x w block lies between 0 and h * w * 65535 |
| KernelWindow.CornerIsCopy | Performance/kernels.c:438 | the bottom-right cell's window is that cell alone, so its mean is the cell, which motion copies |
| KernelWindow.MotionUniform | Performance/kernels.c:114-158 | blurring a picture of one colour leaves it unchanged |
| KernelMotion.WeightedCombo | Performance/kernels.c:114-138 | weighted_combo returns the mean over the in-bounds cells of the window at (i, j) |
| KernelMotion.WindowRow | Performance/kernels.c:124-131 | the inner loop adds the in-bounds cells of one window row and counts them |
| KernelMotion.NaiveMotion | Performance/kernels.c:151-158 | naive_motion writes only dst, and dst becomes `MotionImage` of src |
| KernelMotion.WeightedCombo3x3 | Performance/kernels.c:163-226 | weighted_combo_3_3 equals weighted_combo whenever the window is whole |
| KernelMotion.WholeWindow | Performance/kernels.c:170-223 | the mean of a whole window is the nine cells, added row by row, divided by 9 |
| KernelMotion.BlockLoop | Performance/kernels.c:228-304 | the nested loops of the 3_2, 2_3 and 2_2 helpers add the h x w block row by row |
| KernelMotion.RowLoop | Performance/kernels.c:313-319 | a row loop adds the cells of row i from column j to its end |
| KernelMotion.ColumnLoop | Performance/kernels.c:335-341 | a column loop adds the cells of column j from row i to its end |
| KernelMotion.WeightedCombo3x2 | Performance/kernels.c:228-252 | three rows of two cells divided by 6; this is weighted_combo at the next-to-last column |
| KernelMotion.WeightedCombo2x3 | Performance/kernels.c:254-278 | two rows of three cells divided by 6; this is weighted_combo at the next-to-last row |
| KernelMotion.WeightedCombo2x2 | Performance/kernels.c:280-304 | four cells divided by 4; this is weighted_combo at (dim-2, dim-2) |
| KernelMotion.WeightedCombo1x2 | Performance/kernels.c:306-326 | the rest of row i divided by 2 however many cells it has; this is weighted_combo at (dim-1, dim-2) |
| KernelMotion.WeightedCombo2x1 | Performance/kernels.c:328-348 | the rest of column j divided by 2 however many cells it has; this is weighted_combo at (dim-2, dim-1) |
| KernelMotion.WeightedCombo1x3 | Performance/kernels.c:350-371 | three cells of a row divided by 3; this is weighted_combo in the last row |
| KernelMotion.WeightedCombo3x1 | Performance/kernels.c:373-394 | three cells of a column divided by 3; this is weighted_combo in the last column |
| KernelMotion.PartsCover | Performance/kernels.c:407-438 | motion's six parts, in its order, cover every cell of the image |
| KernelMotion.Motion | Performance/kernels.c:401-440 | for dim >= 2, motion writes only dst and produces the same `MotionImage` as naive_motion |
| KernelMotion.Interior | Performance/kernels.c:407-410 | the cells with a whole window get weighted_combo_3_3, and no other cell changes |
| KernelMotion.NextToLastRow | Performance/kernels.c:412-414 | row dim-2 left of column dim-2 gets weighted_combo_2_3 |
| KernelMotion.NextToLastColumn | Performance/kernels.c:416-418 | column dim-2 above row dim-2 gets weighted_combo_3_2 |
| KernelMotion.LastRow | Performance/kernels.c:420-422 | row dim-1 left of column dim-2 gets weighted_combo_1_3 |
| KernelMotion.LastColumn | Performance/kernels.c:424-426 | column dim-1 above row dim-2 gets weighted_combo_3_1 |
| KernelMotion.Corner | Performance/kernels.c:428-438 | the bottom-right 2 x 2 cells get weighted_combo_2_2, weighted_combo_1_2, weighted_combo_2_1 and a copy of the last pixel |

## Left out

**Allocator**
- The page provider (`mem_map`, `mem_unmap`, `mem_pagesize`) is not part of this model.
  - The page size is a constructor parameter: a power of two, at least 4096.
  - The page `mem_map` returns is a parameter of `Extend` and `MmMalloc`; `ExtendOk` and `MallocOk` require it to be clear of the heap.
  - `mm_free`'s result stands for the arguments it passes to `mem_unmap`.
- Words are unbounded non-negative integers. Only the `size_t` wrap of `pre_size - size` in set_allocated is written out (`SizeDiff`); no word of a well-formed heap gets near 2^64.
- AllocatorTheorems.MallocOk: requires a request of at least 1 byte. mm_malloc(0) builds a 16-byte block, too small to hold the two list links once it is freed.
- AllocatorTheorems.MallocOk: on a miss, requires the new page's block to hold the request. extend ignores its argument `s` and never sizes the page for it, and the model keeps that.
- Allocator.Heap.ReleaseWholePage: uses the corrected whole-page test, which reads the word just before the header, not the word mm.c:137 reads (see Findings).
- Allocator.Heap.MmFree: models mm_free with the corrected whole-page test, so it never unmaps a page that is not wholly free, as mm.c:137 can. mm_free as written is the function `ReleasedAsWritten`, not a method.
- AllocatorTheorems.FreeOk: is proved for the model's mm_free. For mm_free as written it holds only when the test does not misfire (FreeAsWrittenOk); on a misfire the program unmaps memory that is still in use.
- AllocatorTheorems.ReleasePageOk: states the corrected release step (unmap iff the block fills its page). The step as written also unmaps on a misfire (ReleasePageAsWrittenOk).
- AllocatorCodec.PageAlign: rounds down as `x - x % pagesize`. This equals the C mask form for every power-of-two page size, but the bitwise identity is proved only for 4096 (PageMaskModel).
- The zeroing of fresh pages is not modelled. The allocator never reads a word of a page that it has not written.

**Simulator**
- The program-loading code in `main` is not part of this model: file I/O, `load_file`, `print_instructions`, `error_exit`.
- printr's output is not modelled; printr changes no state.
- readr takes its value from an input sequence. When no input is left, the register keeps its value.
- The opcode numbers come from instruction.h, which is not part of this model. A table from numbers to operations stands for it, and a number the table does not name falls through to pc + 4.
- The registers and the stack start with unspecified contents (the C `malloc`s leave them uninitialised).
- Behaviour C leaves undefined ends the run as `Fault`: a register field of 17 or more, an `int` access outside bytes 0..1023, an instruction index past the program. Signed overflow wraps modulo 2^32.
- `int`s are stored little-endian, as on the x86 hosts the simulator targets.
- Simulator.Simulate: runs at most `fuel` steps and reports `Running` when they are used up. The C loop may run forever, and a bound is needed to state the run as a function.
- `exit(0)` in ret is the `Halt` outcome.
- SimulatorStep.Taken: keeps jl's test of bit 0x400 as written, so the model runs programs as the simulator does. The intended test is SimulatorProps.TakenIntended (see Findings).

**Kernels**
- The student struct and the `register_*_functions` harness are not part of this model; nor is performance (blocking, `always_inline`).
- src and dest must be different arrays, as the driver passes them. Where they alias, the C result depends on the write order, which is not modelled.
- `int` overflow of RIDX for images beyond 46340 x 46340 is not modelled; indices are unbounded integers.
- KernelComplex.Complex: requires `Tiles(dim)`, i.e. dim is 0 or `dim >> 4` is positive and divides dim (true for every multiple of 16). For other dims the C loops run forever (side 0) or index past the image.
- KernelMotion.Motion: requires dim >= 2. For dim 1 the C code calls the fixed-shape helpers at index -1.
- KernelMotion.WeightedCombo3x3: modelled as a function on the image's sequence, because it is straight-line arithmetic.
- The fixed-shape helpers are modelled only for windows that lie inside the image, which is how motion calls them.

## Findings

| source | as written | input that shows it | evidently intended | confidence | as-written member | corrected member |
|---|---|---|---|---|---|---|
| Allocator/mm.c:137 | the whole-page test reads the prolog three words before the payload (`new_ptr - 3 * 8`); for any block but the page's first, that word is the last payload word of the block before, which is user data | page size 4096: the first extend maps 8192 bytes at 4096, mm_malloc(16) gets A at 4128 (32 bytes), mm_malloc(8112) takes the rest, the free block B at 4160 (8128 bytes) reaching the terminator; A's owner stores 16 in A's second payload word, then frees B: the test says B fills the page, and mem_unmap gets (4128, 8160), starting at A's payload while A is allocated | read the word just before the header (`new_ptr - 2 * 8`), the prolog footer exactly when the block is its page's first | high (not executed) | AllocatorFindings.WholePageMisfire | AllocatorReads.WholePageExact |
| Simulator/simulator.c:203-204 | jl tests bit 0x400, which cmpl never sets, instead of the overflow flag 0x800 | `cmpl` with the first register holding 1 and the second holding INT_MIN, then jl: INT_MIN < 1, but the jump is not taken | SF xor OF with OF at 0x800, as the comment beside the test says | high (not executed) | SimulatorProps.JlMisses | SimulatorProps.TakenIntended, SimulatorProps.JlIntended |
