# Verified models of four C components of sysprog_hw

This project models four pieces of a systems-programming coursework repository in Dafny and proves properties about them:

- **`ThreadPool`** (`thread_pool.dfy`) models the task pool of `4/thread_pool.c` as a sequential state machine. Tasks and the pool are classes whose fields the operations update in place. Every region the C code runs under a mutex is one method, and a worker's loop body is split into its two locked regions. The pool invariant `Pool.Valid` ties three things together:
  - `task_queue_size` equals the number of tasks pushed and not yet retired;
  - the queue holds exactly the attached tasks that are still enqueued;
  - a finished task holds `function(arg)`.
- **`UserFs`** (`userfs.dfy`) models the in-memory file system of `3/userfs.c`:
  - `ufs_open` with and without `UFS_CREATE`, `ufs_write`, `ufs_close`, `ufs_delete` and `ufs_destroy`;
  - the global file list, with reference counts and files that are deleted but still open;
  - the file-descriptor table, which grows by one slot at a time and reuses the lowest NULL slot;
  - the block bookkeeping and quota of `ufs_write`.

  The globals form the class `FileSystem`, and the descriptor table is an array. Every operation keeps the invariant `Inv`:
  - `file_list` links exactly the allocated files, each once;
  - `file_descriptor_count` is the number of slots in use;
  - a file's `refs` is the number of descriptors open on it;
  - a deleted file stays allocated only while a descriptor is open on it;
  - no two live files share a name;
  - every file's blocks hold between 0 and `BLOCK_SIZE` bytes, and the blocks stay within `MAX_FILE_SIZE`;
  - every block carries a mark saying whether it starts an allocation, and a file's head block does. With `Written`, a write marks the first of its new blocks only.

  Eight defects of the code as written are modelled beside their corrections (see "## Findings").
- **`MergeSort`** (`merge_sort.dfy`) models the in-place top-down merge sort of `1/mergesort.c`, instantiated with `int_lt_cmp` on an array of C `int`s. `merge` and `mergesort` are methods on the array. They are proved against the functions `Merged` and `MergeSorted`, which are proved to yield a sorted permutation.
- **`KWayMerge`** (`kway_merge.dfy`) models the k-way merge loop at the end of `main` in `1/solution.c`. It repeatedly scans the heads of the per-file sorted arrays, emits the smallest and advances that array's cursor. The method returns the emitted numbers instead of writing them to `out.txt`. It is proved to emit the numbers in order, each input number exactly once.

## Model

| member | source | states |
|---|---|---|
| ThreadPool.Task.constructor | 4/thread_pool.c:206-221 | A new task holds its function and argument and is created, in no pool and not detached. |
| ThreadPool.Task.IsFinished | 4/thread_pool.c:223-226 | Reports whether `status` is IS_FINISHED, read without taking the task's lock. A task that reports finished is not running. |
| ThreadPool.Task.IsRunning | 4/thread_pool.c:228-231 | Reports whether `status` is IS_RUNNING, read without taking the task's lock. A task that reports running is not finished. |
| ThreadPool.FinishedHoldsResult | 4/thread_pool.c:72-89 | A pushed task that reports finished holds `function(arg)` as its result and is not detached. |
| ThreadPool.RunningNotQueued | 4/thread_pool.c:42-70 | A pushed task that reports running is no longer in the queue and still belongs to its pool. |
| ThreadPool.Task.Join | 4/thread_pool.c:233-257 | A task never pushed fails with TPOOL_ERR_TASK_NOT_PUSHED and changes nothing. A pushed and finished task hands back `function(arg)`. It leaves its pool, which loses exactly this task from its size and keeps its invariant. |
| ThreadPool.Task.Delete | 4/thread_pool.c:273-289 | Deletion succeeds exactly when the task is in no pool. Otherwise it fails with TPOOL_ERR_TASK_IN_POOL and releases nothing. |
| ThreadPool.Task.Detach | 4/thread_pool.c:293-313 | A task never pushed fails with TPOOL_ERR_TASK_NOT_PUSHED. An unfinished task is only marked detached. A finished task is retired from its pool, which loses it from its size, and it is released on the spot. |
| ThreadPool.Pool.constructor | 4/thread_pool.c:104-113 | A new pool has no threads, an empty queue, size 0 and is not deleted, and satisfies the pool invariant. |
| ThreadPool.Pool.New | 4/thread_pool.c:100-122 | Creation succeeds exactly when `0 < max_thread_count <= TPOOL_MAX_THREADS`; otherwise it returns TPOOL_ERR_INVALID_ARGUMENT and no pool. |
| ThreadPool.Pool.ThreadCount | 4/thread_pool.c:124-127 | The thread count never exceeds the pool's cap, which never exceeds TPOOL_MAX_THREADS. |
| ThreadPool.Pool.Push | 4/thread_pool.c:156-204 | A full pool (TPOOL_MAX_TASKS) refuses with TPOOL_ERR_TOO_MANY_TASKS and changes nothing. Otherwise the task joins the tail of the queue as enqueued, the size grows by one, and one worker is added exactly when there are more tasks than threads and fewer threads than the cap. The invariant is kept. |
| ThreadPool.Pool.Delete | 4/thread_pool.c:129-154 | Deletion succeeds exactly when every task is retired (size 0), and then the queue is provably empty. Otherwise it fails with TPOOL_ERR_HAS_TASKS and changes nothing. |
| ThreadPool.Pool.WorkerDequeue | 4/thread_pool.c:42-70 | A deleted pool makes the worker exit and an empty queue makes it wait, both with nothing changed. Otherwise the head of the queue is unlinked and marked running, and it stays counted in the size. |
| ThreadPool.Pool.WorkerFinish | 4/thread_pool.c:72-89 | The worker stores `function(arg)` as the result and marks the task finished. A detached task is then retired, which lowers the size by one, and released. |
| ThreadPool.QueueWithinSize | 4/thread_pool.c:159-179 | The queue never holds more tasks than the size counts, so a pool of size 0 has an empty queue. |
| MergeSort.IntLtCmp | 1/mergesort.c:99-101 | Where the subtraction cannot overflow, the sign of the result is the order of its arguments. |
| MergeSort.MergeFromPermutation | 1/mergesort.c:30-60 | What the three merge loops write from any pair of indices on is exactly the rest of the two runs, as a multiset. |
| MergeSort.MergeFromSorted | 1/mergesort.c:30-60 | Merging two sorted runs from any pair of indices on gives a sorted sequence. |
| MergeSort.MergedPermutation | 1/mergesort.c:7-66 | The merged range is a permutation of the two runs and has their combined length. |
| MergeSort.MergedSorted | 1/mergesort.c:7-66 | Merging two sorted runs yields a sorted range. |
| MergeSort.MergeFromSortedSplit | 1/mergesort.c:35-45 | Merging the two halves of a sorted run gives the run back. |
| MergeSort.CopyOut | 1/mergesort.c:18-24 | A `memcpy` loop fills a fresh temporary array with exactly the given slice. |
| MergeSort.Merge | 1/mergesort.c:7-66 | If an allocation fails, the result is -1 and the array is untouched. Otherwise the result is 0 and `[base, base + r)` is replaced by the merge of its two runs `[base, base + m)` and `[base + m, base + r)`, with everything outside it unchanged. |
| MergeSort.WriteMerged | 1/mergesort.c:26-60 | The three write-back loops leave exactly the merge of the two temporary arrays in the range, and nothing outside it changes. |
| MergeSort.MergeHeads | 1/mergesort.c:30-48 | The first loop stops with one run used up. It has written the merge's first `li + ri` elements, and what is still to write is the merge from the indices reached. |
| MergeSort.MergeStep | 1/mergesort.c:31-47 | One comparison writes the next element of the merge at `merged_index` and advances exactly one of the two indices. |
| MergeSort.CopyRest | 1/mergesort.c:50-60 | Copying the rest of one temporary array extends the written prefix of the merge to the end of that run. |
| MergeSort.MergeSortedSorted | 1/mergesort.c:69-97 | What mergesort leaves in a run is sorted. |
| MergeSort.MergeSortedPermutation | 1/mergesort.c:69-97 | What mergesort leaves in a run is a permutation of the run. |
| MergeSort.SortedMergeSorted | 1/mergesort.c:69-97 | Sorting an already sorted run leaves it unchanged. |
| MergeSort.HalfIsDivision | 1/mergesort.c:79 | The split point is `elements / 2`. |
| MergeSort.MergeSort | 1/mergesort.c:69-97 | The call returns 0 and replaces `[base, base + n)` by its sorted permutation (`MergeSorted`), and the rest of the array is unchanged. |
| KWayMerge.PickMin | 1/solution.c:163-173 | The chosen value is at most every remaining head. When it is below INT_MAX, it is the head of the chosen array, and every earlier array's head is strictly larger, so ties go to the lowest index. When it is INT_MAX, the index keeps its previous value. |
| KWayMerge.EmitMin | 1/solution.c:163-176 | One round emits the head of some non-exhausted array and advances only that cursor, by one. It keeps the merge invariant: the output is sorted, it is exactly what the cursors passed, and it is no larger than anything left. |
| KWayMerge.StepPreserves | 1/solution.c:165-176 | Emitting a smallest head and advancing its cursor keeps the merge invariant. |
| KWayMerge.TakenGrows | 1/solution.c:176 | Advancing one cursor by one adds exactly the head it was on to what has been taken. |
| KWayMerge.SomeLive | 1/solution.c:165-172 | While fewer than `total_numbers_count` numbers have been emitted, some array still has a head. |
| KWayMerge.SumBound | 1/solution.c:166 | The cursors never pass more numbers than the arrays hold. |
| KWayMerge.AllTaken | 1/solution.c:178-181 | When the cursors have passed `total_numbers_count` numbers, every input number has been taken. |
| KWayMerge.MergeRuns | 1/solution.c:156-182 | With sorted arrays, numbers below INT_MAX and a total above 0, the loop emits exactly `total_numbers_count` numbers. They are sorted and a permutation of the concatenated arrays. |
| UserFs.FirstLive | 3/userfs.c:84-94 | The lookup stops at a live file of the requested name, or at the end of the list. |
| UserFs.FirstLiveFirst | 3/userfs.c:84-94 | No live file of that name comes before where the lookup stops, so the first such file in list order is taken. |
| UserFs.FirstLiveAt | 3/userfs.c:377-385 | The lookup stops at `k` exactly when no live file of that name precedes `k` and `k` is such a file or the end. |
| UserFs.FirstMatchAsWritten | 3/userfs.c:160-171 | The lookup as written stops at the first file that has the name or is not deleted. |
| UserFs.LookupAsWrittenOpensOtherFile | 3/userfs.c:165 | The test as written opens a live file of another name, or a deleted file of the requested name, where the corrected lookup finds nothing. |
| UserFs.FirstFree | 3/userfs.c:144-153 | A new descriptor takes the lowest NULL slot, or a new slot at the end when none is NULL. |
| UserFs.FullTable | 3/userfs.c:127-141 | When every slot is in use there is no NULL slot, so the table grows. |
| UserFs.PlacedCounts | 3/userfs.c:137-151 | Placing a descriptor on a file uses one more slot, adds one descriptor on that file, and changes no other slot. |
| UserFs.ClearedCounts | 3/userfs.c:364-366 | Clearing a slot in use frees one slot and removes one descriptor from its file only. |
| UserFs.FdBoundAsWrittenOverruns | 3/userfs.c:223-226 | The bound test as written lets `fd == capacity` through, one past the table. The corrected test lets through exactly the indices of the table. |
| UserFs.WriteAsWrittenReachesNullSlot | 3/userfs.c:233 | As written, a write on a closed descriptor's NULL slot passes every test and dereferences NULL. |
| UserFs.NewBlocks | 3/userfs.c:240-243 | The corrected count is the fewest new blocks that, with the last block's free bytes, hold the write. |
| UserFs.NewBlocksAsWrittenOvershoots | 3/userfs.c:241-243 | The count as written is one block too many exactly when the overflow past the last block is a multiple of BLOCK_SIZE, and correct otherwise. |
| UserFs.QuotaAsWrittenRefusesExactFit | 3/userfs.c:245-248 | As written, a write of exactly MAX_FILE_SIZE bytes to an empty file is refused with UFS_ERR_NO_MEM, although the bytes fit. |
| UserFs.FilledStores | 3/userfs.c:280-298 | Pouring bytes into the blocks keeps every block within BLOCK_SIZE and stores all of them, or as many as there is room for. |
| UserFs.WriteStores | 3/userfs.c:250-298 | A write the quota admits stores every byte it is given, and the file's block count and quota stay consistent. |
| UserFs.WrittenAllocations | 3/userfs.c:250-277 | With the corrected linking, a write that fits the last block's free bytes makes no allocation and changes only how full the blocks are. Any other write adds exactly one allocation, which starts at its first new block. |
| UserFs.StartsMarks | 3/userfs.c:251-277 | The blocks of one `malloc` add exactly one allocation start, at the first of them. |
| UserFs.OccupiedAsWrittenStaysZero | 3/userfs.c:280-298 | As written, two writes of 512 bytes leave the file recording no bytes; the corrected write records 1024. |
| UserFs.LinkingAsWrittenOutside | 3/userfs.c:241-277 | As written, the linking stays inside the `malloc` of line 251 exactly when the write asks for at least one block. The second of two 10-byte writes to a new file asks for none, so its linking goes outside the allocation. |
| UserFs.FreedAsWrittenAt | 3/userfs.c:335-346 | As written, pass `j` of the freeing loop frees block `j`, and every pass after the list is used up frees the last block. |
| UserFs.FreeLoopAsWrittenFreesTwice | 3/userfs.c:335-346 | As written, `block_list` never becomes NULL, and the pass after the last block is freed frees it a second time. |
| UserFs.FreeLoopAsWrittenFreesInterior | 3/userfs.c:335-346 | As written, a write of two blocks makes one allocation, and the loop passes its second block, an address inside that allocation, to `free`. |
| UserFs.ReleaseBlocks | 3/userfs.c:335-346 | The corrected freeing frees each block's `memory` exactly once, in list order. It frees each allocation's array exactly once, through its first block, starting with the head block's. |
| UserFs.AllocBlocks | 3/userfs.c:253-268 | The allocation loop builds exactly the requested number of blocks, all with nothing occupied. |
| UserFs.CopyIn | 3/userfs.c:279-298 | The corrected copy loop leaves exactly the blocks of the pour `Filled`: full blocks are skipped and each block's `occupied` grows by what is copied into it. |
| UserFs.FileAt | 3/userfs.c:329 | A slot in use names an allocated file. |
| UserFs.CountWithinCapacity | 3/userfs.c:127-154 | `file_descriptor_count` stays between 0 and the capacity. |
| UserFs.LinkedAppend | 3/userfs.c:104-116 | Linking a new file at the tail keeps the list holding exactly the allocated files, each once. |
| UserFs.LinkedRemove | 3/userfs.c:348-359 | Unlinking a file leaves exactly the other files linked, each once. |
| UserFs.ShapedNew | 3/userfs.c:84-117 | A new file under a name no live file has keeps live names distinct. |
| UserFs.OpenNewKeeps | 3/userfs.c:97-154 | Creating and opening a new file keeps the file-system invariant. |
| UserFs.OpenExistingKeeps | 3/userfs.c:118-154 | Opening a live file again keeps the file-system invariant. |
| UserFs.DropKeeps | 3/userfs.c:327-366 | Closing a descriptor whose file stays allocated keeps the file-system invariant. |
| UserFs.DropLastKeeps | 3/userfs.c:327-366 | Closing the last descriptor of a deleted file, which frees and unlinks it, keeps the file-system invariant. |
| UserFs.DeleteKeeps | 3/userfs.c:394-429 | Deleting a live file (freed at once when no descriptor is open, marked deleted otherwise) keeps the file-system invariant. |
| UserFs.WriteKeeps | 3/userfs.c:250-298 | Changing only a file's blocks, within its quota, keeps the file-system invariant. |
| UserFs.FileSystem.constructor | 3/userfs.c:53-70 | The initial state has no files, an empty descriptor table and no error, and satisfies the invariant. |
| UserFs.FileSystem.FindLive | 3/userfs.c:84-94 | The lookup loop stops where `FirstLive` says. |
| UserFs.FileSystem.AddDescriptor | 3/userfs.c:127-154 | The descriptor takes the lowest NULL slot, or a new slot at the end. The count grows by one and no file changes. |
| UserFs.FileSystem.Open | 3/userfs.c:80-218 | Without UFS_CREATE, a name with no live file is UFS_ERR_NO_FILE with -1 and nothing changes. Otherwise the live file of that name (or, with UFS_CREATE, a new file at the list tail) gains one reference and a descriptor in the lowest free slot, which is returned. Only the call without UFS_CREATE sets the error code, to UFS_ERR_NO_ERR. The invariant is kept. |
| UserFs.FileSystem.OpenNew | 3/userfs.c:97-154 | A name with no live file gets a new file with one reference at the list tail, under an address not in use, and a descriptor on it. The invariant is kept. |
| UserFs.FileSystem.OpenExisting | 3/userfs.c:118-154 | The live file gains exactly one reference and a descriptor in the lowest free slot, and the list does not change. |
| UserFs.FileSystem.Close | 3/userfs.c:315-371 | A descriptor outside the table or on a NULL slot is UFS_ERR_NO_FILE with nothing changed. Otherwise the slot becomes NULL and the count drops by one. The file loses a reference, and a deleted file losing its last one is unlinked and freed. The result is 0 and the invariant is kept. |
| UserFs.FileSystem.DropSlot | 3/userfs.c:327-366 | When the file stays allocated, it loses one reference and the slot becomes NULL. |
| UserFs.FileSystem.DropLastSlot | 3/userfs.c:327-366 | The last descriptor of a deleted file: the file is unlinked and freed, and the slot becomes NULL. |
| UserFs.FileSystem.Delete | 3/userfs.c:373-434 | A name with no live file is UFS_ERR_NO_FILE with nothing changed. Otherwise a file with no descriptor open is unlinked and freed, and one with descriptors is marked deleted and stays. Either way the result is 0 and the invariant is kept. |
| UserFs.FileSystem.Write | 3/userfs.c:220-302 | The outcome depends on the checks, in this order. A descriptor outside the table is UFS_ERR_NO_FILE. A write of 0 bytes then succeeds with nothing changed. A NULL slot is UFS_ERR_NO_FILE. A write beyond MAX_FILE_SIZE is UFS_ERR_NO_MEM with nothing changed. Otherwise the file gains exactly the blocks it needs, in one allocation and only when it needs any. It records every byte, and the call returns 0. |
| UserFs.FileSystem.Append | 3/userfs.c:250-298 | The file on the slot becomes `Written(f, size)`, whose bytes grow by exactly `size`. The new blocks are allocated and linked only when there are any. Nothing else changes. |
| UserFs.FileSystem.Destroy | 3/userfs.c:436-481 | Every listed file, the memory of each of its blocks and every open descriptor are released exactly once. No file or descriptor remains, and the error code and address counter are unchanged. |

## Left out

- Concurrency in the thread pool: mutexes, condition variables and thread creation are not modelled. Each locked region is one atomic method, and an interleaving is a sequence of these calls.
- Task.Join: the blocking wait on `is_done` is a precondition (the task is finished) rather than a loop; the step modelled is the locked region after the wait.
- Pool.Push: requires that the task is in no pool and that the pool is not deleted. The source checks neither; pushing an attached task relinks its `next_task` and corrupts the queue, and a deleted pool has been freed.
- Pool.Push: takes `realloc` and `pthread_create` to succeed, so the thread count grows whenever the source's condition holds.
- `thread_task_timed_join` is only a stub in the source (TPOOL_ERR_NOT_IMPLEMENTED) and is not modelled; nor is the joining of worker threads and the freeing of memory in `thread_pool_delete`.
- ThreadPool: `thread_pool.h` is not part of this model. The values TPOOL_MAX_THREADS = 20 and TPOOL_MAX_TASKS = 100000 are assumed, and the proofs use them only as caps.
- Task results and arguments are `int` and the task function is `int -> int`, in place of `void *` and `thread_task_f`.
- MergeSort: the element size and comparator are fixed to a C `int` array with `int_lt_cmp`. Byte-wise `memcpy` of arbitrary elements is not modelled.
- IntLtCmp: requires the difference of its arguments to fit a C `int`, because the C subtraction is undefined on overflow. MergeSort and Merge require this of every pair of elements they may compare.
- MergeSort: takes every allocation in the nested merges to succeed. The source ignores the status of the two recursive calls, so their failures would not be reported anyway. The memory leak when only one `malloc` in `merge` fails is not modelled.
- `yield_on_time` (the coroutine yield after each merge) and the timing parameters of `mergesort` are not modelled.
- MergeRuns: requires every array sorted, every number below INT_MAX and a total above 0. When all remaining heads equal INT_MAX, the loop advances the cursor index left over from the previous round. It still emits INT_MAX, the right value, since every remaining number is INT_MAX; only the cursor bookkeeping goes stale. With a total of 0 the exit test `count_index == total_numbers_count` runs on every pass but never holds, and with no input files the loop also writes `pos[0]` out of bounds. Neither case is modelled.
- The reading, sorting and coroutine scheduling that precede the k-way merge, the `fprintf` to `out.txt` (the emitted numbers are the method's result), `calloc`, `fopen` and `free`.
- `ufs_read` is a stub in the source and is not modelled.
- The byte contents of blocks and the `strncpy` of the data are not modelled; a block is represented by its `occupied` count only.
- `malloc`, `realloc` and `free` in userfs, and their failure, are not modelled. A freed file is simply no longer in the state, and freeing a file's blocks is modelled by which blocks' `memory` and which allocations are freed. Addresses of `struct file` objects are handed out by a counter, `nextId`.
- ReleaseBlocks: states which pointers are freed, not when. The C loop must free an allocation only after its cursor has left the allocation's last block.
- FileSystem.Write: the model takes the quota test of line 245 over mathematical integers. In the source, `blocks_count`, `new_blocks_count` and `BLOCK_SIZE` are C `int`s. So `(blocks_count + new_blocks_count) * BLOCK_SIZE` overflows, which is undefined behaviour, once the sum reaches 2^22 blocks: a write of about 2 GiB, e.g. 2147483136 bytes to a new file. Where that product usually wraps negative, the source lets the write through, whereas the model refuses it with UFS_ERR_NO_MEM. The truncation of `new_blocks_count` itself, above 2^31 blocks, is not modelled either. The invariant that a file's blocks stay within MAX_FILE_SIZE holds for the mathematical test only.
- FileSystem.Write returns 0 on success, as the source does, not the number of bytes written.
- FileSystem.Open: `create` stands for the test `flags == UFS_CREATE` (line 80). Flags that combine UFS_CREATE with other bits fail that equality, so they take the branch without creation, as in the source.
- FileSystem.Open: with UFS_CREATE, the source never sets `ufs_error_code`, and the model leaves it as it was. Without UFS_CREATE, the model sets UFS_ERR_NO_ERR at the start of the call rather than the end; nothing in between reads it, so the final state is the same. Close and Write likewise set the error code before changing the file state.
- FileSystem.Destroy: the source leaves `file_list` and `file_descriptors` pointing at freed memory and the counters as they were; the model ends with no files, an empty list and an empty table instead, with `ufs_error_code` and the address counter as they were.
- The field `blocks_count` of a file created by `ufs_open` is never initialised in the source (nor are `block_list`, `last_block` and `is_deleted`); the model takes them to start at 0, NULL and not deleted.

## Findings

| source | as written | input that shows it | evidently intended | confidence | as-written member | corrected member |
|---|---|---|---|---|---|---|
| 3/userfs.c:165 | The lookup without UFS_CREATE matches `strcmp(...) == 0 \|\| is_deleted == 0`. | One live file "a"; `ufs_open("b", 0)` opens "a". A deleted file "b" would also be found. | `&&`, as in lines 88 and 379: a live file of that name. | high, not executed | UserFs.LookupAsWrittenOpensOtherFile | UserFs.FirstLive |
| 3/userfs.c:223 | `fd > file_descriptor_capacity` lets `fd == capacity` through (also line 317), and the next access reads `file_descriptors[capacity]`. | A table of capacity 1 and `ufs_close(1)`. | `fd >= file_descriptor_capacity`. | high, not executed | UserFs.FdBoundAsWrittenOverruns | UserFs.FileSystem.Close |
| 3/userfs.c:233 | `ufs_write` dereferences `file_descriptors[fd]` without checking for NULL. | Open "a" (fd 0), close 0, then write 1 byte to fd 0. | UFS_ERR_NO_FILE for a NULL slot, as in `ufs_close`. | high, not executed | UserFs.WriteAsWrittenReachesNullSlot | UserFs.FileSystem.Write |
| 3/userfs.c:335-346 | The freeing loop (also lines 402-413 and 447-458) frees the last block and leaves `block_list` on it. The next pass reads `next` from the freed block and frees it again: a use after free and a double free. | Delete a file holding one block while no descriptor is open on it. | End with `block_list` NULL once the last block is freed. | high, not executed | UserFs.FreeLoopAsWrittenFreesTwice | UserFs.ReleaseBlocks |
| 3/userfs.c:340 | The loop frees every block on its own, although one write's blocks share one `malloc` (line 251). Any block after the first of a write is an address inside an allocation, and each block's `memory` (line 254) is never freed. | Delete a file whose one write made two blocks: the second pass frees block 1, inside the allocation block 0 began. | Free each block's `memory` and each write's allocation once, through its first block. | high, not executed | UserFs.FreeLoopAsWrittenFreesInterior | UserFs.ReleaseBlocks |
| 3/userfs.c:280-298 | The copy loop never adds to `occupied`, so every chunk goes to offset 0 of the head block, and its skip step would move the file's own `block_list` head. | Two writes of 512 bytes to a new file leave every block with `occupied == 0`. | Walk a local cursor and add what is copied to `occupied`. | high, not executed | UserFs.OccupiedAsWrittenStaysZero | UserFs.CopyIn |
| 3/userfs.c:242 | `(size - unused) / BLOCK_SIZE + 1` asks for one block too many when the overflow is a multiple of BLOCK_SIZE. | An empty file and a write of MAX_FILE_SIZE bytes: refused with UFS_ERR_NO_MEM. | Round up: `(size - unused + BLOCK_SIZE - 1) / BLOCK_SIZE`. | high, not executed | UserFs.NewBlocksAsWrittenOvershoots | UserFs.NewBlocks |
| 3/userfs.c:251-277 | The new blocks are allocated and linked even when `new_blocks_count` is 0. The linking then writes `new_blocks[0]` of an empty allocation (lines 273-274) and sets `last_block` to `&new_blocks[-1]` (line 277). | Two writes of 10 bytes to a new file: the second finds 512 free bytes in the last block and asks for no block. | Allocate and link only when `new_blocks_count > 0`. | high, not executed | UserFs.LinkingAsWrittenOutside | UserFs.FileSystem.Append |
