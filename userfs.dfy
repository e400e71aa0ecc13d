/**
 * The in-memory file system of 3/userfs.c: a list of files with reference
 * counts and tombstones, a table of file descriptors that grows one slot at a
 * time and reuses the lowest free slot, and the block quota of `ufs_write`.
 *
 * A `struct file` is a `File` value stored under a `FileId`, which stands for
 * its address: `files` holds the files still allocated and `list` is the
 * order of `file_list`. A descriptor slot holds the id of the file it is open
 * on, or `None` for NULL. The contents of a block are abstracted to how many
 * of its bytes are occupied.
 *
 * The operations follow the corrected code listed in README's findings:
 * the `&&` lookup of lines 88/379 in both branches of `ufs_open`, the
 * `fd >= capacity` bound, a NULL check before `ufs_write` dereferences a
 * slot, new blocks allocated and linked only when a write needs some, a
 * block-freeing loop that ends and frees each allocation once, a copy loop
 * that records what it writes, and a block count that is exactly what the
 * bytes need. The code as written is modelled beside each correction (the
 * `...AsWritten` members).
 */
module UserFs {

  /** BLOCK_SIZE. */
  const BlockSize: int := 512
  /** MAX_FILE_SIZE: 100 MiB. */
  const MaxFileSize: int := 1024 * 1024 * 100

  datatype Option<T> = None | Some(value: T)

  /** The enum ufs_error_code values the modelled operations set. */
  datatype ErrorCode = NoErr | NoFile | NoMem

  /** The address of a `struct file`. */
  type FileId = nat

  /**
   * struct file. `blocks` is the block list, head first, each block given by
   * its `occupied` count; its last element is `last_block`. The blocks of one
   * write share one `malloc` (line 251): `firsts[i]` says whether block `i`
   * is the first of its allocation, the address `malloc` returned.
   */
  datatype File = File(name: string, refs: int, isDeleted: bool, blocks: seq<int>, blocksCount: int, firsts: seq<bool>)

  /** The file a fresh `ufs_open(name, UFS_CREATE)` allocates: one reference, no blocks. */
  function NewFile(name: string): File {
    File(name, 1, false, [], 0, [])
  }

  // ---------------------------------------------------------------------
  // Looking a name up in the file list
  // ---------------------------------------------------------------------

  /** The test of lines 88 and 379: the name matches and the file is not deleted. */
  predicate Matches(f: File, name: string) {
    f.name == name && !f.isDeleted
  }

  predicate InFiles(files: map<FileId, File>, list: seq<FileId>) {
    forall i :: 0 <= i < |list| ==> list[i] in files
  }

  /**
   * Where the lookup loop stops: the position of the first live file with
   * this name, or `|list|` when the loop runs off the end.
   */
  function FirstLive(files: map<FileId, File>, list: seq<FileId>, name: string): (k: nat)
    requires InFiles(files, list)
    ensures k <= |list|
    ensures k < |list| ==> Matches(files[list[k]], name)
    decreases |list|
  {
    if |list| == 0 then 0
    else if Matches(files[list[0]], name) then 0
    else 1 + FirstLive(files, list[1..], name)
  }

  /** No live file of that name comes before the one the lookup stops at. */
  lemma {:induction false} FirstLiveFirst(files: map<FileId, File>, list: seq<FileId>, name: string)
    requires InFiles(files, list)
    ensures forall j :: 0 <= j < FirstLive(files, list, name) ==> !Matches(files[list[j]], name)
    decreases |list|
  {
    if |list| > 0 && !Matches(files[list[0]], name) {
      FirstLiveFirst(files, list[1..], name);
      forall j | 0 < j < FirstLive(files, list, name) ensures !Matches(files[list[j]], name) {
        assert list[j] == list[1..][j - 1];
      }
    }
  }

  /** The lookup stops at `k` exactly when no live file of that name comes before `k` and `k` is one or the end. */
  lemma {:induction false} FirstLiveAt(files: map<FileId, File>, list: seq<FileId>, name: string, k: nat)
    requires InFiles(files, list) && k <= |list|
    requires forall j :: 0 <= j < k ==> !Matches(files[list[j]], name)
    requires k == |list| || Matches(files[list[k]], name)
    ensures FirstLive(files, list, name) == k
    decreases |list|
  {
    if |list| > 0 && k > 0 {
      forall j | 0 <= j < k - 1 ensures !Matches(files[list[1..][j]], name) {
        assert list[1..][j] == list[j + 1];
      }
      FirstLiveAt(files, list[1..], name, k - 1);
    }
  }

  /** The test of line 165 as written: `||` in place of `&&`. */
  predicate MatchesAsWritten(f: File, name: string) {
    f.name == name || !f.isDeleted
  }

  /** Where the lookup loop of the open-without-create branch stops, as written. */
  function FirstMatchAsWritten(files: map<FileId, File>, list: seq<FileId>, name: string): (k: nat)
    requires InFiles(files, list)
    ensures k <= |list|
    ensures k < |list| ==> MatchesAsWritten(files[list[k]], name)
    ensures forall j :: 0 <= j < k ==> !MatchesAsWritten(files[list[j]], name)
    decreases |list|
  {
    if |list| == 0 then 0
    else if MatchesAsWritten(files[list[0]], name) then 0
    else 1 + FirstMatchAsWritten(files, list[1..], name)
  }

  /**
   * With one live file "a", opening "b" without UFS_CREATE finds "a" as
   * written, where the corrected lookup finds nothing (UFS_ERR_NO_FILE).
   * A deleted file of the requested name would be found as well.
   */
  lemma LookupAsWrittenOpensOtherFile()
    ensures var files := map[0 := NewFile("a")];
      FirstMatchAsWritten(files, [0], "b") == 0 && files[0].name != "b" &&
      FirstLive(files, [0], "b") == 1
    ensures var files := map[0 := NewFile("b").(isDeleted := true)];
      FirstMatchAsWritten(files, [0], "b") == 0 && files[0].isDeleted &&
      FirstLive(files, [0], "b") == 1
  {
  }

  // ---------------------------------------------------------------------
  // The descriptor table
  // ---------------------------------------------------------------------

  /** How many of the first `n` slots hold `x`. */
  function Count(slots: seq<Option<FileId>>, x: Option<FileId>, n: nat): (c: nat)
    requires n <= |slots|
    ensures c <= n
  {
    if n == 0 then 0 else Count(slots, x, n - 1) + (if slots[n - 1] == x then 1 else 0)
  }

  /** How many slots hold a descriptor. */
  function Used(slots: seq<Option<FileId>>): int {
    |slots| - Count(slots, None, |slots|)
  }

  /** How many slots hold a descriptor open on `id`. */
  function Occ(slots: seq<Option<FileId>>, id: FileId): nat {
    Count(slots, Some(id), |slots|)
  }

  /** The slot a new descriptor takes: the lowest NULL one, or a new slot at the end. */
  function FirstFree(slots: seq<Option<FileId>>): (k: nat)
    ensures k <= |slots|
    ensures k < |slots| ==> slots[k] == None
    ensures forall j :: 0 <= j < k ==> slots[j].Some?
    decreases |slots|
  {
    if |slots| == 0 then 0
    else if slots[0] == None then 0
    else 1 + FirstFree(slots[1..])
  }

  /** The table after a descriptor on `id` lands in slot `k` (`k == |slots|` grows it by one). */
  function Placed(slots: seq<Option<FileId>>, k: nat, id: FileId): seq<Option<FileId>>
    requires k <= |slots|
  {
    if k < |slots| then slots[k := Some(id)] else slots + [Some(id)]
  }

  /** Changing one slot moves one unit of count from its old contents to its new ones. */
  lemma {:induction false} CountUpdate(slots: seq<Option<FileId>>, k: int, v: Option<FileId>, x: Option<FileId>, n: nat)
    requires 0 <= k < |slots| && n <= |slots|
    ensures Count(slots[k := v], x, n) + (if k < n && slots[k] == x then 1 else 0) ==
      Count(slots, x, n) + (if k < n && v == x then 1 else 0)
    decreases n
  {
    if n > 0 {
      CountUpdate(slots, k, v, x, n - 1);
    }
  }

  /** Counts over slots that agree agree. */
  lemma {:induction false} CountSame(s: seq<Option<FileId>>, t: seq<Option<FileId>>, x: Option<FileId>, n: nat)
    requires n <= |s| && n <= |t| && forall i :: 0 <= i < n ==> s[i] == t[i]
    ensures Count(s, x, n) == Count(t, x, n)
    decreases n
  {
    if n > 0 {
      CountSame(s, t, x, n - 1);
    }
  }

  lemma CountAppend(s: seq<Option<FileId>>, v: Option<FileId>, x: Option<FileId>)
    ensures Count(s + [v], x, |s| + 1) == Count(s, x, |s|) + (if v == x then 1 else 0)
  {
    CountSame(s + [v], s, x, |s|);
  }

  lemma {:induction false} CountZero(s: seq<Option<FileId>>, x: Option<FileId>, n: nat)
    requires n <= |s| && Count(s, x, n) == 0
    ensures forall i :: 0 <= i < n ==> s[i] != x
    decreases n
  {
    if n > 0 {
      CountZero(s, x, n - 1);
    }
  }

  lemma {:induction false} CountAbsent(s: seq<Option<FileId>>, x: Option<FileId>, n: nat)
    requires n <= |s| && forall i :: 0 <= i < n ==> s[i] != x
    ensures Count(s, x, n) == 0
    decreases n
  {
    if n > 0 {
      CountAbsent(s, x, n - 1);
    }
  }

  lemma {:induction false} CountFind(s: seq<Option<FileId>>, x: Option<FileId>, n: nat) returns (i: int)
    requires n <= |s| && Count(s, x, n) > 0
    ensures 0 <= i < n && s[i] == x
    decreases n
  {
    if s[n - 1] == x {
      i := n - 1;
    } else {
      i := CountFind(s, x, n - 1);
    }
  }

  /** A table in which every slot is in use has no free slot below its end. */
  lemma FullTable(slots: seq<Option<FileId>>)
    requires Used(slots) == |slots|
    ensures FirstFree(slots) == |slots|
  {
    CountZero(slots, None, |slots|);
  }

  /** Placing a descriptor in the first free slot uses one more slot, one more on `id`. */
  lemma PlacedCounts(slots: seq<Option<FileId>>, k: nat, id: FileId)
    requires k == FirstFree(slots)
    ensures Used(Placed(slots, k, id)) == Used(slots) + 1
    ensures forall x :: Occ(Placed(slots, k, id), x) == Occ(slots, x) + (if x == id then 1 else 0)
    ensures forall j :: 0 <= j < |Placed(slots, k, id)| ==>
      Placed(slots, k, id)[j] == (if j == k then Some(id) else slots[j])
  {
    if k < |slots| {
      CountUpdate(slots, k, Some(id), None, |slots|);
      forall x ensures Occ(Placed(slots, k, id), x) == Occ(slots, x) + (if x == id then 1 else 0) {
        CountUpdate(slots, k, Some(id), Some(x), |slots|);
      }
    } else {
      CountAppend(slots, Some(id), None);
      forall x ensures Occ(Placed(slots, k, id), x) == Occ(slots, x) + (if x == id then 1 else 0) {
        CountAppend(slots, Some(id), Some(x));
      }
    }
  }

  /** Clearing an occupied slot frees one slot and one descriptor on its file. */
  lemma ClearedCounts(slots: seq<Option<FileId>>, fd: int)
    requires 0 <= fd < |slots| && slots[fd].Some?
    ensures Used(slots[fd := None]) == Used(slots) - 1
    ensures forall x :: Occ(slots[fd := None], x) == Occ(slots, x) - (if x == slots[fd].value then 1 else 0)
  {
    CountUpdate(slots, fd, None, None, |slots|);
    forall x ensures Occ(slots[fd := None], x) == Occ(slots, x) - (if x == slots[fd].value then 1 else 0) {
      CountUpdate(slots, fd, None, Some(x), |slots|);
    }
  }

  /** A file with no descriptor on it appears in no slot. */
  lemma NoOcc(slots: seq<Option<FileId>>, id: FileId)
    requires Occ(slots, id) == 0
    ensures forall j :: 0 <= j < |slots| ==> slots[j] != Some(id)
  {
    CountZero(slots, Some(id), |slots|);
  }

  /** The fd test of lines 223 and 317 as written: `fd > capacity || fd < 0`. */
  predicate FdRejectedAsWritten(fd: int, capacity: int) {
    fd > capacity || fd < 0
  }

  /** The corrected test: the descriptor must index the table. */
  predicate FdRejected(fd: int, capacity: int) {
    fd >= capacity || fd < 0
  }

  /**
   * As written, `fd == capacity` passes the test and the next statement reads
   * `file_descriptors[capacity]`, one slot past the table; the corrected test
   * lets through exactly the indices of the table.
   */
  lemma FdBoundAsWrittenOverruns(capacity: nat)
    ensures !FdRejectedAsWritten(capacity, capacity) && !(capacity < capacity)
    ensures forall fd :: !FdRejected(fd, capacity) <==> 0 <= fd < capacity
  {
  }

  /**
   * `ufs_write` as written goes on to `file_descriptors[fd]->file` once the
   * fd and size tests pass, without checking for NULL: after the only
   * descriptor of a table is closed its slot is NULL and a write to it
   * dereferences NULL.
   */
  lemma WriteAsWrittenReachesNullSlot()
    ensures var slots: seq<Option<FileId>> := [None];
      !FdRejectedAsWritten(0, |slots|) && 0 < |slots| && slots[0] == None
  {
  }

  // ---------------------------------------------------------------------
  // Blocks
  // ---------------------------------------------------------------------

  /** Every block holds between 0 and BLOCK_SIZE bytes. */
  predicate BlocksOk(blocks: seq<int>) {
    forall i :: 0 <= i < |blocks| ==> 0 <= blocks[i] <= BlockSize
  }

  /** The bytes a block list holds. */
  function Bytes(blocks: seq<int>): int {
    if |blocks| == 0 then 0 else blocks[0] + Bytes(blocks[1..])
  }

  /** The unoccupied bytes of a block list. */
  function Room(blocks: seq<int>): int {
    BlockSize * |blocks| - Bytes(blocks)
  }

  /** `unused_memory_in_last_block`: 0 when there is no last block. */
  function LastFree(blocks: seq<int>): int
    requires BlocksOk(blocks)
  {
    if |blocks| == 0 then 0 else BlockSize - blocks[|blocks| - 1]
  }

  /** `new_blocks` empty blocks, as the allocation loop of lines 253-267 builds them. */
  function Empty(n: nat): seq<int> {
    seq(n, _ => 0)
  }

  /**
   * `new_blocks_count` as written: one more than the whole blocks in what
   * does not fit the last block.
   */
  function NewBlocksAsWritten(free: int, size: int): int {
    if size > free then (size - free) / BlockSize + 1 else 0
  }

  /** The corrected count: the fewest new blocks that hold what does not fit the last block. */
  function NewBlocks(free: int, size: int): (nb: int)
    requires 0 <= free && 0 <= size
    ensures 0 <= nb && size <= free + nb * BlockSize
    ensures nb > 0 ==> free + (nb - 1) * BlockSize < size
    ensures size <= free ==> nb == 0
  {
    if size > free then (size - free + BlockSize - 1) / BlockSize else 0
  }

  /**
   * The formula as written asks for one block too many exactly when what
   * does not fit the last block is a multiple of BLOCK_SIZE, and agrees with
   * the corrected count otherwise.
   */
  lemma NewBlocksAsWrittenOvershoots(free: int, size: int)
    requires 0 <= free && 0 <= size
    ensures NewBlocksAsWritten(free, size) ==
      NewBlocks(free, size) + (if size > free && (size - free) % BlockSize == 0 then 1 else 0)
  {
    if size > free {
      var d := size - free;
      assert d == (d / BlockSize) * BlockSize + d % BlockSize;
      if d % BlockSize == 0 {
        assert (d + BlockSize - 1) / BlockSize == d / BlockSize;
      } else {
        assert (d + BlockSize - 1) / BlockSize == d / BlockSize + 1;
      }
    }
  }

  /**
   * The overshoot reaches the quota: writing MAX_FILE_SIZE bytes to an empty
   * file is refused with UFS_ERR_NO_MEM as written, although the bytes fit
   * in MAX_FILE_SIZE / BLOCK_SIZE blocks.
   */
  lemma QuotaAsWrittenRefusesExactFit()
    ensures NewBlocksAsWritten(0, MaxFileSize) * BlockSize > MaxFileSize
    ensures NewBlocks(0, MaxFileSize) * BlockSize == MaxFileSize
  {
  }

  /**
   * The copy loop with the corrections: pour `n` bytes into the blocks from
   * the head on, skipping full blocks, filling each block's unused part in
   * turn and recording it in `occupied`.
   */
  function Filled(blocks: seq<int>, n: int): (r: seq<int>)
    requires BlocksOk(blocks) && 0 <= n
    ensures |r| == |blocks|
    decreases |blocks|
  {
    if n == 0 || |blocks| == 0 then blocks
    else
      var unused := BlockSize - blocks[0];
      var chunk := if n < unused then n else unused;
      [blocks[0] + chunk] + Filled(blocks[1..], n - chunk)
  }

  lemma {:induction false} RoomNonNegative(blocks: seq<int>)
    requires BlocksOk(blocks)
    ensures 0 <= Room(blocks)
    decreases |blocks|
  {
    if |blocks| > 0 {
      RoomNonNegative(blocks[1..]);
    }
  }

  /**
   * Pouring `n` bytes keeps every block within BLOCK_SIZE and stores
   * `n` bytes, or as many as there is room for.
   */
  lemma {:induction false} FilledStores(blocks: seq<int>, n: int)
    requires BlocksOk(blocks) && 0 <= n
    ensures BlocksOk(Filled(blocks, n))
    ensures Bytes(Filled(blocks, n)) == Bytes(blocks) + (if n < Room(blocks) then n else Room(blocks))
    decreases |blocks|
  {
    RoomNonNegative(blocks);
    if n > 0 && |blocks| > 0 {
      var rest := blocks[1..];
      var unused := BlockSize - blocks[0];
      var chunk := if n < unused then n else unused;
      var r := Filled(blocks, n);
      FilledStores(rest, n - chunk);
      RoomNonNegative(rest);
      assert r[0] == blocks[0] + chunk && r[1..] == Filled(rest, n - chunk);
      assert BlocksOk(r) by {
        forall i | 0 <= i < |r| ensures 0 <= r[i] <= BlockSize {
          if i > 0 {
            assert r[i] == r[1..][i - 1];
          }
        }
      }
    }
  }

  lemma {:induction false} RoomAppend(s: seq<int>, t: seq<int>)
    ensures Room(s + t) == Room(s) + Room(t)
    decreases |s|
  {
    if |s| > 0 {
      assert (s + t)[1..] == s[1..] + t;
      RoomAppend(s[1..], t);
    } else {
      assert s + t == t;
    }
  }

  lemma {:induction false} RoomEmpty(n: nat)
    ensures Room(Empty(n)) == BlockSize * n
    decreases n
  {
    if n > 0 {
      assert Empty(n)[1..] == Empty(n - 1);
      RoomEmpty(n - 1);
    }
  }

  /** There is at least as much room in a block list as in its last block. */
  lemma {:induction false} RoomCoversLast(blocks: seq<int>)
    requires BlocksOk(blocks)
    ensures LastFree(blocks) <= Room(blocks)
    decreases |blocks|
  {
    if |blocks| > 1 {
      RoomCoversLast(blocks[1..]);
      assert blocks[1..][|blocks| - 2] == blocks[|blocks| - 1];
    } else if |blocks| == 1 {
      assert Bytes(blocks[1..]) == 0;
    }
  }

  /** The marks of the `n` blocks one `malloc` makes: the first starts the allocation. */
  function Marks(n: nat): seq<bool> {
    seq(n, i => i == 0)
  }

  /** The blocks that start an allocation, in list order. */
  function Starts(firsts: seq<bool>): seq<int> {
    if |firsts| == 0 then []
    else Starts(firsts[..|firsts| - 1]) + (if firsts[|firsts| - 1] then [|firsts| - 1] else [])
  }

  /** The blocks of one more allocation add exactly one start, its first block. */
  lemma {:induction false} StartsMarks(s: seq<bool>, n: nat)
    requires n > 0
    ensures Starts(s + Marks(n)) == Starts(s) + [|s|]
    decreases n
  {
    var t := s + Marks(n);
    if n == 1 {
      assert t[..|t| - 1] == s;
    } else {
      assert t[..|t| - 1] == s + Marks(n - 1);
      StartsMarks(s, n - 1);
    }
  }

  /**
   * A file's block bookkeeping: counts within BLOCK_SIZE, `blocks_count`
   * blocks, within the quota, and a head block that starts an allocation.
   */
  predicate FileOk(f: File) {
    BlocksOk(f.blocks) && |f.blocks| == f.blocksCount && f.blocksCount * BlockSize <= MaxFileSize &&
    |f.firsts| == |f.blocks| && (|f.blocks| > 0 ==> f.firsts[0])
  }

  /**
   * The file after a write of `size > 0` bytes that the quota admits. With
   * the correction of lines 251-277, a write that needs no new block makes
   * no allocation and links nothing.
   */
  function Written(f: File, size: int): File
    requires FileOk(f) && 0 <= size
  {
    var nb := NewBlocks(LastFree(f.blocks), size);
    f.(blocksCount := f.blocksCount + nb, blocks := Filled(f.blocks + Empty(nb), size),
       firsts := f.firsts + Marks(nb))
  }

  /**
   * A write that passes the quota stores every byte it is given, and the
   * file's bookkeeping stays consistent.
   */
  lemma WriteStores(f: File, size: int)
    requires FileOk(f) && 0 <= size
    requires (f.blocksCount + NewBlocks(LastFree(f.blocks), size)) * BlockSize <= MaxFileSize
    ensures FileOk(Written(f, size))
    ensures Bytes(Written(f, size).blocks) == Bytes(f.blocks) + size
  {
    var nb := NewBlocks(LastFree(f.blocks), size);
    var grown := f.blocks + Empty(nb);
    assert BlocksOk(grown) by {
      forall i | 0 <= i < |grown| ensures 0 <= grown[i] <= BlockSize {
        if i >= |f.blocks| {
          assert grown[i] == Empty(nb)[i - |f.blocks|];
        }
      }
    }
    RoomAppend(f.blocks, Empty(nb));
    RoomEmpty(nb);
    RoomCoversLast(f.blocks);
    FilledStores(grown, size);
    assert Room(grown) >= size;
    assert Bytes(grown) == Bytes(f.blocks) by {
      BytesAppendEmpty(f.blocks, nb);
    }
  }

  /**
   * The corrected write makes an allocation only when it needs blocks: a
   * write that fits the free part of the last block leaves the blocks and
   * their allocations as they were and only fills them, and any other adds
   * one allocation holding exactly its new blocks, after the old ones.
   */
  lemma WrittenAllocations(f: File, size: int)
    requires FileOk(f) && 0 < size
    ensures size <= LastFree(f.blocks) ==>
      Written(f, size).firsts == f.firsts && Written(f, size).blocks == Filled(f.blocks, size)
    ensures size > LastFree(f.blocks) ==>
      |Written(f, size).blocks| > |f.blocks| && Starts(Written(f, size).firsts) == Starts(f.firsts) + [|f.blocks|]
  {
    var nb := NewBlocks(LastFree(f.blocks), size);
    if size <= LastFree(f.blocks) {
      assert f.blocks + Empty(0) == f.blocks;
      assert f.firsts + Marks(0) == f.firsts;
    } else {
      StartsMarks(f.firsts, nb);
    }
  }

  lemma {:induction false} BytesAppendEmpty(s: seq<int>, n: nat)
    ensures Bytes(s + Empty(n)) == Bytes(s)
    decreases |s|
  {
    if |s| > 0 {
      assert (s + Empty(n))[1..] == s[1..] + Empty(n);
      BytesAppendEmpty(s[1..], n);
    } else {
      assert s + Empty(n) == Empty(n);
      BytesEmpty(n);
    }
  }

  lemma {:induction false} BytesEmpty(n: nat)
    ensures Bytes(Empty(n)) == 0
    decreases n
  {
    if n > 0 {
      assert Empty(n)[1..] == Empty(n - 1);
      BytesEmpty(n - 1);
    }
  }

  /**
   * The copy loop as written never changes `occupied`: the blocks are only
   * the old ones followed by the new empty ones.
   */
  function WrittenBlocksAsWritten(blocks: seq<int>, size: int): seq<int>
    requires BlocksOk(blocks)
  {
    var free := if |blocks| == 0 then 0 else BlockSize - blocks[|blocks| - 1];
    blocks + Empty(NewBlocksAsWritten(free, size))
  }

  /**
   * As written, two writes of 512 bytes to an empty file leave every block
   * with `occupied == 0`: the file records none of the 1024 bytes. The
   * second write finds its last block "free", asks for no new block, and so
   * reaches the linking of lines 270-277 with an empty allocation (see
   * `LinkingAsWrittenOutside`). The corrected write stores both.
   */
  lemma OccupiedAsWrittenStaysZero()
    ensures var once := WrittenBlocksAsWritten([], 512);
      once == [0, 0] && WrittenBlocksAsWritten(once, 512) == [0, 0] && Bytes([0, 0]) == 0
    ensures var f := NewFile("a").(refs := 0);
      Bytes(Written(Written(f, 512), 512).blocks) == 1024
  {
    var f := NewFile("a").(refs := 0);
    assert Empty(2) == [0, 0];
    assert [0, 0] + Empty(0) == [0, 0];
    WriteStores(f, 512);
    WriteStores(Written(f, 512), 512);
  }

  /**
   * The positions in `new_blocks` that lines 270-277 use whatever
   * `new_blocks_count` is: its first block, linked after `last_block`, and
   * its last, which becomes `last_block`.
   */
  function LinkedIndicesAsWritten(nb: int): (r: seq<int>)
    ensures |r| == 2
  {
    [0, nb - 1]
  }

  /**
   * As written, the linking stays inside the `malloc` of line 251 exactly
   * when that allocation holds a block. A write that fits the free part of
   * the last block asks for none: as written, the second of two 10-byte
   * writes to a new file does, and so does, with the corrected count, a
   * 10-byte write to a block holding 100 bytes. Such a write then writes
   * `new_blocks[0]` of an empty allocation and sets `last_block` to
   * `&new_blocks[-1]`.
   */
  lemma LinkingAsWrittenOutside(nb: int)
    ensures (forall k :: 0 <= k < 2 ==> 0 <= LinkedIndicesAsWritten(nb)[k] < nb) <==> nb > 0
    ensures var once := WrittenBlocksAsWritten([], 10);
      once == [0] && NewBlocksAsWritten(BlockSize - once[|once| - 1], 10) == 0
    ensures NewBlocksAsWritten(BlockSize - 100, 10) == 0 && NewBlocks(BlockSize - 100, 10) == 0
    ensures LinkedIndicesAsWritten(0) == [0, -1]
  {
    assert Empty(1) == [0];
    if nb > 0 {
      assert forall k :: 0 <= k < 2 ==> 0 <= LinkedIndicesAsWritten(nb)[k] < nb;
    } else {
      assert !(0 <= LinkedIndicesAsWritten(nb)[0] < nb);
    }
  }

  /**
   * The blocks the freeing loop (lines 335-346, 402-413, 447-458) passes to
   * `free` in `k` passes as written, with `block_list` on block `c` of `n`:
   * a pass that finds a next block moves to it and frees block `c` through
   * its `prev`; on the last block it frees that block and stays there.
   */
  function FreedAsWritten(n: nat, c: nat, k: nat): (r: seq<int>)
    requires c < n
    ensures |r| == k
    decreases k
  {
    if k == 0 then [] else [c] + FreedAsWritten(n, if c + 1 < n then c + 1 else c, k - 1)
  }

  /** Pass `j` frees block `c + j`, or the last block once the list is used up. */
  lemma {:induction false} FreedAsWrittenAt(n: nat, c: nat, k: nat, j: nat)
    requires c < n && j < k
    ensures FreedAsWritten(n, c, k)[j] == if c + j < n then c + j else n - 1
    decreases k
  {
    if j > 0 {
      FreedAsWrittenAt(n, if c + 1 < n then c + 1 else c, k - 1, j - 1);
    }
  }

  /**
   * As written, `block_list` never becomes NULL, so the loop runs past the
   * `n` passes of an `n`-block list, and the pass after the last block was
   * freed reads `next` out of that freed block and frees it a second time.
   */
  lemma FreeLoopAsWrittenFreesTwice(n: nat, k: nat)
    requires 0 < n < k
    ensures FreedAsWritten(n, 0, k)[n - 1] == n - 1 && FreedAsWritten(n, 0, k)[n] == n - 1
  {
    FreedAsWrittenAt(n, 0, k, n - 1);
    FreedAsWrittenAt(n, 0, k, n);
  }

  /**
   * The blocks of one write share one allocation, but the loop as written
   * frees block by block: for a file whose only write made two blocks, the
   * first pass frees the allocation through block 0 and the second passes
   * block 1, inside that freed allocation, to `free`. The blocks' `memory`
   * buffers (line 254) are never freed.
   */
  lemma FreeLoopAsWrittenFreesInterior()
    ensures var firsts := [] + Marks(2);
      Starts(firsts) == [0] && FreedAsWritten(2, 0, 2) == [0, 1] && 1 !in Starts(firsts)
  {
    StartsMarks([], 2);
  }

  /**
   * The corrected freeing: a cursor walks the block list; the `memory` of
   * every block is freed once, in list order, and the array of every
   * allocation once, through its first block; the head block starts an
   * allocation, so the head's array is the first freed. (Which pointers are
   * freed is modelled, not when: the array goes after its blocks are left.)
   */
  method ReleaseBlocks(blocks: seq<int>, firsts: seq<bool>) returns (memory: seq<int>, arrays: seq<int>)
    requires |firsts| == |blocks| && (|blocks| > 0 ==> firsts[0])
    ensures |memory| == |blocks| && forall i :: 0 <= i < |memory| ==> memory[i] == i
    ensures arrays == Starts(firsts)
    ensures |blocks| > 0 ==> |arrays| > 0 && arrays[0] == 0
  {
    memory, arrays := [], [];
    for i := 0 to |blocks|
      invariant |memory| == i && forall j :: 0 <= j < i ==> memory[j] == j
      invariant arrays == Starts(firsts[..i])
      invariant i > 0 ==> |arrays| > 0 && arrays[0] == 0
    {
      memory := memory + [i];
      assert firsts[..i + 1][..i] == firsts[..i];
      if firsts[i] {
        arrays := arrays + [i];
      }
    }
    assert firsts[..|blocks|] == firsts;
  }

  /** The new-block loop of lines 253-267: `new_blocks` blocks with nothing occupied. */
  method AllocBlocks(n: nat) returns (added: seq<int>)
    ensures |added| == n && forall i :: 0 <= i < n ==> added[i] == 0
  {
    added := [];
    for i := 0 to n
      invariant |added| == i && forall j :: 0 <= j < i ==> added[j] == 0
    {
      added := added + [0];
    }
  }

  /**
   * The copy loop of lines 280-298 with the corrections: a local cursor walks
   * from the head, full blocks are skipped, and `occupied` grows by what is
   * copied.
   */
  method CopyIn(blocks: seq<int>, size: nat) returns (filled: seq<int>)
    requires BlocksOk(blocks)
    ensures filled == Filled(blocks, size)
  {
    filled := blocks;
    var cursor, position := 0, 0;
    FillFromStart(blocks, size);
    while position < size && cursor < |filled|
      invariant |filled| == |blocks| && BlocksOk(filled)
      invariant 0 <= cursor <= |filled| && 0 <= position <= size
      invariant FillFrom(filled, cursor, size - position) == Filled(blocks, size)
      decreases size - position, |filled| - cursor
    {
      var unused := BlockSize - filled[cursor];
      if unused == 0 {
        assert filled[cursor := filled[cursor] + 0] == filled;
        cursor := cursor + 1;
        continue;
      }
      var chunk := if size - position < unused then size - position else unused;
      FillFromChunk(filled, cursor, size - position, chunk);
      filled := filled[cursor := filled[cursor] + chunk];
      position := position + chunk;
    }
  }

  /**
   * The copy loop's state: blocks before `k` are settled, and `n` bytes are
   * still to be poured from block `k` on.
   */
  function FillFrom(blocks: seq<int>, k: nat, n: int): seq<int>
    requires BlocksOk(blocks) && k <= |blocks| && 0 <= n
    decreases |blocks| - k
  {
    if n == 0 || k == |blocks| then blocks
    else
      var unused := BlockSize - blocks[k];
      var chunk := if n < unused then n else unused;
      FillFrom(blocks[k := blocks[k] + chunk], k + 1, n - chunk)
  }

  lemma {:induction false} FillFromSplit(blocks: seq<int>, k: nat, n: int)
    requires BlocksOk(blocks) && k <= |blocks| && 0 <= n
    ensures FillFrom(blocks, k, n) == blocks[..k] + Filled(blocks[k..], n)
    decreases |blocks| - k
  {
    if n == 0 || k == |blocks| {
      assert blocks[..k] + blocks[k..] == blocks;
    } else {
      var chunk := if n < BlockSize - blocks[k] then n else BlockSize - blocks[k];
      FillFromSplit(blocks[k := blocks[k] + chunk], k + 1, n - chunk);
      FillFromStep(blocks, k, n, chunk);
    }
  }

  /** One block of the pour, in both forms. */
  lemma FillFromStep(blocks: seq<int>, k: nat, n: int, chunk: int)
    requires BlocksOk(blocks) && k < |blocks| && 0 < n
    requires chunk == (if n < BlockSize - blocks[k] then n else BlockSize - blocks[k])
    requires var b := blocks[k := blocks[k] + chunk];
      FillFrom(b, k + 1, n - chunk) == b[..k + 1] + Filled(b[k + 1..], n - chunk)
    ensures FillFrom(blocks, k, n) == blocks[..k] + Filled(blocks[k..], n)
  {
    var b := blocks[k := blocks[k] + chunk];
    var tail := Filled(b[k + 1..], n - chunk);
    SplitStep(blocks, k, blocks[k] + chunk, tail);
    FilledCons(blocks[k..], n);
    calc {
      FillFrom(blocks, k, n);
      FillFrom(b, k + 1, n - chunk);
      b[..k + 1] + tail;
      blocks[..k] + ([blocks[k] + chunk] + tail);
      blocks[..k] + Filled(blocks[k..], n);
    }
  }

  lemma FilledCons(s: seq<int>, n: int)
    requires BlocksOk(s) && 0 < |s| && 0 < n
    ensures var chunk := if n < BlockSize - s[0] then n else BlockSize - s[0];
      Filled(s, n) == [s[0] + chunk] + Filled(s[1..], n - chunk)
  {
  }

  lemma SplitStep(s: seq<int>, k: nat, v: int, tail: seq<int>)
    requires k < |s|
    ensures s[k := v][..k + 1] + tail == s[..k] + ([v] + tail)
    ensures s[k := v][k + 1..] == s[k..][1..]
  {
    assert s[k := v][..k + 1] == s[..k] + [v];
  }

  lemma FillFromStart(blocks: seq<int>, n: int)
    requires BlocksOk(blocks) && 0 <= n
    ensures FillFrom(blocks, 0, n) == Filled(blocks, n)
  {
    FillFromSplit(blocks, 0, n);
    assert blocks[0..] == blocks;
  }

  /** Pouring `chunk` bytes into a block that is then full, or with nothing left over, is one step of the pour. */
  lemma FillFromChunk(s: seq<int>, k: nat, n: int, chunk: int)
    requires BlocksOk(s) && k < |s| && 0 < n
    requires chunk == (if n < BlockSize - s[k] then n else BlockSize - s[k]) && 0 < chunk
    ensures BlocksOk(s[k := s[k] + chunk])
    ensures FillFrom(s[k := s[k] + chunk], k, n - chunk) == FillFrom(s, k, n)
  {
    var t := s[k := s[k] + chunk];
    if n - chunk > 0 {
      assert t[k := t[k] + 0] == t;
    }
  }

  // ---------------------------------------------------------------------
  // The file system state
  // ---------------------------------------------------------------------

  predicate Distinct(list: seq<FileId>) {
    forall i, j :: 0 <= i < j < |list| ==> list[i] != list[j]
  }

  /** `file_list` links exactly the allocated files, each once. */
  predicate Linked(files: map<FileId, File>, list: seq<FileId>) {
    Distinct(list) && InFiles(files, list) && forall id {:trigger Listed(list, id)} :: id in files ==> Listed(list, id)
  }

  /** `id` is linked somewhere in the list. */
  predicate Listed(list: seq<FileId>, id: FileId) {
    id in list
  }

  /** Every address in use was handed out before `nextId`. */
  predicate Below(files: map<FileId, File>, nextId: FileId) {
    forall id :: id in files ==> id < nextId
  }

  /** Every slot in use names an allocated file, and a file's `refs` is the number of slots on it. */
  predicate Counted(files: map<FileId, File>, slots: seq<Option<FileId>>) {
    SlotsIn(files, slots, |slots|) &&
    (forall id :: id in files ==> files[id].refs == Occ(slots, id))
  }

  /**
   * What each file keeps on its own and against the others: a deleted file
   * is still allocated only while descriptors are open on it, no two live
   * files share a name, and the block bookkeeping is consistent.
   */
  predicate Shaped(files: map<FileId, File>) {
    (forall id :: id in files ==> FileOk(files[id]) && (files[id].isDeleted ==> files[id].refs > 0)) &&
    (forall a, b :: a in files && b in files && a != b && !files[a].isDeleted && !files[b].isDeleted ==>
       files[a].name != files[b].name)
  }

  /** Each of the first `n` slots in use names an allocated file. */
  predicate SlotsIn(files: map<FileId, File>, slots: seq<Option<FileId>>, n: nat)
    requires n <= |slots|
  {
    n == 0 || (SlotsIn(files, slots, n - 1) && (slots[n - 1].Some? ==> slots[n - 1].value in files))
  }

  lemma {:induction false} SlotsInAt(files: map<FileId, File>, slots: seq<Option<FileId>>, n: nat, k: int)
    requires n <= |slots| && SlotsIn(files, slots, n) && 0 <= k < n && slots[k].Some?
    ensures slots[k].value in files
    decreases n
  {
    if k < n - 1 {
      SlotsInAt(files, slots, n - 1, k);
    }
  }

  lemma {:induction false} SlotsInAll(files: map<FileId, File>, slots: seq<Option<FileId>>, n: nat)
    requires n <= |slots| && SlotsIn(files, slots, n)
    ensures forall k :: 0 <= k < n && slots[k].Some? ==> slots[k].value in files
    decreases n
  {
    if n > 0 {
      SlotsInAll(files, slots, n - 1);
    }
  }

  lemma {:induction false} AllSlotsIn(files: map<FileId, File>, slots: seq<Option<FileId>>, n: nat)
    requires n <= |slots| && forall k :: 0 <= k < n && slots[k].Some? ==> slots[k].value in files
    ensures SlotsIn(files, slots, n)
    decreases n
  {
    if n > 0 {
      AllSlotsIn(files, slots, n - 1);
    }
  }

  /** Slots naming files of `files` still do when no file is taken away. */
  lemma {:induction false} SlotsInMore(files: map<FileId, File>, files2: map<FileId, File>, slots: seq<Option<FileId>>, n: nat)
    requires n <= |slots| && SlotsIn(files, slots, n) && files.Keys <= files2.Keys
    ensures SlotsIn(files2, slots, n)
    decreases n
  {
    if n > 0 {
      SlotsInMore(files, files2, slots, n - 1);
    }
  }

  /** The file the descriptor in slot `fd` is open on. */
  function FileAt(files: map<FileId, File>, slots: seq<Option<FileId>>, fd: int): File
    requires Counted(files, slots) && 0 <= fd < |slots| && slots[fd].Some?
    ensures slots[fd].value in files
  {
    SlotsInAt(files, slots, |slots|, fd);
    files[slots[fd].value]
  }

  /** The blocks of the first `n` files of the list, together. */
  function BlockTotal(files: map<FileId, File>, list: seq<FileId>, n: nat): nat
    requires InFiles(files, list) && n <= |list|
  {
    if n == 0 then 0 else BlockTotal(files, list, n - 1) + |files[list[n - 1]].blocks|
  }

  /** The invariant the operations keep. */
  predicate Inv(files: map<FileId, File>, list: seq<FileId>, slots: seq<Option<FileId>>, count: int, nextId: FileId) {
    count == Used(slots) && Linked(files, list) && Below(files, nextId) && Counted(files, slots) && Shaped(files)
  }

  /** `file_descriptor_count` never exceeds the capacity. */
  lemma CountWithinCapacity(files: map<FileId, File>, list: seq<FileId>, slots: seq<Option<FileId>>, count: int, nextId: FileId)
    requires Inv(files, list, slots, count, nextId)
    ensures 0 <= count <= |slots|
  {
  }

  /** Removing the element at `k` from a list. */
  function Removed(list: seq<FileId>, k: int): seq<FileId>
    requires 0 <= k < |list|
  {
    list[..k] + list[k + 1..]
  }

  /** Where a listed file sits in `file_list`. */
  function IndexOf(list: seq<FileId>, id: FileId): (k: nat)
    requires Listed(list, id)
    ensures k < |list| && list[k] == id
  {
    if list[0] == id then 0 else 1 + IndexOf(list[1..], id)
  }

  /** Unlinking the file at position `k` leaves exactly the other files linked. */
  lemma LinkedRemove(files: map<FileId, File>, list: seq<FileId>, k: int)
    requires Linked(files, list) && 0 <= k < |list|
    ensures Linked(files - {list[k]}, Removed(list, k))
  {
    var r := Removed(list, k);
    RemovedShift(list, k);
    forall x | x in files && x != list[k] ensures Listed(r, x) {
      assert Listed(list, x);
      var i :| 0 <= i < |list| && list[i] == x;
      assert r[if i < k then i else i - 1] == x;
    }
  }

  lemma RemovedShift(list: seq<FileId>, k: int)
    requires 0 <= k < |list|
    ensures forall i :: 0 <= i < |Removed(list, k)| ==> Removed(list, k)[i] == list[if i < k then i else i + 1]
  {
    var r := Removed(list, k);
    forall i | 0 <= i < |r| ensures r[i] == list[if i < k then i else i + 1] {
      if i < k {
        assert r[i] == list[..k][i];
      } else {
        assert r[i] == list[k + 1..][i - k];
      }
    }
  }

  /** Linking a newly allocated file at the tail. */
  lemma LinkedAppend(files: map<FileId, File>, list: seq<FileId>, n: FileId, g: File)
    requires Linked(files, list) && n !in files
    ensures Linked(files[n := g], list + [n])
  {
    var l2 := list + [n];
    assert forall i :: 0 <= i < |list| ==> l2[i] == list[i];
    forall x | x in files[n := g] ensures Listed(l2, x) {
      if x != n {
        assert Listed(list, x);
      }
    }
  }

  /** Replacing a file's record in place keeps it linked. */
  lemma LinkedReplace(files: map<FileId, File>, list: seq<FileId>, id: FileId, g: File)
    requires Linked(files, list) && id in files
    ensures Linked(files[id := g], list)
  {
  }

  /**
   * Storing `g` under `id` keeps the per-file conditions when `g` satisfies
   * them and, if live, takes a name no other live file has.
   */
  lemma ShapedReplace(files: map<FileId, File>, id: FileId, g: File)
    requires Shaped(files) && FileOk(g) && (g.isDeleted ==> g.refs > 0)
    requires !g.isDeleted ==> forall a :: a in files && a != id && !files[a].isDeleted ==> files[a].name != g.name
    ensures Shaped(files[id := g])
  {
  }

  lemma ShapedRemove(files: map<FileId, File>, id: FileId)
    requires Shaped(files)
    ensures Shaped(files - {id})
  {
  }

  /** A descriptor on `id` in the first free slot, with `id`'s `refs` one higher. */
  lemma CountedPlace(files: map<FileId, File>, slots: seq<Option<FileId>>, id: FileId, files2: map<FileId, File>)
    requires Counted(files, slots) && id in files2
    requires forall a :: a in files2 <==> a in files || a == id
    requires forall a :: a in files && a != id ==> files2[a].refs == files[a].refs
    requires files2[id].refs == Occ(slots, id) + 1
    ensures Counted(files2, Placed(slots, FirstFree(slots), id))
  {
    PlacedCounts(slots, FirstFree(slots), id);
    SlotsInAll(files, slots, |slots|);
    AllSlotsIn(files2, Placed(slots, FirstFree(slots), id), |Placed(slots, FirstFree(slots), id)|);
  }

  /** A cleared slot, with its file's `refs` one lower, or the file freed when that reaches 0. */
  lemma CountedClear(files: map<FileId, File>, slots: seq<Option<FileId>>, fd: int, files2: map<FileId, File>)
    requires Counted(files, slots) && 0 <= fd < |slots| && slots[fd].Some?
    requires forall a :: a in files2 ==> a in files
    requires forall a :: a in files2 ==> files2[a].refs == files[a].refs - (if a == slots[fd].value then 1 else 0)
    requires forall a :: a in files && a !in files2 ==> a == slots[fd].value && files[a].refs == 1
    ensures Counted(files2, slots[fd := None])
  {
    var id := slots[fd].value;
    ClearedCounts(slots, fd);
    SlotsInAll(files, slots, |slots|);
    if id !in files2 {
      NoOcc(slots[fd := None], id);
    }
    AllSlotsIn(files2, slots[fd := None], |slots|);
  }

  /** Freeing a file no descriptor is open on. */
  lemma CountedRemove(files: map<FileId, File>, slots: seq<Option<FileId>>, id: FileId)
    requires Counted(files, slots) && id in files && files[id].refs == 0
    ensures Counted(files - {id}, slots)
  {
    NoOcc(slots, id);
    SlotsInAll(files, slots, |slots|);
    AllSlotsIn(files - {id}, slots, |slots|);
  }

  /** Opening a name with no live file: the new file is linked at the tail. */
  lemma OpenNewKeeps(files: map<FileId, File>, list: seq<FileId>, slots: seq<Option<FileId>>, count: int, nextId: FileId, name: string,
                     files2: map<FileId, File>, list2: seq<FileId>, slots2: seq<Option<FileId>>, count2: int, next2: FileId)
    requires Inv(files, list, slots, count, nextId) && FirstLive(files, list, name) == |list|
    requires files2 == files[nextId := NewFile(name)] && list2 == list + [nextId]
    requires slots2 == Placed(slots, FirstFree(slots), nextId) && count2 == count + 1 && next2 == nextId + 1
    ensures Inv(files2, list2, slots2, count2, next2)
  {
    assert Used(Placed(slots, FirstFree(slots), nextId)) == count + 1 by {
      PlacedCounts(slots, FirstFree(slots), nextId);
    }
    assert Linked(files2, list + [nextId]) by {
      LinkedAppend(files, list, nextId, NewFile(name));
    }
    assert Counted(files2, Placed(slots, FirstFree(slots), nextId)) by {
      SlotsInAll(files, slots, |slots|);
      CountAbsent(slots, Some(nextId), |slots|);
      CountedPlace(files, slots, nextId, files2);
    }
    assert Shaped(files2) by {
      ShapedNew(files, list, name, nextId);
    }
  }

  /** A new file under a name no live listed file has keeps the per-file conditions. */
  lemma ShapedNew(files: map<FileId, File>, list: seq<FileId>, name: string, id: FileId)
    requires Shaped(files) && Linked(files, list) && FirstLive(files, list, name) == |list|
    ensures Shaped(files[id := NewFile(name)])
  {
    FirstLiveFirst(files, list, name);
    forall a | a in files && a != id && !files[a].isDeleted ensures files[a].name != name {
      assert Listed(list, a);
      var i :| 0 <= i < |list| && list[i] == a;
    }
    ShapedReplace(files, id, NewFile(name));
  }

  /** Opening an allocated live file again: one more reference, one more descriptor. */
  lemma OpenExistingKeeps(files: map<FileId, File>, list: seq<FileId>, slots: seq<Option<FileId>>, count: int, nextId: FileId, id: FileId,
                          files2: map<FileId, File>, slots2: seq<Option<FileId>>, count2: int)
    requires Inv(files, list, slots, count, nextId) && id in files && !files[id].isDeleted
    requires files2 == files[id := files[id].(refs := files[id].refs + 1)]
    requires slots2 == Placed(slots, FirstFree(slots), id) && count2 == count + 1
    ensures Inv(files2, list, slots2, count2, nextId)
  {
    var g := files[id].(refs := files[id].refs + 1);
    assert Used(Placed(slots, FirstFree(slots), id)) == count + 1 by {
      PlacedCounts(slots, FirstFree(slots), id);
    }
    assert Linked(files2, list) by {
      LinkedReplace(files, list, id, g);
    }
    assert Counted(files2, Placed(slots, FirstFree(slots), id)) by {
      CountedPlace(files, slots, id, files2);
    }
    assert Shaped(files2) by {
      ShapedReplace(files, id, g);
    }
  }

  /** Closing a descriptor whose file stays allocated: one reference less. */
  lemma DropKeeps(files: map<FileId, File>, list: seq<FileId>, slots: seq<Option<FileId>>, count: int, nextId: FileId,
                  fd: int, files2: map<FileId, File>, slots2: seq<Option<FileId>>, count2: int)
    requires Inv(files, list, slots, count, nextId) && 0 <= fd < |slots| && slots[fd].Some?
    requires var f := FileAt(files, slots, fd); !(f.isDeleted && f.refs == 1)
    requires files2 == files[slots[fd].value := FileAt(files, slots, fd).(refs := FileAt(files, slots, fd).refs - 1)]
    requires slots2 == slots[fd := None] && count2 == count - 1
    ensures Inv(files2, list, slots2, count2, nextId)
  {
    var id := slots[fd].value;
    var f := FileAt(files, slots, fd);
    ClearedCounts(slots, fd);
    CountedClear(files, slots, fd, files2);
    LinkedReplace(files, list, id, f.(refs := f.refs - 1));
    ShapedReplace(files, id, f.(refs := f.refs - 1));
  }

  /** Closing the last descriptor of a deleted file: the file is unlinked and freed. */
  lemma DropLastKeeps(files: map<FileId, File>, list: seq<FileId>, slots: seq<Option<FileId>>, count: int, nextId: FileId,
                      fd: int, files2: map<FileId, File>, list2: seq<FileId>, slots2: seq<Option<FileId>>, count2: int)
    requires Inv(files, list, slots, count, nextId) && 0 <= fd < |slots| && slots[fd].Some?
    requires var f := FileAt(files, slots, fd); f.isDeleted && f.refs == 1
    requires files2 == files - {slots[fd].value} && list2 == Removed(list, IndexOf(list, slots[fd].value))
    requires slots2 == slots[fd := None] && count2 == count - 1
    ensures Inv(files2, list2, slots2, count2, nextId)
  {
    var id := slots[fd].value;
    ClearedCounts(slots, fd);
    CountedClear(files, slots, fd, files2);
    LinkedRemove(files, list, IndexOf(list, id));
    ShapedRemove(files, id);
  }

  /** Deleting the live file at position `k` of the list. */
  lemma DeleteKeeps(files: map<FileId, File>, list: seq<FileId>, slots: seq<Option<FileId>>, count: int, nextId: FileId,
                    k: int, files2: map<FileId, File>, list2: seq<FileId>)
    requires Inv(files, list, slots, count, nextId) && 0 <= k < |list|
    requires var id := list[k]; var f := files[id];
      if f.refs == 0 then files2 == files - {id} && list2 == Removed(list, k)
      else files2 == files[id := f.(isDeleted := true)] && list2 == list
    ensures Inv(files2, list2, slots, count, nextId)
  {
    var id := list[k];
    var f := files[id];
    if f.refs == 0 {
      LinkedRemove(files, list, k);
      CountedRemove(files, slots, id);
      ShapedRemove(files, id);
    } else {
      LinkedReplace(files, list, id, f.(isDeleted := true));
      ShapedReplace(files, id, f.(isDeleted := true));
      SlotsInMore(files, files2, slots, |slots|);
    }
  }

  /** A write changes only the file's blocks, within its quota. */
  lemma WriteKeeps(files: map<FileId, File>, list: seq<FileId>, slots: seq<Option<FileId>>, count: int, nextId: FileId,
                   id: FileId, g: File, files2: map<FileId, File>)
    requires Inv(files, list, slots, count, nextId) && id in files && FileOk(g)
    requires g.name == files[id].name && g.refs == files[id].refs && g.isDeleted == files[id].isDeleted
    requires files2 == files[id := g]
    ensures Inv(files2, list, slots, count, nextId)
  {
    LinkedReplace(files, list, id, g);
    ShapedReplace(files, id, g);
    SlotsInMore(files, files2, slots, |slots|);
  }

  /** The in-memory file system: the globals `file_list`, `file_descriptors` and friends. */
  class FileSystem {
    /** The `struct file` objects allocated, by address. */
    var files: map<FileId, File>
    /** `file_list`, head first. */
    var list: seq<FileId>
    /** `file_descriptors`; its length is `file_descriptor_capacity`. */
    var descriptors: array<Option<FileId>>
    /** `file_descriptor_count`. */
    var count: int
    /** The next address the allocator hands out for a `struct file`. */
    var nextId: FileId
    /** `ufs_error_code`, which `ufs_errno` returns. */
    var error: ErrorCode

    ghost predicate Valid()
      reads this`files, this`list, this`descriptors, this`count, this`nextId, descriptors
    {
      Inv(files, list, descriptors[..], count, nextId)
    }

    /** The static initial state: no files, no descriptor table, no error. */
    constructor ()
      ensures Valid()
      ensures files == map[] && list == [] && descriptors.Length == 0 && count == 0 && error == NoErr
      ensures nextId == 0 && fresh(descriptors)
    {
      files := map[];
      list := [];
      descriptors := new Option<FileId>[0];
      count := 0;
      nextId := 0;
      error := NoErr;
    }

    /** The lookup loop of `ufs_open` and `ufs_delete`. */
    method FindLive(name: string) returns (k: nat)
      requires InFiles(files, list)
      ensures k == FirstLive(files, list, name)
    {
      k := 0;
      while k < |list|
        invariant k <= |list|
        invariant forall j :: 0 <= j < k ==> !Matches(files[list[j]], name)
      {
        if Matches(files[list[k]], name) {
          break;
        }
        k := k + 1;
      }
      FirstLiveAt(files, list, name, k);
    }

    /**
     * Lines 127-154 (and 182-211): put a descriptor on `id` in the lowest NULL
     * slot; when every slot is in use, grow the table by one slot and use it.
     */
    method AddDescriptor(id: FileId) returns (fd: int)
      requires count == Used(descriptors[..])
      modifies this, descriptors
      ensures descriptors == old(descriptors) || fresh(descriptors)
      ensures fd == FirstFree(old(descriptors[..]))
      ensures descriptors[..] == Placed(old(descriptors[..]), fd, id)
      ensures count == old(count) + 1
      ensures files == old(files) && list == old(list) && nextId == old(nextId) && error == old(error)
    {
      if descriptors.Length == count {
        FullTable(descriptors[..]);
        var grown := new Option<FileId>[descriptors.Length + 1](_ => None);
        forall i | 0 <= i < descriptors.Length {
          grown[i] := descriptors[i];
        }
        fd := count;
        grown[fd] := Some(id);
        assert grown[..] == descriptors[..] + [Some(id)];
        descriptors := grown;
        count := count + 1;
      } else {
        ghost var free := CountFind(descriptors[..], None, descriptors.Length);
        var i := 0;
        while descriptors[i] != None
          invariant 0 <= i <= free && descriptors[free] == None
          invariant forall j :: 0 <= j < i ==> descriptors[j].Some?
          decreases free - i
        {
          i := i + 1;
        }
        fd := i;
        descriptors[fd] := Some(id);
        count := count + 1;
      }
    }

    /**
     * ufs_open. With UFS_CREATE a name with no live file gets a new file at
     * the list tail; otherwise the name must have a live file. Either way the
     * file gains a reference and a descriptor in the lowest free slot. The
     * create branch leaves `ufs_error_code` as it was. `create` stands for
     * the test `flags == UFS_CREATE` of line 80: flags with any other bit set
     * take the branch without creation.
     */
    method Open(name: string, create: bool) returns (fd: int)
      requires Valid()
      modifies this, descriptors
      ensures Valid()
      ensures descriptors == old(descriptors) || fresh(descriptors)
      ensures var k := FirstLive(old(files), old(list), name);
        !create && k == |old(list)| ==>
          && fd == -1 && error == NoFile
          && files == old(files) && list == old(list) && nextId == old(nextId)
          && descriptors == old(descriptors) && descriptors[..] == old(descriptors[..]) && count == old(count)
      ensures var k := FirstLive(old(files), old(list), name);
        create || k < |old(list)| ==>
          var id := if k < |old(list)| then old(list)[k] else old(nextId);
          && fd == FirstFree(old(descriptors[..]))
          && descriptors[..] == Placed(old(descriptors[..]), fd, id)
          && count == old(count) + 1
          && error == (if create then old(error) else NoErr)
          && (k < |old(list)| ==>
                files == old(files)[id := old(files)[id].(refs := old(files)[id].refs + 1)] &&
                list == old(list) && nextId == old(nextId))
          && (k == |old(list)| ==>
                id !in old(files) &&
                files == old(files)[id := NewFile(name)] && list == old(list) + [id] && nextId == old(nextId) + 1)
    {
      // Without UFS_CREATE the call ends by setting the error code either
      // way (UFS_ERR_NO_FILE on failure, UFS_ERR_NO_ERR on success), and
      // nothing in between reads it, so it is set here first.
      if !create {
        error := NoErr;
      }
      var k := FindLive(name);
      if k < |list| {
        fd := OpenExisting(k);
      } else if create {
        fd := OpenNew(name);
      } else {
        error := NoFile;
        fd := -1;
      }
    }

    /** Lines 97-117 and 127-154: a new file at the list tail, with one descriptor on it. */
    method OpenNew(name: string) returns (fd: int)
      requires Valid() && FirstLive(files, list, name) == |list|
      modifies this, descriptors
      ensures Valid()
      ensures descriptors == old(descriptors) || fresh(descriptors)
      ensures fd == FirstFree(old(descriptors[..])) && descriptors[..] == Placed(old(descriptors[..]), fd, old(nextId))
      ensures count == old(count) + 1 && error == old(error)
      ensures old(nextId) !in old(files) && files == old(files)[old(nextId) := NewFile(name)]
      ensures list == old(list) + [old(nextId)] && nextId == old(nextId) + 1
    {
      ghost var files0, list0, slots0, count0, next0 := files, list, descriptors[..], count, nextId;
      var id := nextId;
      files := files[id := NewFile(name)];
      list := list + [id];
      nextId := nextId + 1;
      fd := AddDescriptor(id);
      OpenNewKeeps(files0, list0, slots0, count0, next0, name, files, list, descriptors[..], count, nextId);
    }

    /** Lines 118-122 and 127-154: the live file at list position `k` gains a reference and a descriptor. */
    method OpenExisting(k: int) returns (fd: int)
      requires Valid() && 0 <= k < |list| && !files[list[k]].isDeleted
      modifies this, descriptors
      ensures Valid()
      ensures descriptors == old(descriptors) || fresh(descriptors)
      ensures fd == FirstFree(old(descriptors[..])) && descriptors[..] == Placed(old(descriptors[..]), fd, old(list)[k])
      ensures count == old(count) + 1 && error == old(error)
      ensures var id := old(list)[k]; files == old(files)[id := old(files)[id].(refs := old(files)[id].refs + 1)]
      ensures list == old(list) && nextId == old(nextId)
    {
      ghost var files0, slots0, count0 := files, descriptors[..], count;
      var id := list[k];
      files := files[id := files[id].(refs := files[id].refs + 1)];
      fd := AddDescriptor(id);
      OpenExistingKeeps(files0, list, slots0, count0, nextId, id, files, descriptors[..], count);
    }

    /**
     * ufs_close. A descriptor outside the table or on a NULL slot is
     * UFS_ERR_NO_FILE. Otherwise the file loses a reference, a deleted file
     * losing its last one is freed and unlinked, and the slot becomes NULL.
     */
    method Close(fd: int) returns (r: int)
      requires Valid()
      modifies this, descriptors
      ensures Valid()
      ensures descriptors == old(descriptors) && nextId == old(nextId)
      ensures FdRejected(fd, descriptors.Length) || old(descriptors[fd]) == None ==>
        r == -1 && error == NoFile && files == old(files) && list == old(list) &&
        descriptors[..] == old(descriptors[..]) && count == old(count)
      ensures !FdRejected(fd, descriptors.Length) && old(descriptors[fd]).Some? ==>
        var id := old(descriptors[fd]).value; var f := FileAt(old(files), old(descriptors[..]), fd);
        && r == 0 && error == NoErr
        && descriptors[..] == old(descriptors[..])[fd := None] && count == old(count) - 1
        && (f.isDeleted && f.refs == 1 ==>
              files == old(files) - {id} && list == Removed(old(list), IndexOf(old(list), id)))
        && (!(f.isDeleted && f.refs == 1) ==>
              files == old(files)[id := f.(refs := f.refs - 1)] && list == old(list))
    {
      if FdRejected(fd, descriptors.Length) {
        error := NoFile;
        return -1;
      }
      if descriptors[fd] == None {
        error := NoFile;
        return -1;
      }
      var f := FileAt(files, descriptors[..], fd);
      error := NoErr;
      if f.isDeleted && f.refs - 1 == 0 {
        DropLastSlot(fd);
      } else {
        DropSlot(fd);
      }
      r := 0;
    }

    /**
     * Lines 327-334 and 364-366 when the file stays allocated: it loses a
     * reference and the slot becomes NULL.
     */
    method DropSlot(fd: int)
      requires Valid() && 0 <= fd < descriptors.Length && descriptors[fd].Some?
      requires var f := FileAt(files, descriptors[..], fd); !(f.isDeleted && f.refs == 1)
      modifies this, descriptors
      ensures Valid()
      ensures descriptors == old(descriptors) && nextId == old(nextId) && error == old(error) && list == old(list)
      ensures descriptors[..] == old(descriptors[..])[fd := None] && count == old(count) - 1
      ensures var id := old(descriptors[fd]).value; var f := FileAt(old(files), old(descriptors[..]), fd);
        files == old(files)[id := f.(refs := f.refs - 1)]
    {
      ghost var slots0 := descriptors[..];
      var id := descriptors[fd].value;
      var f := FileAt(files, descriptors[..], fd);
      var files2 := files[id := f.(refs := f.refs - 1)];
      DropKeeps(files, list, slots0, count, nextId, fd, files2, slots0[fd := None], count - 1);
      files := files2;
      descriptors[fd] := None;
      count := count - 1;
      assert descriptors[..] == slots0[fd := None];
    }

    /**
     * Lines 327-366 when the file is deleted and this was its last
     * descriptor: its blocks are freed, it is unlinked and freed, and the
     * slot becomes NULL.
     */
    method DropLastSlot(fd: int)
      requires Valid() && 0 <= fd < descriptors.Length && descriptors[fd].Some?
      requires var f := FileAt(files, descriptors[..], fd); f.isDeleted && f.refs == 1
      modifies this, descriptors
      ensures Valid()
      ensures descriptors == old(descriptors) && nextId == old(nextId) && error == old(error)
      ensures descriptors[..] == old(descriptors[..])[fd := None] && count == old(count) - 1
      ensures var id := old(descriptors[fd]).value;
        files == old(files) - {id} && list == Removed(old(list), IndexOf(old(list), id))
    {
      ghost var slots0 := descriptors[..];
      var id := descriptors[fd].value;
      var f := FileAt(files, descriptors[..], fd);
      var memory, arrays := ReleaseBlocks(f.blocks, f.firsts);
      var files2, list2 := files - {id}, Removed(list, IndexOf(list, id));
      DropLastKeeps(files, list, slots0, count, nextId, fd, files2, list2, slots0[fd := None], count - 1);
      files, list := files2, list2;
      descriptors[fd] := None;
      count := count - 1;
      assert descriptors[..] == slots0[fd := None];
    }

    /**
     * ufs_delete. A name with no live file is UFS_ERR_NO_FILE. Otherwise the
     * file is marked deleted, and freed and unlinked at once when no
     * descriptor is open on it.
     */
    method Delete(name: string) returns (r: int)
      requires Valid()
      modifies this
      ensures Valid()
      ensures descriptors == old(descriptors) && count == old(count) && nextId == old(nextId)
      ensures var k := FirstLive(old(files), old(list), name);
        k == |old(list)| ==> r == -1 && error == NoFile && files == old(files) && list == old(list)
      ensures var k := FirstLive(old(files), old(list), name);
        k < |old(list)| ==>
          var id := old(list)[k]; var f := old(files)[id];
          && r == 0 && error == NoErr
          && (f.refs == 0 ==> files == old(files) - {id} && list == Removed(old(list), k))
          && (f.refs != 0 ==> files == old(files)[id := f.(isDeleted := true)] && list == old(list))
    {
      var k := FindLive(name);
      if k == |list| {
        error := NoFile;
        return -1;
      }
      ghost var files0, list0 := files, list;
      var id := list[k];
      files := files[id := files[id].(isDeleted := true)];
      if files[id].refs == 0 {
        var memory, arrays := ReleaseBlocks(files[id].blocks, files[id].firsts);
        list := Removed(list, k);
        files := files - {id};
        assert files == files0 - {id};
      }
      error := NoErr;
      r := 0;
      DeleteKeeps(files0, list0, descriptors[..], count, nextId, k, files, list);
    }

    /**
     * The block bookkeeping of ufs_write (the bytes themselves are not
     * modelled). A descriptor outside the table is UFS_ERR_NO_FILE; a write
     * of 0 bytes then succeeds with nothing changed; a descriptor on a NULL
     * slot is UFS_ERR_NO_FILE; a write the quota refuses is UFS_ERR_NO_MEM
     * with nothing changed;
     * otherwise the file gains exactly the blocks it needs and records every
     * byte. Success returns 0, as the source does.
     */
    method Write(fd: int, size: nat) returns (r: int)
      requires Valid()
      modifies this
      ensures Valid()
      ensures descriptors == old(descriptors) && list == old(list) && count == old(count) && nextId == old(nextId)
      ensures FdRejected(fd, descriptors.Length) ==> r == -1 && error == NoFile && files == old(files)
      ensures !FdRejected(fd, descriptors.Length) && size == 0 ==> r == 0 && error == NoErr && files == old(files)
      ensures !FdRejected(fd, descriptors.Length) && size > 0 && descriptors[fd] == None ==>
        r == -1 && error == NoFile && files == old(files)
      ensures !FdRejected(fd, descriptors.Length) && size > 0 && descriptors[fd].Some? ==>
        var id := descriptors[fd].value; var f := FileAt(old(files), descriptors[..], fd);
        var nb := NewBlocks(LastFree(f.blocks), size);
        if (f.blocksCount + nb) * BlockSize > MaxFileSize then
          r == -1 && error == NoMem && files == old(files)
        else
          && r == 0 && error == NoErr
          && files == old(files)[id := Written(f, size)]
          && Bytes(files[id].blocks) == Bytes(f.blocks) + size
    {
      if FdRejected(fd, descriptors.Length) {
        error := NoFile;
        return -1;
      }
      if size == 0 {
        error := NoErr;
        return 0;
      }
      if descriptors[fd] == None {
        error := NoFile;
        return -1;
      }
      var f := FileAt(files, descriptors[..], fd);
      var nb := NewBlocks(LastFree(f.blocks), size);
      if (f.blocksCount + nb) * BlockSize > MaxFileSize {
        error := NoMem;
        return -1;
      }
      error := NoErr;
      Append(fd, size, nb);
      r := 0;
    }

    /**
     * Lines 250-298: the file on slot `fd` gains `nb` empty blocks, the
     * blocks it needs, in one allocation that is made and linked only when
     * `nb > 0`, and `size` bytes are poured into its blocks.
     */
    method Append(fd: int, size: nat, nb: int)
      requires Valid() && 0 <= fd < descriptors.Length && descriptors[fd].Some?
      requires var f := FileAt(files, descriptors[..], fd);
        nb == NewBlocks(LastFree(f.blocks), size) && (f.blocksCount + nb) * BlockSize <= MaxFileSize
      modifies this
      ensures Valid()
      ensures descriptors == old(descriptors) && list == old(list) && count == old(count) && nextId == old(nextId)
      ensures error == old(error)
      ensures var id := descriptors[fd].value; var f := FileAt(old(files), descriptors[..], fd);
        files == old(files)[id := Written(f, size)] && Bytes(files[id].blocks) == Bytes(f.blocks) + size
    {
      var id := descriptors[fd].value;
      var f := FileAt(files, descriptors[..], fd);
      var added: seq<int>, marks: seq<bool> := [], [];
      if nb > 0 {
        added := AllocBlocks(nb);
        marks := Marks(nb);
      }
      assert added == Empty(nb) && marks == Marks(nb);
      WriteStores(f, size);
      var filled := CopyIn(f.blocks + added, size);
      var g := f.(blocksCount := f.blocksCount + nb, blocks := filled, firsts := f.firsts + marks);
      assert g == Written(f, size);
      WriteKeeps(files, list, descriptors[..], count, nextId, id, g, files[id := g]);
      files := files[id := g];
    }

    /**
     * ufs_destroy: every file, the memory of every one of its blocks, and
     * every open descriptor are released once, and no file or descriptor is
     * left.
     */
    method Destroy() returns (filesFreed: nat, blocksFreed: nat, descriptorsFreed: nat)
      requires Valid()
      modifies this, descriptors
      ensures filesFreed == |old(list)| && descriptorsFreed == old(count)
      ensures blocksFreed == BlockTotal(old(files), old(list), |old(list)|)
      ensures Valid() && files == map[] && list == [] && descriptors.Length == 0 && count == 0
      ensures error == old(error) && nextId == old(nextId)
    {
      filesFreed, blocksFreed := 0, 0;
      while filesFreed < |list|
        invariant filesFreed <= |list| && Valid()
        invariant list == old(list) && files == old(files) && count == old(count)
        invariant error == old(error) && nextId == old(nextId)
        invariant blocksFreed == BlockTotal(files, list, filesFreed)
      {
        var f := files[list[filesFreed]];
        var memory, arrays := ReleaseBlocks(f.blocks, f.firsts);
        blocksFreed := blocksFreed + |memory|;
        filesFreed := filesFreed + 1;
      }
      descriptorsFreed := 0;
      for i := 0 to descriptors.Length
        invariant descriptorsFreed == i - Count(descriptors[..], None, i)
        invariant Valid() && count == old(count) && error == old(error) && nextId == old(nextId)
      {
        if descriptors[i] != None {
          descriptorsFreed := descriptorsFreed + 1;
        }
      }
      files := map[];
      list := [];
      descriptors := new Option<FileId>[0];
      count := 0;
    }
  }
}
