/** The block index (file.c): jumping into the middle of a block list.

A list of block sizes spans several metadata blocks. The index holds, for every metadata block
after the first in which a size starts, where that block lies and which data block comes next.
Fast-forwarding through it must be indistinguishable from walking the list. */
module BlockIndex {
  import opened Bytes
  import opened Metadata
  import opened DataBlocks

  const PER_BLOCK := 2048   // sizes per metadata block

  datatype IndexEntry = IndexEntry(dataBlock: nat, mdBlock: nat)

  /** Every metadata block of the list lies within 32 bits of the inode table, as inode references
      require; the index stores that distance in 32 bits. */
  predicate NearInodeTable(fs: Fs, f: Inode)
    requires fs.blockSize > 0
  {
    forall i :: 0 <= i <= (f.next.offset + ENTRY_SIZE * Count(fs, f)) / MD_SIZE ==>
      fs.inodeTable <= ChainPos(fs.img, f.next.block, i) < fs.inodeTable + 0x1_0000_0000
  }

  predicate Indexable(fs: Fs, f: Inode)
    requires fs.blockSize > 0
  {
    Count(fs, f) * ENTRY_SIZE >= MD_SIZE
  }

  /** The first block whose size starts in metadata block m. */
  function FirstIn(f: Inode, m: nat): int { m * PER_BLOCK - f.next.offset / ENTRY_SIZE }

  /** Entries allocated, and entries the filling loop reaches. */
  function Allocated(fs: Fs, f: Inode): nat
    requires fs.blockSize > 0 && Count(fs, f) > 0
  {
    (f.next.offset + Count(fs, f) * ENTRY_SIZE - 1) / MD_SIZE
  }

  function Recorded(fs: Fs, f: Inode): nat
    requires fs.blockSize > 0 && Count(fs, f) > 0
  {
    (f.next.offset / ENTRY_SIZE + Count(fs, f) - 1) / PER_BLOCK
  }

  /** The metadata block in which the size of block number `block` starts. */
  function MetaBlock(f: Inode, block: nat): nat { (f.next.offset + block * ENTRY_SIZE) / MD_SIZE }

  /** Entry m - 1 describes metadata block m of the list. */
  ghost predicate Describes(fs: Fs, f: Inode, m: nat, e: IndexEntry)
    requires ValidCursor(fs.img, f.next) && m > 0 && f.next.offset < MD_SIZE
  {
    && e.dataBlock == Location(fs, f, FirstIn(f, m))
    && 4 * FirstIn(f, m) <= |Stream(fs.img, f.next)|
    && fs.inodeTable + e.mdBlock == ChainPos(fs.img, f.next.block, m)
  }

  ghost predicate IsIndex(fs: Fs, f: Inode, idx: seq<IndexEntry>)
    requires fs.blockSize > 0 && WellFormedList(fs, f) && Count(fs, f) > 0
  {
    && |idx| == Allocated(fs, f)
    && forall i :: 0 <= i < Recorded(fs, f) && i < |idx| ==> Describes(fs, f, i + 1, idx[i])
  }

  // ----- arithmetic of unaligned four-byte entries

  /** The list starts `offset` bytes into a metadata block, in general not on an entry boundary.
      Its k-th size starts (offset / 4 + k) / 2048 metadata blocks further on, and it is the first
      to start there exactly when its offset in that block is below four. */
  lemma EntryPlace(offset: nat, k: nat)
    ensures (offset + k * ENTRY_SIZE) / MD_SIZE == (offset / ENTRY_SIZE + k) / PER_BLOCK
    ensures (offset + k * ENTRY_SIZE) % MD_SIZE ==
            ENTRY_SIZE * ((offset / ENTRY_SIZE + k) % PER_BLOCK) + offset % ENTRY_SIZE
  {
    var u := offset / 4 + k;
    assert offset + 4 * k == 4 * u + offset % 4;
    assert u == 2048 * (u / 2048) + u % 2048;
    ModUnique(offset + 4 * k, 8192, u / 2048, 4 * (u % 2048) + offset % 4);
  }

  /** Jumping to metadata block MetaBlock(block) never skips past `block`. */
  lemma SkipBounds(f: Inode, block: nat)
    requires f.next.offset < MD_SIZE && MetaBlock(f, block) > 0
    ensures 0 < FirstIn(f, MetaBlock(f, block)) <= block
    ensures f.next.offset + 4 * FirstIn(f, MetaBlock(f, block)) == MetaBlock(f, block) * MD_SIZE + f.next.offset % 4
  {
    EntryPlace(f.next.offset, block);
  }

  /** The entry looked up was recorded, exactly unless the position is that of the fragment and no
      listed size starts in its metadata block. */
  lemma AccessRecorded(fs: Fs, f: Inode, block: nat)
    requires fs.blockSize > 0 && f.next.offset < MD_SIZE && Count(fs, f) > 0
    requires block <= Count(fs, f) && MetaBlock(f, block) > 0
    ensures MetaBlock(f, block) - 1 < Recorded(fs, f) <==>
            block < Count(fs, f) || (f.next.offset + 4 * Count(fs, f)) % MD_SIZE >= 4
    ensures Recorded(fs, f) <= Allocated(fs, f)
    ensures MetaBlock(f, block) - 1 >= Recorded(fs, f) ==> FirstIn(f, MetaBlock(f, block)) == Count(fs, f)
  {
    EntryPlace(f.next.offset, block);
    EntryPlace(f.next.offset, Count(fs, f));
    EntryPlace(f.next.offset, Count(fs, f) - 1);
  }

  /** The entry looked up lies in the array that was allocated, exactly unless the position is that of
      the fragment and the list ends where a metadata block does. */
  lemma AccessAllocated(fs: Fs, f: Inode, block: nat)
    requires fs.blockSize > 0 && f.next.offset < MD_SIZE && Count(fs, f) > 0
    requires block <= Count(fs, f) && MetaBlock(f, block) > 0
    ensures MetaBlock(f, block) - 1 < Allocated(fs, f) <==>
            block < Count(fs, f) || (f.next.offset + 4 * Count(fs, f)) % MD_SIZE != 0
  {
    EntryPlace(f.next.offset, block);
    EntryPlace(f.next.offset, Count(fs, f));
    EntryPlace(f.next.offset, Count(fs, f) - 1);
  }

  /** Reads at `start` consult the index. */
  predicate UsesIndex(fs: Fs, f: Inode, start: nat): (b: bool)
    requires fs.blockSize > 0
    ensures b ==> Count(fs, f) > 0
  {
    start / fs.blockSize <= Count(fs, f) && MetaBlock(f, start / fs.blockSize) > 0 && Indexable(fs, f)
  }

  /** The index is used for files whose list fills a metadata block, past the list's first. */
  lemma WhenIndexed(fs: Fs, f: Inode, start: nat)
    requires fs.blockSize > 0
    ensures UsesIndex(fs, f, start) <==>
              && Count(fs, f) >= 2048 && start / fs.blockSize <= Count(fs, f)
              && f.next.offset + 4 * (start / fs.blockSize) >= 8192
  {
    hide Count;
  }

  /** Reads at `start` consult the index outside its array. */
  predicate LooksOutside(fs: Fs, f: Inode, start: nat)
    requires fs.blockSize > 0
  {
    UsesIndex(fs, f, start) && start / fs.blockSize == Count(fs, f) && (f.next.offset + 4 * Count(fs, f)) % MD_SIZE == 0
  }

  /** It happens: 2048 blocks of 128 KiB whose sizes fill one metadata block, and a tail of one byte.
      Reading that byte consults entry 0 of an array of none. */
  lemma OutsideWitness(img: Image, frags: FragTable)
    ensures var fs := Fs(img, 131072, 0, frags);
            var f := Inode(true, Cursor(0, 0), 0, 2048 * 131072 + 1, 0, 0);
            && Count(fs, f) == 2048 && Allocated(fs, f) == 0 && MetaBlock(f, 2048) == 1
            && LooksOutside(fs, f, 2048 * 131072)
  {
  }

  /** Likewise with the list starting one byte into a metadata block: entry 0 exists, but the filling
      loop never reaches it. */
  lemma UnrecordedWitness(img: Image, frags: FragTable)
    ensures var fs := Fs(img, 131072, 0, frags);
            var f := Inode(true, Cursor(0, 1), 0, 2048 * 131072 + 1, 0, 0);
            && Count(fs, f) == 2048 && Allocated(fs, f) == 1 && Recorded(fs, f) == 0 && MetaBlock(f, 2048) == 1
            && UsesIndex(fs, f, 2048 * 131072) && !LooksOutside(fs, f, 2048 * 131072)
  {
  }

  // ----- building the index

  /** How many metadata blocks after the first have been met once k sizes have been passed. */
  function Met(f: Inode, k: nat): nat
    requires k > 0
  {
    (f.next.offset / ENTRY_SIZE + k - 1) / PER_BLOCK
  }

  lemma CursorPlace(fs: Fs, f: Inode, k: nat, cur: Cursor)
    requires fs.blockSize > 0 && WellFormedList(fs, f) && k < Count(fs, f)
    requires Advance(fs.img, f.next, 4 * k) == Some(cur)
    ensures cur == Cursor(ChainPos(fs.img, f.next.block, MetaBlock(f, k)), (f.next.offset + 4 * k) % MD_SIZE)
    ensures k > 0 ==> (cur.offset < ENTRY_SIZE <==> Met(f, k + 1) == Met(f, k) + 1 && FirstIn(f, Met(f, k) + 1) == k)
    ensures k > 0 ==> (cur.offset >= ENTRY_SIZE <==> Met(f, k + 1) == Met(f, k))
    ensures cur.offset < ENTRY_SIZE && k > 0 ==> Met(f, k + 1) == MetaBlock(f, k)
  {
    hide Advance, ChainPos, ValidCursor, FullBlocks;
    AdvanceByDivision(fs.img, f.next.block, f.next.offset, 4 * k, LastByte(fs, f));
    EntryPlace(f.next.offset, k);
  }

  /** How many sizes the filling loop reads: it stops after the first size of the last metadata block
      there is an entry for, or at the end of the list. */
  function IndexReach(fs: Fs, f: Inode): nat
    requires fs.blockSize > 0 && Count(fs, f) > 0 && f.next.offset < MD_SIZE
  {
    if Allocated(fs, f) == 0 then 0
    else if Recorded(fs, f) == Allocated(fs, f) then FirstIn(f, Allocated(fs, f)) + 1
    else Count(fs, f)
  }

  lemma ReachBounds(fs: Fs, f: Inode, k: nat)
    requires fs.blockSize > 0 && Count(fs, f) > 0 && f.next.offset < MD_SIZE && k <= Count(fs, f)
    ensures IndexReach(fs, f) <= Count(fs, f)
    ensures k < Count(fs, f) && (if k == 0 then 0 else Met(f, k)) < Allocated(fs, f) ==> k + 1 <= IndexReach(fs, f)
    ensures k == Count(fs, f) || (if k == 0 then 0 else Met(f, k)) == Allocated(fs, f) ==> k >= IndexReach(fs, f)
  {
    EntryPlace(f.next.offset, Count(fs, f) - 1);
  }

  /** sqfs_blockidx_add */
  method Add(fs: Fs, f: Inode) returns (idx: array?<IndexEntry>)
    requires fs.blockSize > 0 && WellFormedList(fs, f) && NearInodeTable(fs, f) && Indexable(fs, f)
    ensures idx != null ==> fresh(idx) && IsIndex(fs, f, idx[..])
    ensures idx == null <==> |Stream(fs.img, f.next)| < 4 * IndexReach(fs, f)
    ensures IndexReach(fs, f) <= Count(fs, f)
  {
    hide Advance, Stream, ValidCursor, FullBlocks, ChainPos, Location, Entry, Next, DivCeil, Met, FirstIn,
         Describes, DataHeader, IndexReach;
    var blocks := Count(fs, f);
    var count := (f.next.offset + blocks * ENTRY_SIZE - 1) / MD_SIZE;
    var entries := new IndexEntry[count](_ => IndexEntry(0, 0));
    var bl := new Blocklist(fs, f);
    var i, first := 0, true;
    ghost var k := 0;
    InitAt(fs, f);
    AccessRecorded(fs, f, blocks);
    ReachBounds(fs, f, 0);
    while bl.remain > 0 && i < count
      invariant bl.fs == fs && fresh(bl) && fresh(entries) && entries.Length == count
      invariant At(fs, f, k, bl.State()) && Usable(fs, bl.State())
      invariant (first <==> k == 0) && 4 * k <= |Stream(fs.img, f.next)| && k <= IndexReach(fs, f) <= blocks
      invariant i == (if k == 0 then 0 else Met(f, k)) && i <= count
      invariant forall j :: 0 <= j < i ==> Describes(fs, f, j + 1, entries[j])
      decreases bl.remain
    {
      BlockMet(fs, f, k, bl.State());
      ReachBounds(fs, f, k);
      if bl.cur.offset < ENTRY_SIZE && !first {
        entries[i] := IndexEntry(bl.block + bl.inputSize, (bl.cur.block - fs.inodeTable) % 0x1_0000_0000);
        i := i + 1;
      }
      first := false;
      NextAt(fs, f, k, bl.State());
      var ok := bl.Step();
      if !ok {
        return null;
      }
      k := k + 1;
    }
    LoopCovers(fs, f, k, i);
    ReachBounds(fs, f, k);
    idx := entries;
  }

  /** One turn of the filling loop: a small cursor offset means a new metadata block. */
  lemma BlockMet(fs: Fs, f: Inode, k: nat, s: ListState)
    requires fs.blockSize > 0 && WellFormedList(fs, f) && NearInodeTable(fs, f)
    requires Before(fs, f, k, s) && s.remain > 0
    ensures Met(f, 1) == 0
    ensures k > 0 && s.cur.offset >= ENTRY_SIZE ==> Met(f, k + 1) == Met(f, k)
    ensures k > 0 && s.cur.offset < ENTRY_SIZE ==>
              && Met(f, k + 1) == Met(f, k) + 1
              && Describes(fs, f, Met(f, k) + 1,
                           IndexEntry(s.NextBlock(), (s.cur.block - fs.inodeTable) % 0x1_0000_0000))
  {
    hide ChainPos, Advance, Stream, Location, FullBlocks, ValidCursor, DivCeil;
    CursorPlace(fs, f, k, s.cur);
    AdvanceConsumes(fs.img, f.next, 4 * k);
    EntryPlace(f.next.offset, k);
    EntryPlace(f.next.offset, Count(fs, f));
    assert MetaBlock(f, k) <= (f.next.offset + ENTRY_SIZE * Count(fs, f)) / MD_SIZE;
  }

  lemma LoopCovers(fs: Fs, f: Inode, k: nat, i: nat)
    requires fs.blockSize > 0 && f.next.offset < MD_SIZE && Count(fs, f) > 0 && k <= Count(fs, f)
    requires i == if k == 0 then 0 else Met(f, k)
    requires k == Count(fs, f) || i == Allocated(fs, f)
    ensures i == Recorded(fs, f)
  {
    EntryPlace(f.next.offset, Count(fs, f) - 1);
  }

  // ----- fast-forwarding

  /** Blocks skipped for a read at `start`. */
  function Skipped(fs: Fs, f: Inode, start: nat): nat
    requires fs.blockSize > 0 && f.next.offset < MD_SIZE
  {
    var block := start / fs.blockSize;
    if MetaBlock(f, block) == 0 || !Indexable(fs, f) then 0 else
      SkipBounds(f, block);
      FirstIn(f, MetaBlock(f, block))
  }

  /** The list cannot be told from one advanced by the number of steps to be skipped, which is at most
      the block wanted. At the fragment it is exhausted or stands at that place. */
  ghost predicate Placed(fs: Fs, f: Inode, start: nat, s: ListState)
    requires fs.blockSize > 0 && ValidCursor(fs.img, f.next) && f.next.offset < MD_SIZE
  {
    var block, skipped := start / fs.blockSize, Skipped(fs, f, start);
    && Usable(fs, s)
    && (block <= Count(fs, f) ==> s.remain == Count(fs, f) - skipped)
    && if block < Count(fs, f) then
         && skipped <= block
         && Walk(fs, Init(fs, f), skipped).Some?
         && SameView(fs, s, Walk(fs, Init(fs, f), skipped).value)
       else s.remain == 0 || Before(fs, f, skipped, s)
  }

  /** sqfs_blockidx_blocklist. `cached` is what the index cache holds for the inode, if anything;
      `stray` stands for whatever an entry that was not recorded or lies outside the array reads as;
      `outside` says that the lookup left the array, which is harmless only if that load is. */
  method FastForward(fs: Fs, f: Inode, start: nat, cached: array?<IndexEntry>, stray: IndexEntry)
    returns (bl: Blocklist, ok: bool, ghost outside: bool)
    requires fs.blockSize > 0 && WellFormedList(fs, f) && NearInodeTable(fs, f)
    requires cached != null ==> Count(fs, f) > 0 && IsIndex(fs, f, cached[..])
    ensures fresh(bl) && bl.fs == fs
    ensures ok <==> !(UsesIndex(fs, f, start) && cached == null && |Stream(fs.img, f.next)| < 4 * IndexReach(fs, f))
    ensures outside <==> ok && LooksOutside(fs, f, start)
    ensures ok ==> Placed(fs, f, start, bl.State())
  {
    hide Advance, Stream, ValidCursor, FullBlocks, ChainPos, Location, Entry, Next, DivCeil, Count, Init, Walk,
         Before, Usable, SameView, WellFormedList, Placed;
    AtStart(fs, f);
    bl := new Blocklist(fs, f);
    var block := start / fs.blockSize;
    if block > bl.remain {
      bl.remain := 0;
      PlacedEarly(fs, f, start, bl.State());
      return bl, true, false;
    }
    var metablock := (bl.cur.offset + block * ENTRY_SIZE) / MD_SIZE;
    if metablock == 0 {
      PlacedEarly(fs, f, start, bl.State());
      return bl, true, false;
    }
    if !Indexable(fs, f) {
      PlacedEarly(fs, f, start, bl.State());
      return bl, true, false;
    }
    var idx := cached;
    if idx == null {
      idx := Add(fs, f);
      if idx == null {
        return bl, false, false;
      }
    }
    outside := Jump(fs, f, start, bl, idx, stray);
    ok := true;
  }

  /** The lookup itself, and the jump. */
  method Jump(fs: Fs, f: Inode, start: nat, bl: Blocklist, idx: array<IndexEntry>, stray: IndexEntry)
    returns (ghost outside: bool)
    requires fs.blockSize > 0 && WellFormedList(fs, f) && UsesIndex(fs, f, start) && bl.State() == Init(fs, f)
    requires Count(fs, f) > 0 && IsIndex(fs, f, idx[..])
    modifies bl
    ensures outside <==> LooksOutside(fs, f, start)
    ensures Placed(fs, f, start, bl.State())
  {
    hide Advance, Stream, ValidCursor, FullBlocks, ChainPos, Location, Entry, Next, DivCeil, Count, Init, Walk,
         Before, Usable, SameView, WellFormedList;
    AtStart(fs, f);
    var block := start / fs.blockSize;
    var metablock := (bl.cur.offset + block * ENTRY_SIZE) / MD_SIZE;
    SkipBounds(f, block);
    AccessRecorded(fs, f, block);
    AccessAllocated(fs, f, block);
    outside := metablock - 1 >= idx.Length;
    var skipped := metablock * MD_SIZE / ENTRY_SIZE - bl.cur.offset / ENTRY_SIZE;
    assert skipped == FirstIn(f, metablock) == Skipped(fs, f, start);
    var e := if metablock - 1 < idx.Length then idx[metablock - 1] else stray;
    bl.cur := Cursor(e.mdBlock + fs.inodeTable, bl.cur.offset % ENTRY_SIZE);
    bl.remain := bl.remain - skipped;
    bl.pos := skipped * fs.blockSize;
    bl.block := e.dataBlock;
    if metablock <= Recorded(fs, f) {
      assert Describes(fs, f, metablock, e);
      JumpLands(fs, f, metablock, e, bl.State());
    }
  }

  /** No index is used: the list is as it was, or exhausted past its end. */
  lemma PlacedEarly(fs: Fs, f: Inode, start: nat, s: ListState)
    requires fs.blockSize > 0 && WellFormedList(fs, f)
    requires if start / fs.blockSize > Count(fs, f) then s.remain == 0 else s == Init(fs, f) && !UsesIndex(fs, f, start)
    ensures Placed(fs, f, start, s)
  {
    hide ValidCursor, Stream, Advance, Location, FullBlocks, DivCeil;
    AtStart(fs, f);
  }

  /** The list as it is before any step. */
  lemma AtStart(fs: Fs, f: Inode)
    requires fs.blockSize > 0 && WellFormedList(fs, f)
    ensures ValidCursor(fs.img, f.next) && f.next.offset < MD_SIZE
    ensures var s := Init(fs, f);
            && s.remain == Count(fs, f) && s.cur == f.next && s.pos == 0 && !s.started && s.header == s.inputSize == 0
            && Usable(fs, s) && Walk(fs, s, 0) == Some(s) && SameView(fs, s, s) && Before(fs, f, 0, s)
    ensures forall s: ListState :: s.remain == 0 ==> Usable(fs, s)
  {
    hide ValidCursor, Stream;
    InitAt(fs, f);
  }

  lemma JumpLands(fs: Fs, f: Inode, m: nat, e: IndexEntry, s: ListState)
    requires fs.blockSize > 0 && WellFormedList(fs, f) && m > 0
    requires 0 <= FirstIn(f, m) < Count(fs, f) && Describes(fs, f, m, e)
    requires f.next.offset + 4 * FirstIn(f, m) == m * MD_SIZE + f.next.offset % 4
    requires s == ListState(Count(fs, f) - FirstIn(f, m), Cursor(e.mdBlock + fs.inodeTable, f.next.offset % ENTRY_SIZE),
                            false, FirstIn(f, m) * fs.blockSize, e.dataBlock, 0, 0)
    ensures Usable(fs, s) && Before(fs, f, FirstIn(f, m), s)
    ensures Walk(fs, Init(fs, f), FirstIn(f, m)).Some?
    ensures SameView(fs, s, Walk(fs, Init(fs, f), FirstIn(f, m)).value)
  {
    hide Advance, Stream, FullBlocks, ChainPos, Location, Entry, Next, ValidCursor, Walk, Count;
    var k := FirstIn(f, m);
    WalkReadsList(fs, f, k);
    var w := Walk(fs, Init(fs, f), k).value;
    JumpPlace(fs, f, m, w.cur);
  }

  /** The cursor before the first size that starts in metadata block m. */
  lemma JumpPlace(fs: Fs, f: Inode, m: nat, cur: Cursor)
    requires fs.blockSize > 0 && WellFormedList(fs, f) && m > 0 && 0 <= FirstIn(f, m) < Count(fs, f)
    requires f.next.offset + 4 * FirstIn(f, m) == m * MD_SIZE + f.next.offset % 4
    requires Advance(fs.img, f.next, 4 * FirstIn(f, m)) == Some(cur)
    ensures cur == Cursor(ChainPos(fs.img, f.next.block, m), f.next.offset % 4)
  {
    hide Advance, Stream, FullBlocks, ChainPos, ValidCursor, Count, WellFormedList, Met;
    CursorPlace(fs, f, FirstIn(f, m), cur);
  }
}
