/** Reading a byte range of a regular file (file.c), from blocks, holes and a fragment tail. */
module ReadRange {
  import opened Bytes
  import opened Metadata
  import opened DataBlocks
  import opened BlockIndex

  // ----- what a file contains, block by block

  function Zeros(n: nat): seq<byte> { seq(n, _ => 0) }

  /** Bytes of the file that fall in listed block i. */
  function BlockLength(fs: Fs, f: Inode, i: nat): (n: nat)
    requires fs.blockSize > 0 && i < Count(fs, f)
    ensures 0 < n <= fs.blockSize
  {
    BlocksCover(fs, f);
    Min(f.fileSize - i * fs.blockSize, fs.blockSize)
  }

  /** Contents of listed block i; a stored size of zero is a hole. */
  function BlockBytes(fs: Fs, f: Inode, i: nat): Option<seq<byte>>
    requires fs.blockSize > 0 && ValidCursor(fs.img, f.next) && i < Count(fs, f)
  {
    match Entry(fs, f, i)
    case None => None
    case Some(h) =>
      if DataHeader(h).1 == 0 then Some(Zeros(BlockLength(fs, f, i)))
      else DataBlockRead(fs.img, Location(fs, f, i), h, fs.blockSize)
  }

  /** The block holding the tail of the file, if its table entry and the block itself can be read. */
  function FragBytes(fs: Fs, f: Inode): Option<seq<byte>>
    requires WellFormedFs(fs)
  {
    match FragLookup(fs, f.fragIdx)
    case None => None
    case Some(e) => DataBlockRead(fs.img, e.startBlock, e.size, fs.blockSize)
  }

  function TailLength(fs: Fs, f: Inode): nat
    requires fs.blockSize > 0
  {
    f.fileSize % fs.blockSize
  }

  /** Byte p of the file, or None if its block cannot be read. */
  function ByteAt(fs: Fs, f: Inode, p: nat): Option<byte>
    requires WellFormedFs(fs) && ValidCursor(fs.img, f.next)
  {
    var i, off := p / fs.blockSize, p % fs.blockSize;
    if i < Count(fs, f) then
      match BlockBytes(fs, f, i)
      case None => None
      case Some(data) => if off < |data| then Some(data[off]) else None
    else
      match FragBytes(fs, f)
      case None => None
      case Some(data) => if f.fragOff + off < |data| then Some(data[f.fragOff + off]) else None
  }

  /** As far as they can be read, blocks have the length the file size gives them. */
  ghost predicate WellFormedData(fs: Fs, f: Inode)
    requires WellFormedFs(fs) && ValidCursor(fs.img, f.next)
  {
    && (forall i :: 0 <= i < Count(fs, f) && BlockBytes(fs, f, i).Some? ==>
          |BlockBytes(fs, f, i).value| == BlockLength(fs, f, i))
    && (FragBytes(fs, f).Some? ==> f.fragOff + TailLength(fs, f) <= |FragBytes(fs, f).value|)
  }

  ghost predicate WellFormed(fs: Fs, f: Inode) {
    && WellFormedFs(fs)
    && WellFormedList(fs, f)
    && NearInodeTable(fs, f)
    && WellFormedData(fs, f)
  }

  /** Every block of the file can be read. */
  ghost predicate AllReadable(fs: Fs, f: Inode)
    requires WellFormedFs(fs) && ValidCursor(fs.img, f.next)
  {
    && 4 * Count(fs, f) <= |Stream(fs.img, f.next)|
    && (forall i :: 0 <= i < Count(fs, f) ==> BlockBytes(fs, f, i).Some?)
    && (f.fragIdx != INVALID_FRAG ==> FragBytes(fs, f).Some?)
  }

  /** `buf` is what the file holds from `start` on. */
  ghost predicate Holds(fs: Fs, f: Inode, start: nat, buf: seq<byte>)
    requires WellFormedFs(fs) && ValidCursor(fs.img, f.next)
  {
    forall j :: 0 <= j < |buf| ==> ByteAt(fs, f, start + j) == Some(buf[j])
  }

  /** A listed block of stored size zero takes no space and reads as zeros. */
  lemma HolesAreZero(fs: Fs, f: Inode, p: nat)
    requires WellFormedFs(fs) && ValidCursor(fs.img, f.next) && p < f.fileSize
    requires p / fs.blockSize < Count(fs, f) && Entry(fs, f, p / fs.blockSize).Some?
    requires StoredSize(fs, f, p / fs.blockSize) == 0
    ensures ByteAt(fs, f, p) == Some(0)
    ensures Location(fs, f, p / fs.blockSize + 1) == Location(fs, f, p / fs.blockSize)
  {
    hide ValidCursor, Entry, Count, DataHeader;
    DivMod(p, fs.blockSize);
    LocationStep(fs, f, p / fs.blockSize);
  }

  // ----- block arithmetic

  lemma PlaceInBlock(bs: nat, i: nat, off: nat)
    requires off < bs
    ensures (i * bs + off) / bs == i && (i * bs + off) % bs == off
  {
    ModUnique(i * bs + off, bs, i, off);
  }

  /** Listed blocks lie inside the file; together with the tail they cover it. */
  lemma BlocksCover(fs: Fs, f: Inode)
    requires fs.blockSize > 0
    ensures f.fragIdx == INVALID_FRAG ==> Count(fs, f) * fs.blockSize >= f.fileSize
    ensures f.fragIdx != INVALID_FRAG ==> Count(fs, f) * fs.blockSize + TailLength(fs, f) == f.fileSize
    ensures forall i: nat :: i < Count(fs, f) ==> i * fs.blockSize < f.fileSize
  {
    forall i: nat | i < Count(fs, f)
      ensures i * fs.blockSize < f.fileSize
    {
      if f.fragIdx == INVALID_FRAG {
        MulMono(i, Count(fs, f) - 1, fs.blockSize);
      } else {
        MulMono(i + 1, Count(fs, f), fs.blockSize);
        assert (i + 1) * fs.blockSize == i * fs.blockSize + fs.blockSize;
      }
    }
  }

  /** Appending a piece of listed block k. */
  lemma AppendBlock(fs: Fs, f: Inode, start: nat, buf: seq<byte>, k: nat, data: seq<byte>, off: nat, take: nat)
    requires WellFormedFs(fs) && ValidCursor(fs.img, f.next)
    requires Holds(fs, f, start, buf)
    requires k < Count(fs, f) && BlockBytes(fs, f, k) == Some(data) && |data| <= fs.blockSize
    requires start + |buf| == k * fs.blockSize + off && off + take <= |data|
    ensures Holds(fs, f, start, buf + data[off..off + take])
  {
    hide BlockBytes, Count, ValidCursor;
    var buf' := buf + data[off..off + take];
    forall j | 0 <= j < |buf'|
      ensures ByteAt(fs, f, start + j) == Some(buf'[j])
    {
      if j >= |buf| {
        PlaceInBlock(fs.blockSize, k, off + j - |buf|);
        assert start + j == k * fs.blockSize + (off + j - |buf|);
      }
    }
  }

  lemma AppendTail(fs: Fs, f: Inode, start: nat, buf: seq<byte>, data: seq<byte>, off: nat, take: nat)
    requires WellFormedFs(fs) && ValidCursor(fs.img, f.next)
    requires Holds(fs, f, start, buf)
    requires FragBytes(fs, f) == Some(data) && f.fragOff + TailLength(fs, f) <= |data|
    requires start + |buf| == Count(fs, f) * fs.blockSize + off && off + take <= TailLength(fs, f)
    ensures Holds(fs, f, start, buf + data[f.fragOff + off..f.fragOff + off + take])
  {
    hide FragBytes, Count, ValidCursor;
    var buf' := buf + data[f.fragOff + off..f.fragOff + off + take];
    forall j | 0 <= j < |buf'|
      ensures ByteAt(fs, f, start + j) == Some(buf'[j])
    {
      if j >= |buf| {
        PlaceInBlock(fs.blockSize, Count(fs, f), off + j - |buf|);
        assert start + j == Count(fs, f) * fs.blockSize + (off + j - |buf|);
      }
    }
  }

  // ----- the read loop

  /** Between turns: the list stands before block k, and either nothing has been delivered and
      block k is not past the one wanted, or everything before block k has been delivered. */
  ghost predicate Progress(fs: Fs, f: Inode, start: nat, got: nat, readOff: nat, k: nat, s: ListState)
    requires fs.blockSize > 0 && ValidCursor(fs.img, f.next)
  {
    && Usable(fs, s)
    && if got == 0 then
         && readOff == start % fs.blockSize
         && ((Before(fs, f, k, s) && k <= start / fs.blockSize)
             || (s.remain == 0 && k == Count(fs, f) == start / fs.blockSize))
       else
         Before(fs, f, k, s) && readOff == 0 && Min(k * fs.blockSize, f.fileSize) == start + got
  }

  lemma StartProgress(fs: Fs, f: Inode, start: nat, s: ListState) returns (k: nat)
    requires fs.blockSize > 0 && WellFormedList(fs, f) && start < f.fileSize
    requires Placed(fs, f, start, s)
    ensures Progress(fs, f, start, 0, start % fs.blockSize, k, s)
    ensures k == Skipped(fs, f, start) <= start / fs.blockSize <= Count(fs, f)
    ensures WellFormedFs(fs) ==> Swept(fs, f, start, k)
  {
    hide Walk, Advance, Stream, Location, FullBlocks, ValidCursor, DivCeil;
    StartBlock(fs, f, start);
    k := Skipped(fs, f, start);
    if start / fs.blockSize < Count(fs, f) {
      WalkReadsList(fs, f, k);
    }
  }

  /** No position inside the file lies past the block after the listed ones. */
  lemma StartBlock(fs: Fs, f: Inode, start: nat)
    requires fs.blockSize > 0 && start < f.fileSize
    ensures start / fs.blockSize <= Count(fs, f)
    ensures start / fs.blockSize == Count(fs, f) ==>
            f.fragIdx != INVALID_FRAG && start % fs.blockSize < TailLength(fs, f)
    ensures start == start / fs.blockSize * fs.blockSize + start % fs.blockSize
  {
    BlocksCover(fs, f);
    var b, c := start / fs.blockSize, Count(fs, f);
    assert start == b * fs.blockSize + start % fs.blockSize;
    assert (c + 1) * fs.blockSize == c * fs.blockSize + fs.blockSize;
    if b > c {
      MulMono(c + 1, b, fs.blockSize);
    }
  }

  /** The block just stepped over lies before the range. */
  lemma SkipBlock(fs: Fs, f: Inode, start: nat, got: nat, readOff: nat, k: nat, s: ListState, s': ListState)
    requires fs.blockSize > 0 && ValidCursor(fs.img, f.next) && start < f.fileSize
    requires Progress(fs, f, start, got, readOff, k, s) && s.remain > 0
    requires At(fs, f, k + 1, s') && Usable(fs, s') && s'.pos == k * fs.blockSize
    ensures k * fs.blockSize + fs.blockSize <= start ==> Progress(fs, f, start, got, readOff, k + 1, s') && got == 0
    ensures k * fs.blockSize + fs.blockSize > start && got == 0 ==> k == start / fs.blockSize
    ensures k * fs.blockSize + fs.blockSize > start ==> start + got == k * fs.blockSize + readOff
    ensures k < Count(fs, f)
    ensures k * fs.blockSize + fs.blockSize > start ==> readOff < BlockLength(fs, f, k)
  {
    hide Advance, Stream, Location, Entry, ValidCursor, DivCeil, StoredSize;
    BlocksCover(fs, f);
    StartBlock(fs, f, start);
    assert (k + 1) * fs.blockSize == k * fs.blockSize + fs.blockSize;
    if k * fs.blockSize + fs.blockSize > start && got == 0 && k < start / fs.blockSize {
      MulMono(k + 1, start / fs.blockSize, fs.blockSize);
    }
  }

  /** The loop body delivered the rest of block k, or all that was asked for. */
  lemma TakeBlock(fs: Fs, f: Inode, start: nat, size: nat, got: nat, readOff: nat, k: nat, s': ListState, take: nat)
    requires fs.blockSize > 0 && ValidCursor(fs.img, f.next) && got <= size
    requires k < Count(fs, f) && At(fs, f, k + 1, s') && Usable(fs, s')
    requires start + got == k * fs.blockSize + readOff && readOff < BlockLength(fs, f, k)
    requires take == Min(BlockLength(fs, f, k) - readOff, size - got)
    ensures start + got + take <= f.fileSize
    ensures got + take < size ==> take > 0 && Progress(fs, f, start, got + take, 0, k + 1, s')
  {
    hide Advance, Stream, Location, Entry, ValidCursor, DivCeil, StoredSize;
    assert (k + 1) * fs.blockSize == k * fs.blockSize + fs.blockSize;
  }

  // ----- when a range can be read

  /** Where a read ends. */
  function EndOf(f: Inode, start: nat, size: nat): nat { Min(start + size, f.fileSize) }

  /** How many listed blocks begin before that. */
  function Wanted(fs: Fs, f: Inode, start: nat, size: nat): (n: nat)
    requires fs.blockSize > 0
    ensures n <= Count(fs, f)
  {
    Min(DivCeil(EndOf(f, start, size), fs.blockSize), Count(fs, f))
  }

  ghost predicate BlocksReadable(fs: Fs, f: Inode, from: int, to: nat)
    requires fs.blockSize > 0 && ValidCursor(fs.img, f.next) && to <= Count(fs, f)
  {
    forall i: nat :: from <= i < to ==> BlockBytes(fs, f, i).Some?
  }

  /** The index, if one has to be built, can be; the list can be read as far as the last block
      wanted; so can the blocks that overlap the range, and the fragment if the range goes on. */
  ghost predicate RangeReadable(fs: Fs, f: Inode, start: nat, size: nat, cached: bool)
    requires WellFormedFs(fs) && ValidCursor(fs.img, f.next) && f.next.offset < MD_SIZE
  {
    && (UsesIndex(fs, f, start) && !cached ==> 4 * IndexReach(fs, f) <= |Stream(fs.img, f.next)|)
    && (Skipped(fs, f, start) < Wanted(fs, f, start, size) ==>
         4 * Wanted(fs, f, start, size) <= |Stream(fs.img, f.next)|)
    && BlocksReadable(fs, f, start / fs.blockSize, Wanted(fs, f, start, size))
    && (f.fragIdx != INVALID_FRAG && start + size > Count(fs, f) * fs.blockSize ==> FragBytes(fs, f).Some?)
  }

  /** The part of that which has been found to hold before block k. */
  ghost predicate Swept(fs: Fs, f: Inode, start: nat, k: nat)
    requires WellFormedFs(fs) && ValidCursor(fs.img, f.next) && f.next.offset < MD_SIZE
  {
    && k <= Count(fs, f)
    && (Skipped(fs, f, start) < k ==> 4 * k <= |Stream(fs.img, f.next)|)
    && BlocksReadable(fs, f, start / fs.blockSize, k)
  }

  lemma ReadableAll(fs: Fs, f: Inode, start: nat, size: nat, cached: bool)
    requires WellFormedFs(fs) && ValidCursor(fs.img, f.next) && f.next.offset < MD_SIZE && AllReadable(fs, f)
    ensures RangeReadable(fs, f, start, size, cached)
  {
    hide ValidCursor, Stream, BlockBytes, FragBytes, Skipped, Count, DivCeil, IndexReach, EndOf;
    if UsesIndex(fs, f, start) {
      ReachBounds(fs, f, 0);
    }
  }

  /** The index decides first, if it has to be built. */
  lemma IndexDecides(fs: Fs, f: Inode, start: nat, size: nat, cached: bool)
    requires WellFormedFs(fs) && ValidCursor(fs.img, f.next) && f.next.offset < MD_SIZE
    requires UsesIndex(fs, f, start) && !cached && |Stream(fs.img, f.next)| < 4 * IndexReach(fs, f)
    ensures !RangeReadable(fs, f, start, size, cached)
  {
    hide ValidCursor, Stream, BlockBytes, FragBytes, Skipped, Count, UsesIndex, IndexReach;
  }

  lemma SweptMore(fs: Fs, f: Inode, start: nat, k: nat, s: ListState)
    requires WellFormedFs(fs) && ValidCursor(fs.img, f.next) && f.next.offset < MD_SIZE && Swept(fs, f, start, k)
    requires At(fs, f, k + 1, s) && (start / fs.blockSize <= k ==> BlockBytes(fs, f, k).Some?)
    ensures Swept(fs, f, start, k + 1)
  {
    hide ValidCursor, Stream, Advance, Count, BlockBytes, Skipped, Entry, Location, StoredSize;
    AdvanceConsumes(fs.img, f.next, 4 * (k + 1));
  }

  /** Between turns, with bytes still wanted, block k is wanted if it is listed. */
  lemma StillWanted(fs: Fs, f: Inode, start: nat, size: nat, got: nat, readOff: nat, k: nat, s: ListState)
    requires fs.blockSize > 0 && ValidCursor(fs.img, f.next) && start < f.fileSize && got < size
    requires Progress(fs, f, start, got, readOff, k, s) && start + got < f.fileSize
    ensures k < Count(fs, f) ==> k < Wanted(fs, f, start, size)
    ensures start / fs.blockSize <= Count(fs, f)
  {
    hide ValidCursor, Stream, Advance, Count, Location;
    StartBlock(fs, f, start);
    var bs, q := fs.blockSize, DivCeil(EndOf(f, start, size), fs.blockSize);
    if k < Count(fs, f) && q <= k {
      MulMono(q, k, bs);
      if got == 0 {
        MulMono(k, start / bs, bs);
      }
    }
  }

  /** Everything wanted has been found readable. */
  lemma SweptAll(fs: Fs, f: Inode, start: nat, size: nat, k: nat, cached: bool)
    requires WellFormedFs(fs) && ValidCursor(fs.img, f.next) && f.next.offset < MD_SIZE && Swept(fs, f, start, k)
    requires UsesIndex(fs, f, start) && !cached ==> 4 * IndexReach(fs, f) <= |Stream(fs.img, f.next)|
    requires if k == Count(fs, f)
             then f.fragIdx != INVALID_FRAG && start + size > k * fs.blockSize ==> FragBytes(fs, f).Some?
             else start + size <= k * fs.blockSize
    requires Wanted(fs, f, start, size) >= k
    ensures RangeReadable(fs, f, start, size, cached)
  {
    hide ValidCursor, Stream, Count, BlockBytes, FragBytes, Skipped, UsesIndex, IndexReach;
    var bs, q := fs.blockSize, DivCeil(EndOf(f, start, size), fs.blockSize);
    if k < Count(fs, f) {
      if q > k {
        MulMono(k, q - 1, bs);
      }
      MulMono(k, Count(fs, f), bs);
    }
  }

  /** The contents of the block the list has just described: zeros up to the end of the file for a
      hole, else what the disk holds. */
  function Fetch(fs: Fs, f: Inode, s: ListState): Option<seq<byte>>
    requires s.header < 0x1_0000_0000
  {
    if s.inputSize == 0 then
      var size := f.fileSize - s.pos; // converted to an unsigned type before it is compared
      Some(Zeros(if size < 0 || size > fs.blockSize then fs.blockSize else size))
    else DataBlockRead(fs.img, s.block, s.header, fs.blockSize)
  }

  /** sqfs_read_range: the bytes delivered, or None for an error. `outside` says that the block index
      was consulted outside its array, which the result survives only if that load is harmless. */
  method Read(fs: Fs, f: Inode, start: nat, size: int, cached: array?<IndexEntry>, stray: IndexEntry)
    returns (r: Option<seq<byte>>, ghost outside: bool)
    requires WellFormed(fs, f)
    requires cached != null ==> Count(fs, f) > 0 && IsIndex(fs, f, cached[..])
    ensures !f.regular || size < 0 || start > f.fileSize ==> r.None?
    ensures f.regular && size >= 0 && start == f.fileSize ==> r == Some([])
    ensures size == 0 && start < f.fileSize ==> r.None?
    ensures r.Some? && start < f.fileSize ==>
              && |r.value| == Min(size, f.fileSize - start)
              && Holds(fs, f, start, r.value)
    ensures f.regular && size > 0 && start < f.fileSize ==>
            (r.Some? <==> RangeReadable(fs, f, start, size, cached != null))
    ensures f.regular && size > 0 && start <= f.fileSize && AllReadable(fs, f) ==> r.Some?
    ensures outside <==>
              && f.regular && size >= 0 && start < f.fileSize && LooksOutside(fs, f, start)
              && (cached != null || 4 * IndexReach(fs, f) <= |Stream(fs.img, f.next)|)
  {
    hide Stream, ValidCursor, FullBlocks, ChainPos, Holds, RangeReadable, AllReadable, IndexReach, Placed, Describes;
    outside := false;
    if !f.regular || size < 0 || start > f.fileSize {
      return None, false;
    }
    if start == f.fileSize {
      return Some([]), false;
    }
    if AllReadable(fs, f) {
      ReadableAll(fs, f, start, size, cached != null);
    }
    var bl, ok;
    bl, ok, outside := FastForward(fs, f, start, cached, stray);
    if !ok {
      IndexDecides(fs, f, start, size, cached != null);
      return None, false;
    }
    r := ReadBlocks(fs, f, start, size, bl, cached != null);
  }

  /** What a step along the list gives: nothing yet, a block to take from, or an error. */
  datatype Piece = Unreadable | TooEarly | Piece(data: seq<byte>)

  method NextPiece(fs: Fs, f: Inode, start: nat, size: nat, bl: Blocklist, got: nat, readOff: nat, ghost k: nat,
                   ghost cached: bool)
    returns (r: Piece)
    requires WellFormed(fs, f) && start < f.fileSize && bl.fs == fs && bl.remain > 0 && got < size
    requires Progress(fs, f, start, got, readOff, k, bl.State()) && Swept(fs, f, start, k) && Skipped(fs, f, start) <= k
    modifies bl
    ensures r == Unreadable ==> !RangeReadable(fs, f, start, size, cached)
    ensures r != Unreadable ==> bl.remain < old(bl.remain) && Swept(fs, f, start, k + 1)
    ensures r == TooEarly ==> got == 0 && Progress(fs, f, start, got, readOff, k + 1, bl.State())
    ensures r.Piece? ==>
              && k < Count(fs, f) && k < Wanted(fs, f, start, size) && BlockBytes(fs, f, k) == Some(r.data)
              && readOff < |r.data| == BlockLength(fs, f, k) && start + got == k * fs.blockSize + readOff
              && At(fs, f, k + 1, bl.State()) && Usable(fs, bl.State())
  {
    hide Next, Stream, ValidCursor, FullBlocks, ChainPos, DataHeader, DataBlockRead, At, Progress, Skipped, Fetch,
         Swept, RangeReadable, Wanted, BlockBytes, FragBytes, Count, NearInodeTable, Usable, BlockLength;
    ghost var s := bl.State();
    StepForward(fs, f, start, got, readOff, k, s);
    StepDecides(fs, f, start, size, got, readOff, k, s, cached);
    var ok := bl.Step();
    if !ok {
      return Unreadable;
    }
    SkipBlock(fs, f, start, got, readOff, k, s, bl.State());
    EarlyBlock(fs, start, k);
    if bl.pos + fs.blockSize <= start {
      return TooEarly;
    }
    var block := Fetch(fs, f, bl.State());
    if block.None? {
      return Unreadable;
    }
    r := Piece(block.value);
  }

  lemma EarlyBlock(fs: Fs, start: nat, k: nat)
    requires fs.blockSize > 0
    ensures k * fs.blockSize + fs.blockSize <= start <==> k < start / fs.blockSize
  {
    var b := start / fs.blockSize;
    assert (k + 1) * fs.blockSize == k * fs.blockSize + fs.blockSize;
    if k < b {
      MulMono(k + 1, b, fs.blockSize);
    } else {
      MulMono(b, k, fs.blockSize);
    }
  }

  /** The loop of sqfs_read_range, over blocks and then the fragment. */
  method ReadBlocks(fs: Fs, f: Inode, start: nat, size: nat, bl: Blocklist, ghost cached: bool)
    returns (r: Option<seq<byte>>)
    requires WellFormed(fs, f) && start < f.fileSize && bl.fs == fs && Placed(fs, f, start, bl.State())
    requires UsesIndex(fs, f, start) && !cached ==> 4 * IndexReach(fs, f) <= |Stream(fs.img, f.next)|
    modifies bl
    ensures size == 0 ==> r.None?
    ensures size > 0 ==> (r.Some? <==> RangeReadable(fs, f, start, size, cached))
    ensures r.Some? ==> |r.value| == Min(size, f.fileSize - start) && Holds(fs, f, start, r.value)
  {
    hide Next, Stream, ValidCursor, FullBlocks, ChainPos, DataHeader, DataBlockRead, At, Holds, Progress, Skipped,
         Fetch, Swept, RangeReadable, Wanted, UsesIndex, IndexReach, BlockBytes, FragBytes, Placed, Count,
         NearInodeTable, Usable, BlockLength;
    var readOff: nat := start % fs.blockSize;
    var left, buf := size, [];
    ghost var k := StartProgress(fs, f, start, bl.State());
    HoldsNothing(fs, f, start);
    while left > 0
      invariant bl.fs == fs
      invariant 0 <= left <= size && |buf| == size - left
      invariant start + |buf| <= f.fileSize
      invariant Holds(fs, f, start, buf)
      invariant left > 0 ==> Progress(fs, f, start, |buf|, readOff, k, bl.State()) && Swept(fs, f, start, k)
      invariant Skipped(fs, f, start) <= k
      invariant left == 0 && size > 0 ==> RangeReadable(fs, f, start, size, cached)
      decreases bl.remain
    {
      ghost var s := bl.State();
      var data, dataOff, dataSize, take;
      var fragment := bl.remain == 0;
      if fragment {
        ReachedTail(fs, f, start, |buf|, readOff, k, s);
        TailDecides(fs, f, start, size, |buf|, readOff, k, s, cached);
        if f.fragIdx == INVALID_FRAG {
          break;
        }
        var frag := FragBytes(fs, f);
        if frag.None? {
          return None;
        }
        data, dataOff, dataSize := frag.value, f.fragOff, f.fileSize % fs.blockSize;
      } else {
        var piece := NextPiece(fs, f, start, size, bl, |buf|, readOff, k, cached);
        if piece == Unreadable {
          return None;
        }
        if piece == TooEarly {
          k := k + 1;
          continue;
        }
        data, dataOff, dataSize := piece.data, 0, |piece.data|;
      }
      take := dataSize - readOff;
      if take > left {
        take := left;
      }
      if fragment {
        AppendTail(fs, f, start, buf, data, readOff, take);
      } else {
        BlockTaken(fs, f, start, size, buf, readOff, k, bl.State(), data, take, cached);
        k := k + 1;
      }
      buf := buf + data[dataOff + readOff..dataOff + readOff + take];
      readOff := 0;
      left := left - take;
      if fragment {
        break;
      }
    }
    r := if |buf| > 0 then Some(buf) else None;
  }

  /** The rest of block k, or all that was still wanted, has been delivered. */
  lemma BlockTaken(fs: Fs, f: Inode, start: nat, size: nat, buf: seq<byte>, readOff: nat, k: nat, s: ListState,
                   data: seq<byte>, take: nat, cached: bool)
    requires WellFormedFs(fs) && ValidCursor(fs.img, f.next) && f.next.offset < MD_SIZE && |buf| < size
    requires k < Count(fs, f) && BlockBytes(fs, f, k) == Some(data) && |data| == BlockLength(fs, f, k)
    requires At(fs, f, k + 1, s) && Usable(fs, s) && Swept(fs, f, start, k + 1) && k < Wanted(fs, f, start, size)
    requires start + |buf| == k * fs.blockSize + readOff && readOff < |data| && Holds(fs, f, start, buf)
    requires take == Min(|data| - readOff, size - |buf|)
    requires UsesIndex(fs, f, start) && !cached ==> 4 * IndexReach(fs, f) <= |Stream(fs.img, f.next)|
    ensures Holds(fs, f, start, buf + data[readOff..readOff + take]) && start + |buf| + take <= f.fileSize
    ensures |buf| + take < size ==> take > 0 && Progress(fs, f, start, |buf| + take, 0, k + 1, s)
    ensures |buf| + take == size ==> RangeReadable(fs, f, start, size, cached)
  {
    hide ValidCursor, Stream, BlockBytes, Skipped, UsesIndex, IndexReach, At, Swept, Holds, Progress, RangeReadable,
         Wanted, Count;
    AppendBlock(fs, f, start, buf, k, data, readOff, take);
    TakeBlock(fs, f, start, size, |buf|, readOff, k, s, take);
    if |buf| + take == size {
      LastBlock(fs, f, start, size, k, cached);
    }
  }

  /** With no blocks left, the fragment decides, if there is one. */
  lemma TailDecides(fs: Fs, f: Inode, start: nat, size: nat, got: nat, readOff: nat, k: nat, s: ListState, cached: bool)
    requires WellFormedFs(fs) && ValidCursor(fs.img, f.next) && f.next.offset < MD_SIZE && start < f.fileSize
             && got < size
    requires Progress(fs, f, start, got, readOff, k, s) && s.remain == 0 && Swept(fs, f, start, k)
             && start + got <= f.fileSize
    requires UsesIndex(fs, f, start) && !cached ==> 4 * IndexReach(fs, f) <= |Stream(fs.img, f.next)|
    ensures RangeReadable(fs, f, start, size, cached) <==> f.fragIdx == INVALID_FRAG || FragBytes(fs, f).Some?
  {
    hide ValidCursor, Stream, BlockBytes, FragBytes, Skipped, UsesIndex, IndexReach, Progress, Swept;
    ReachedTail(fs, f, start, got, readOff, k, s);
    if f.fragIdx == INVALID_FRAG || FragBytes(fs, f).Some? {
      WantedAll(fs, f, start, size);
      SweptAll(fs, f, start, size, k, cached);
    }
  }

  lemma WantedAll(fs: Fs, f: Inode, start: nat, size: nat)
    requires fs.blockSize > 0
    requires if f.fragIdx == INVALID_FRAG then EndOf(f, start, size) == f.fileSize
             else EndOf(f, start, size) >= Count(fs, f) * fs.blockSize
    ensures Wanted(fs, f, start, size) == Count(fs, f)
  {
    var q, c := DivCeil(EndOf(f, start, size), fs.blockSize), Count(fs, f);
    if f.fragIdx != INVALID_FRAG && q < c {
      MulMono(q + 1, c, fs.blockSize);
    }
  }

  /** Stepping to block k fails only if the range cannot be read, and so does fetching it if it
      overlaps the range. */
  lemma StepDecides(fs: Fs, f: Inode, start: nat, size: nat, got: nat, readOff: nat, k: nat, s: ListState, cached: bool)
    requires WellFormedFs(fs) && ValidCursor(fs.img, f.next) && f.next.offset < MD_SIZE && start < f.fileSize
             && got < size
    requires Progress(fs, f, start, got, readOff, k, s) && s.remain > 0 && Swept(fs, f, start, k)
    requires Skipped(fs, f, start) <= k
    ensures Next(fs, s).None? ==> !RangeReadable(fs, f, start, size, cached)
    ensures Next(fs, s).Some? && k >= start / fs.blockSize && BlockBytes(fs, f, k).None? ==>
            !RangeReadable(fs, f, start, size, cached)
    ensures Next(fs, s).Some? && (k < start / fs.blockSize || BlockBytes(fs, f, k).Some?) ==> Swept(fs, f, start, k + 1)
    ensures k < Wanted(fs, f, start, size)
  {
    hide ValidCursor, Stream, BlockBytes, FragBytes, Skipped, UsesIndex, IndexReach, Swept, DivCeil, Advance,
         Location, Entry, StoredSize;
    BlocksCover(fs, f);
    StillWanted(fs, f, start, size, got, readOff, k, s);
    NextAt(fs, f, k, s);
    if Next(fs, s).Some? && (k < start / fs.blockSize || BlockBytes(fs, f, k).Some?) {
      SweptMore(fs, f, start, k, Next(fs, s).value);
    }
  }

  /** Nothing is wanted after block k. */
  lemma LastBlock(fs: Fs, f: Inode, start: nat, size: nat, k: nat, cached: bool)
    requires WellFormedFs(fs) && ValidCursor(fs.img, f.next) && f.next.offset < MD_SIZE
    requires Swept(fs, f, start, k + 1) && k < Wanted(fs, f, start, size)
    requires UsesIndex(fs, f, start) && !cached ==> 4 * IndexReach(fs, f) <= |Stream(fs.img, f.next)|
    requires start + size <= k * fs.blockSize + fs.blockSize
    ensures RangeReadable(fs, f, start, size, cached)
  {
    hide ValidCursor, Stream, BlockBytes, FragBytes, Skipped, UsesIndex, IndexReach, DivCeil;
    assert (k + 1) * fs.blockSize == k * fs.blockSize + fs.blockSize;
    SweptAll(fs, f, start, size, k + 1, cached);
  }

  lemma HoldsNothing(fs: Fs, f: Inode, start: nat)
    requires WellFormedFs(fs) && ValidCursor(fs.img, f.next)
    ensures Holds(fs, f, start, [])
  {
  }

  /** No blocks remain: everything listed has been passed, and the rest is the tail. */
  lemma ReachedTail(fs: Fs, f: Inode, start: nat, got: nat, readOff: nat, k: nat, s: ListState)
    requires fs.blockSize > 0 && ValidCursor(fs.img, f.next) && start < f.fileSize
    requires Progress(fs, f, start, got, readOff, k, s) && s.remain == 0
    ensures k == Count(fs, f)
    ensures f.fragIdx == INVALID_FRAG ==> got > 0 && start + got == f.fileSize
    ensures f.fragIdx != INVALID_FRAG ==>
              start + got == Count(fs, f) * fs.blockSize + readOff && readOff <= TailLength(fs, f)
                && (got == 0 ==> readOff < TailLength(fs, f))
    ensures f.fragIdx != INVALID_FRAG ==> f.fileSize == Count(fs, f) * fs.blockSize + TailLength(fs, f)
  {
    hide Advance, Stream, Location, ValidCursor, DivCeil;
    BlocksCover(fs, f);
    StartBlock(fs, f, start);
  }

  /** Blocks remain: the next step describes block k as the flat list does. */
  lemma StepForward(fs: Fs, f: Inode, start: nat, got: nat, readOff: nat, k: nat, s: ListState)
    requires fs.blockSize > 0 && ValidCursor(fs.img, f.next) && start < f.fileSize
    requires Progress(fs, f, start, got, readOff, k, s) && s.remain > 0
    ensures Usable(fs, s) && k < Count(fs, f)
    ensures Next(fs, s).None? ==> |Stream(fs.img, f.next)| < 4 * Count(fs, f)
    ensures Next(fs, s).Some? ==>
              var s' := Next(fs, s).value;
              && At(fs, f, k + 1, s')
              && s'.pos == k * fs.blockSize
              && s'.header < 0x1_0000_0000
              && s'.remain < s.remain
              && BlockBytes(fs, f, k) == Fetch(fs, f, s')
  {
    hide Advance, Stream, Location, Entry, ValidCursor, DivCeil, DataBlockRead, DataHeader, LittleEndian;
    StartBlock(fs, f, start);
    NextAt(fs, f, k, s);
  }

  // ----- whole files

  /** The bytes delivered determine the result: there is one file to read. */
  lemma HoldsUnique(fs: Fs, f: Inode, start: nat, a: seq<byte>, b: seq<byte>)
    requires WellFormedFs(fs) && ValidCursor(fs.img, f.next)
    requires Holds(fs, f, start, a) && Holds(fs, f, start, b) && |a| == |b|
    ensures a == b
  {
    hide ByteAt, ValidCursor;
    forall j | 0 <= j < |a|
      ensures a[j] == b[j]
    {
      assert ByteAt(fs, f, start + j) == Some(a[j]);
      assert ByteAt(fs, f, start + j) == Some(b[j]);
    }
  }

  /** Adjacent ranges join. */
  lemma HoldsJoin(fs: Fs, f: Inode, start: nat, a: seq<byte>, b: seq<byte>)
    requires WellFormedFs(fs) && ValidCursor(fs.img, f.next)
    requires Holds(fs, f, start, a) && Holds(fs, f, start + |a|, b)
    ensures Holds(fs, f, start, a + b)
  {
    hide ByteAt, ValidCursor;
    forall j | 0 <= j < |a + b|
      ensures ByteAt(fs, f, start + j) == Some((a + b)[j])
    {
      if j >= |a| {
        assert ByteAt(fs, f, start + |a| + (j - |a|)) == Some(b[j - |a|]);
      }
    }
  }

  /** In a readable, well-formed file every position holds a byte. */
  lemma EveryByteExists(fs: Fs, f: Inode, p: nat)
    requires WellFormed(fs, f) && AllReadable(fs, f) && p < f.fileSize
    ensures ByteAt(fs, f, p).Some?
  {
    hide ValidCursor, NearInodeTable, WellFormedList, Stream, BlockBytes, FragBytes, Count, BlockLength, TailLength,
         EntryFits;
    WellFormedParts(fs, f);
    StartBlock(fs, f, p);
    var i := p / fs.blockSize;
    if i < Count(fs, f) {
      InBlock(fs, f, p);
      assert BlockBytes(fs, f, i).Some?;
    }
  }

  lemma InBlock(fs: Fs, f: Inode, p: nat)
    requires fs.blockSize > 0 && p < f.fileSize && p / fs.blockSize < Count(fs, f)
    ensures p % fs.blockSize < BlockLength(fs, f, p / fs.blockSize)
  {
    hide Count;
    DivMod(p, fs.blockSize);
  }

  /** The chunked copy loop of the extractor: whatever the chunk size, the pieces join to the whole
      file. */
  method CopyOut(fs: Fs, f: Inode, chunk: nat) returns (r: Option<seq<byte>>)
    requires WellFormed(fs, f) && chunk > 0
    ensures r.Some? ==> |r.value| == f.fileSize && Holds(fs, f, 0, r.value)
    ensures f.regular && AllReadable(fs, f) ==> r.Some?
  {
    hide Holds, WellFormed, AllReadable, ValidCursor, FullBlocks;
    var done, want, out := 0, chunk, [];
    WellFormedParts(fs, f);
    HoldsNothing(fs, f, 0);
    while done < f.fileSize
      invariant want > 0 && |out| == done <= f.fileSize
      invariant Holds(fs, f, 0, out)
      decreases f.fileSize - done
    {
      var piece, outside := Read(fs, f, done, want, null, IndexEntry(0, 0));
      if piece.None? {
        return None;
      }
      HoldsJoin(fs, f, 0, out, piece.value);
      want := |piece.value|;
      out := out + piece.value;
      done := done + want;
    }
    r := Some(out);
  }

  lemma WellFormedParts(fs: Fs, f: Inode)
    requires WellFormed(fs, f)
    ensures WellFormedFs(fs) && ValidCursor(fs.img, f.next)
  {
  }
}
