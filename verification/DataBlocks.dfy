/** The list of data blocks of a regular file (file.c): a walk over packed block sizes. */
module DataBlocks {
  import opened Bytes
  import opened Metadata

  const INVALID_FRAG := 0xffff_ffff
  const ENTRY_SIZE := 4

  const FRAG_SIZE := 16

  /** Where a fragment block is, and its data header. */
  datatype FragEntry = FragEntry(startBlock: nat, size: nat)

  /** The fragment table: how many entries, and the metadata blocks they lie in. */
  datatype FragTable = FragTable(count: nat, blocks: seq<nat>)

  datatype Fs = Fs(img: Image, blockSize: nat, inodeTable: nat, frags: FragTable)

  /** A decoded inode; `next` is where its block list starts. */
  datatype Inode = Inode(regular: bool, next: Cursor, startBlock: nat, fileSize: nat, fragIdx: nat, fragOff: nat)

  /** The fragment table has blocks enough, and as far as they can be read its entries lie in them. */
  ghost predicate WellFormedFs(fs: Fs) {
    && fs.blockSize > 0
    && FRAG_SIZE * fs.frags.count <= MD_SIZE * |fs.frags.blocks|
    && forall i :: 0 <= i < fs.frags.count ==> EntryFits(fs, i)
  }

  predicate EntryFits(fs: Fs, i: nat)
    requires i < fs.frags.count && FRAG_SIZE * fs.frags.count <= MD_SIZE * |fs.frags.blocks|
  {
    var b := MdBlockRead(fs.img, fs.frags.blocks[FRAG_SIZE * i / MD_SIZE]);
    b.Some? ==> FRAG_SIZE * i % MD_SIZE + FRAG_SIZE <= |b.value.data|
  }

  /** The bytes of entry i of the fragment table (sqfs_table_get). */
  function FragRaw(fs: Fs, i: nat): (r: Option<seq<byte>>)
    requires WellFormedFs(fs)
    ensures r.Some? ==> |r.value| == FRAG_SIZE
  {
    if i >= fs.frags.count then None else
    assert EntryFits(fs, i);
    match MdBlockRead(fs.img, fs.frags.blocks[FRAG_SIZE * i / MD_SIZE])
    case None => None
    case Some(b) => Some(b.data[FRAG_SIZE * i % MD_SIZE..][..FRAG_SIZE])
  }

  /** sqfs_frag_entry */
  function FragLookup(fs: Fs, i: nat): (r: Option<FragEntry>)
    requires WellFormedFs(fs)
    ensures r.Some? ==> r.value.size < 0x1_0000_0000
  {
    if i == INVALID_FRAG then None else
    match FragRaw(fs, i)
    case None => None
    case Some(raw) =>
      HeaderBound(raw[8..12]);
      Some(FragEntry(LittleEndian(raw[..8]), LittleEndian(raw[8..12])))
  }

  /** The contents of table blocks one after the other. */
  function TableBytes(img: Image, blocks: seq<nat>): seq<byte>
    requires forall b <- blocks :: MdBlockRead(img, b).Some?
  {
    if blocks == [] then [] else
    assert blocks[0] in blocks;
    MdBlockRead(img, blocks[0]).value.data + TableBytes(img, blocks[1..])
  }

  /** In full blocks the table is a flat array: no entry straddles two of them. */
  lemma TableIsFlat(fs: Fs, i: nat)
    requires WellFormedFs(fs) && i < fs.frags.count
    requires forall b <- fs.frags.blocks :: MdBlockRead(fs.img, b).Some?
    requires forall j :: 0 <= j < |fs.frags.blocks| - 1 ==>
             |MdBlockRead(fs.img, fs.frags.blocks[j]).value.data| == MD_SIZE
    ensures FRAG_SIZE * i + FRAG_SIZE <= |TableBytes(fs.img, fs.frags.blocks)|
    ensures FragRaw(fs, i) == Some(TableBytes(fs.img, fs.frags.blocks)[FRAG_SIZE * i..][..FRAG_SIZE])
  {
    hide MdBlockRead;
    assert EntryFits(fs, i);
    TableAt(fs.img, fs.frags.blocks, FRAG_SIZE * i / MD_SIZE, FRAG_SIZE * i % MD_SIZE, FRAG_SIZE);
  }

  lemma {:induction false} TableAt(img: Image, blocks: seq<nat>, k: nat, off: nat, n: nat)
    requires forall b <- blocks :: MdBlockRead(img, b).Some?
    requires forall j :: 0 <= j < |blocks| - 1 ==> |MdBlockRead(img, blocks[j]).value.data| == MD_SIZE
    requires k < |blocks| && off + n <= |MdBlockRead(img, blocks[k]).value.data|
    ensures k * MD_SIZE + off + n <= |TableBytes(img, blocks)|
    ensures TableBytes(img, blocks)[k * MD_SIZE + off..][..n] == MdBlockRead(img, blocks[k]).value.data[off..][..n]
    decreases k
  {
    hide MdBlockRead;
    if k > 0 {
      TableAt(img, blocks[1..], k - 1, off, n);
      var head, rest := MdBlockRead(img, blocks[0]).value.data, TableBytes(img, blocks[1..]);
      assert (head + rest)[k * MD_SIZE + off..] == rest[(k - 1) * MD_SIZE + off..];
    }
  }

  /** The cursor behind an inode lies inside a metadata block, and the metadata blocks holding the
      block list are full except perhaps the last of the table. */
  predicate WellFormedList(fs: Fs, f: Inode)
    requires fs.blockSize > 0
  {
    && ValidCursor(fs.img, f.next)
    && f.next.offset < MD_SIZE
    && (Count(fs, f) > 0 ==> FullBlocks(fs.img, f.next.block, LastByte(fs, f)))
  }

  /** Number of groups of size `group` that hold `total`: the least sufficient number. */
  function DivCeil(total: nat, group: nat): (q: nat)
    requires group > 0
    ensures q * group >= total
    ensures q > 0 ==> (q - 1) * group < total
  {
    var q := total / group;
    assert total == q * group + total % group;
    if total % group != 0 then
      assert (q + 1) * group == q * group + group;
      q + 1
    else q
  }

  /** Blocks listed in the inode; a tail in a fragment is not one of them. */
  function Count(fs: Fs, f: Inode): nat
    requires fs.blockSize > 0
  {
    if f.fragIdx == INVALID_FRAG then DivCeil(f.fileSize, fs.blockSize) else f.fileSize / fs.blockSize
  }

  /** The last byte of the block list, counted from the start of its first metadata block. */
  function LastByte(fs: Fs, f: Inode): nat
    requires fs.blockSize > 0 && Count(fs, f) > 0
  {
    f.next.offset + ENTRY_SIZE * Count(fs, f) - 1
  }

  // ----- what the list says, read off the flat stream

  /** The i-th packed size. */
  function Entry(fs: Fs, f: Inode, i: nat): (h: Option<nat>)
    requires ValidCursor(fs.img, f.next)
    ensures h.Some? ==> h.value < 0x1_0000_0000
  {
    var s := Stream(fs.img, f.next);
    if 4 * i + 4 <= |s| then
      HeaderBound(s[4 * i..4 * i + 4]);
      Some(LittleEndian(s[4 * i..4 * i + 4]))
    else None
  }

  /** The on-disk size of block i. */
  function StoredSize(fs: Fs, f: Inode, i: nat): nat
    requires ValidCursor(fs.img, f.next)
  {
    match Entry(fs, f, i)
    case None => 0
    case Some(h) => DataHeader(h).1
  }

  /** The blocks of a file are stored back to back. */
  function Location(fs: Fs, f: Inode, i: nat): nat
    requires ValidCursor(fs.img, f.next)
  {
    if i == 0 then f.startBlock else Location(fs, f, i - 1) + StoredSize(fs, f, i - 1)
  }

  // ----- the iterator

  datatype ListState = ListState(remain: nat, cur: Cursor, started: bool, pos: nat, block: nat, header: nat,
    inputSize: nat)
  {
    /** File position and disk position of the block the next step will describe. */
    function NextPos(blockSize: nat): nat { if started then pos + blockSize else pos }
    function NextBlock(): nat { block + inputSize }
  }

  /** A cursor is only used while blocks remain. */
  predicate Usable(fs: Fs, s: ListState) { s.remain > 0 ==> ValidCursor(fs.img, s.cur) }

  function Init(fs: Fs, f: Inode): ListState
    requires fs.blockSize > 0
  {
    ListState(Count(fs, f), f.next, false, 0, f.startBlock, 0, 0)
  }

  function Next(fs: Fs, s: ListState): (r: Option<ListState>)
    requires Usable(fs, s)
    ensures r.Some? ==> Usable(fs, r.value)
  {
    if s.remain == 0 then None else
    match Advance(fs.img, s.cur, ENTRY_SIZE)
    case None => None
    case Some(cur) =>
      AdvanceConsumes(fs.img, s.cur, ENTRY_SIZE);
      var raw := Stream(fs.img, s.cur)[..ENTRY_SIZE];
      HeaderBound(raw);
      var header := LittleEndian(raw);
      Some(ListState(s.remain - 1, cur, true, s.NextPos(fs.blockSize), s.NextBlock(), header, DataHeader(header).1))
  }

  function Walk(fs: Fs, s: ListState, k: nat): (r: Option<ListState>)
    requires Usable(fs, s)
    ensures r.Some? ==> Usable(fs, r.value)
  {
    if k == 0 then Some(s) else
    match Walk(fs, s, k - 1)
    case None => None
    case Some(w) => Next(fs, w)
  }

  /** The list stands before block k of the file. */
  ghost predicate Before(fs: Fs, f: Inode, k: nat, w: ListState)
    requires fs.blockSize > 0 && ValidCursor(fs.img, f.next)
  {
    && k <= Count(fs, f)
    && w.remain == Count(fs, f) - k
    && Advance(fs.img, f.next, 4 * k) == Some(w.cur)
    && w.NextPos(fs.blockSize) == k * fs.blockSize
    && w.NextBlock() == Location(fs, f, k)
  }

  /** What k steps of the walk know is what the flat list says about blocks 0..k. */
  ghost predicate At(fs: Fs, f: Inode, k: nat, w: ListState)
    requires fs.blockSize > 0 && ValidCursor(fs.img, f.next)
  {
    && Before(fs, f, k, w)
    && (k > 0 ==>
          && Entry(fs, f, k - 1) == Some(w.header)
          && w.pos == (k - 1) * fs.blockSize
          && w.block == Location(fs, f, k - 1)
          && w.inputSize == StoredSize(fs, f, k - 1))
  }

  /** Two list states that no sequence of steps can tell apart. */
  predicate SameView(fs: Fs, a: ListState, b: ListState) {
    && a.remain == b.remain
    && a.cur == b.cur
    && a.NextPos(fs.blockSize) == b.NextPos(fs.blockSize)
    && a.NextBlock() == b.NextBlock()
  }

  lemma {:induction false} SameViewWalks(fs: Fs, a: ListState, b: ListState, k: nat)
    requires SameView(fs, a, b) && Usable(fs, a) && k > 0
    ensures Usable(fs, b) && Walk(fs, a, k) == Walk(fs, b, k)
  {
    hide Advance, Stream, LittleEndian, DataHeader, ValidCursor;
    if k > 1 {
      SameViewWalks(fs, a, b, k - 1);
    } else {
      assert Walk(fs, a, 0) == Some(a) && Walk(fs, b, 0) == Some(b);
    }
  }

  lemma NextAt(fs: Fs, f: Inode, k: nat, w: ListState)
    requires fs.blockSize > 0 && ValidCursor(fs.img, f.next) && Usable(fs, w)
    requires Before(fs, f, k, w)
    ensures Next(fs, w).Some? <==> k < Count(fs, f) && 4 * k + 4 <= |Stream(fs.img, f.next)|
    ensures Next(fs, w).Some? ==> At(fs, f, k + 1, Next(fs, w).value)
  {
    hide Advance, Stream, LittleEndian, DataHeader, ValidCursor, Location, DivCeil;
    AdvanceConsumes(fs.img, f.next, 4 * k);
    if k < Count(fs, f) {
      AdvanceConsumes(fs.img, w.cur, 4);
      AdvanceSplit(fs.img, f.next, 4 * k, 4);
      if Next(fs, w).Some? {
        var s := Stream(fs.img, f.next);
        assert Stream(fs.img, w.cur)[..4] == s[4 * k..4 * k + 4];
        assert Location(fs, f, k + 1) == Location(fs, f, k) + StoredSize(fs, f, k) by { LocationStep(fs, f, k); }
        assert (k + 1) * fs.blockSize == k * fs.blockSize + fs.blockSize;
      }
    }
  }

  lemma LocationStep(fs: Fs, f: Inode, k: nat)
    requires ValidCursor(fs.img, f.next)
    ensures Location(fs, f, k + 1) == Location(fs, f, k) + StoredSize(fs, f, k)
  {
  }

  /** The walk from the start of the list: it gets as far as the metadata can be read, and knows
      exactly what the list says. */
  lemma {:induction false} WalkReadsList(fs: Fs, f: Inode, k: nat)
    requires fs.blockSize > 0 && ValidCursor(fs.img, f.next)
    ensures Walk(fs, Init(fs, f), k).Some? <==> k <= Count(fs, f) && 4 * k <= |Stream(fs.img, f.next)|
    ensures Walk(fs, Init(fs, f), k).Some? ==> At(fs, f, k, Walk(fs, Init(fs, f), k).value)
  {
    hide Advance, Stream, ValidCursor, Entry, DivCeil;
    if k > 0 {
      WalkReadsList(fs, f, k - 1);
      var w := Walk(fs, Init(fs, f), k - 1);
      if w.Some? {
        hide Next;
        NextAt(fs, f, k - 1, w.value);
      }
    } else {
      AdvanceConsumes(fs.img, f.next, 0);
      InitAt(fs, f);
    }
  }

  lemma InitAt(fs: Fs, f: Inode)
    requires fs.blockSize > 0 && ValidCursor(fs.img, f.next)
    ensures At(fs, f, 0, Init(fs, f))
  {
  }

  /** The blocklist object of the C code. */
  class Blocklist {
    const fs: Fs
    var remain: nat
    var cur: Cursor
    var started: bool
    var pos: nat
    var block: nat
    var header: nat
    var inputSize: nat

    function State(): ListState
      reads this
    {
      ListState(remain, cur, started, pos, block, header, inputSize)
    }

    /** sqfs_blocklist_init */
    constructor (fs: Fs, f: Inode)
      requires fs.blockSize > 0
      ensures this.fs == fs && State() == Init(fs, f)
    {
      this.fs := fs;
      remain := Count(fs, f);
      cur := f.next;
      started := false;
      pos := 0;
      block := f.startBlock;
      header := 0;
      inputSize := 0;
    }

    /** sqfs_blocklist_next */
    method Step() returns (ok: bool)
      requires Usable(fs, State())
      modifies this
      ensures ok <==> Next(fs, old(State())).Some?
      ensures ok ==> Next(fs, old(State())) == Some(State())
    {
      hide Advance, Stream, ValidCursor, DataHeader, LittleEndian;
      if remain == 0 {
        return false;
      }
      remain := remain - 1;
      var raw;
      AdvanceConsumes(fs.img, cur, ENTRY_SIZE);
      ok, cur, raw := MdRead(fs.img, cur, ENTRY_SIZE, true);
      if !ok {
        return;
      }
      HeaderBound(raw);
      header := LittleEndian(raw);
      block := block + inputSize;
      var (compressed, size) := DataHeader(header);
      inputSize := size;
      if started {
        pos := pos + fs.blockSize;
      }
      started := true;
    }
  }
}
