/** Metadata blocks as a flat byte stream (fs.c).

A metadata table is a chain of blocks: a two-byte header giving the on-disk size, then the
possibly compressed contents. A cursor is the disk position of a block and an offset in its
decoded contents. Reading through a cursor is reading a flat stream. */
module Metadata {
  import opened Bytes

  const MD_SIZE := 8192
  const MD_COMPRESSED_BIT := 0x8000
  const DATA_COMPRESSED_BIT := 0x100_0000

  /** The image file; `inflate` is whichever decompressor the superblock names, given the input
      and the size of the output buffer. `base` is the offset of the filesystem in the file. */
  datatype Image = Image(bytes: seq<byte>, base: nat, inflate: (seq<byte>, nat) -> Option<seq<byte>>)

  datatype MdBlock = MdBlock(data: seq<byte>, diskSize: nat)

  datatype Cursor = Cursor(block: nat, offset: nat)

  /** A read that comes back short is an error to every caller. */
  function Pread(img: Image, pos: nat, n: nat): Option<seq<byte>> {
    if img.base + pos + n <= |img.bytes| then Some(img.bytes[img.base + pos..][..n]) else None
  }

  /** Whether the block is compressed, and its size on disk. */
  function MdHeader(hdr: nat): (bool, nat)
    requires hdr < 0x1_0000
  {
    var size := hdr % MD_COMPRESSED_BIT;
    (hdr / MD_COMPRESSED_BIT == 0, if size == 0 then MD_COMPRESSED_BIT else size)
  }

  function DataHeader(hdr: nat): (bool, nat)
    requires hdr < 0x1_0000_0000
  {
    // only bit 24 is cleared from the size
    var high, low := hdr / DATA_COMPRESSED_BIT, hdr % DATA_COMPRESSED_BIT;
    (high % 2 == 0, (high - high % 2) * DATA_COMPRESSED_BIT + low)
  }

  function BlockRead(img: Image, pos: nat, compressed: bool, size: nat, outSize: nat): Option<seq<byte>> {
    match Pread(img, pos, size)
    case None => None
    case Some(raw) => if compressed then img.inflate(raw, outSize) else Some(raw)
  }

  lemma HeaderBound(raw: seq<byte>)
    ensures |raw| == 2 ==> LittleEndian(raw) < 0x1_0000
    ensures |raw| == 4 ==> LittleEndian(raw) < 0x1_0000_0000
  {
    if |raw| == 2 {
      assert raw[1..][1..] == [];
      assert LittleEndian(raw) == raw[0] + 256 * LittleEndian(raw[1..]);
      assert LittleEndian(raw[1..]) == raw[1] + 256 * LittleEndian(raw[1..][1..]);
    } else if |raw| == 4 {
      var a, b, c := raw[1..], raw[1..][1..], raw[1..][1..][1..];
      assert c[1..] == [];
      assert LittleEndian(c) == c[0];
      assert LittleEndian(b) == b[0] + 256 * LittleEndian(c);
      assert LittleEndian(a) == a[0] + 256 * LittleEndian(b);
    }
  }

  function MdBlockRead(img: Image, pos: nat): (r: Option<MdBlock>)
    ensures r.Some? ==> r.value.diskSize > 2 && img.base + pos + r.value.diskSize <= |img.bytes|
  {
    match Pread(img, pos, 2)
    case None => None
    case Some(raw) =>
      HeaderBound(raw);
      var (compressed, size) := MdHeader(LittleEndian(raw));
      match BlockRead(img, pos + 2, compressed, size, MD_SIZE)
      case None => None
      case Some(data) => Some(MdBlock(data, 2 + size))
  }

  function DataBlockRead(img: Image, pos: nat, hdr: nat, blockSize: nat): Option<seq<byte>>
    requires hdr < 0x1_0000_0000
  {
    var (compressed, size) := DataHeader(hdr);
    BlockRead(img, pos, compressed, size, blockSize)
  }

  // ----- the flat stream

  /** Everything that can be read from the start of the block at `pos`, up to the first block
      that cannot be read. */
  function Flat(img: Image, pos: nat): seq<byte>
    decreases |img.bytes| - pos
  {
    match MdBlockRead(img, pos)
    case None => []
    case Some(b) => b.data + Flat(img, pos + b.diskSize)
  }

  /** A cursor does not point past the end of its block; the C code relies on this. */
  predicate ValidCursor(img: Image, cur: Cursor) {
    var b := MdBlockRead(img, cur.block);
    b.Some? ==> cur.offset <= |b.value.data|
  }

  function Stream(img: Image, cur: Cursor): seq<byte>
    requires ValidCursor(img, cur)
  {
    match MdBlockRead(img, cur.block)
    case None => []
    case Some(b) => b.data[cur.offset..] + Flat(img, cur.block + b.diskSize)
  }

  /** Where a cursor stands after `n` bytes, or None when the stream ends or fails before. */
  function Advance(img: Image, cur: Cursor, n: nat): (r: Option<Cursor>)
    requires ValidCursor(img, cur)
    ensures r.Some? ==> ValidCursor(img, r.value)
    decreases |img.bytes| - cur.block
  {
    if n == 0 then Some(cur) else
    match MdBlockRead(img, cur.block)
    case None => None
    case Some(b) =>
      var take := Min(|b.data| - cur.offset, n);
      if cur.offset + take == |b.data| then Advance(img, Cursor(cur.block + b.diskSize, 0), n - take)
      else Some(Cursor(cur.block, cur.offset + take))
  }

  /** The cursor moves exactly as the stream is consumed, and stops only where the stream does. */
  lemma {:induction false} AdvanceConsumes(img: Image, cur: Cursor, n: nat)
    requires ValidCursor(img, cur)
    ensures Advance(img, cur, n).Some? <==> n <= |Stream(img, cur)|
    ensures Advance(img, cur, n).Some? ==> Stream(img, Advance(img, cur, n).value) == Stream(img, cur)[n..]
    decreases |img.bytes| - cur.block
  {
    hide MdBlockRead;
    var r := MdBlockRead(img, cur.block);
    if n > 0 && r.Some? {
      var b := r.value;
      var take := Min(|b.data| - cur.offset, n);
      if cur.offset + take == |b.data| {
        var next := Cursor(cur.block + b.diskSize, 0);
        AdvanceConsumes(img, next, n - take);
        StreamAtStart(img, next.block);
      }
    }
  }

  lemma StreamAtStart(img: Image, pos: nat)
    ensures ValidCursor(img, Cursor(pos, 0)) && Stream(img, Cursor(pos, 0)) == Flat(img, pos)
  {
    hide MdBlockRead;
    var b := MdBlockRead(img, pos);
    if b.Some? {
      assert b.value.data[0..] == b.value.data;
    }
  }

  lemma FlatStep(img: Image, pos: nat, b: MdBlock)
    requires MdBlockRead(img, pos) == Some(b)
    ensures Flat(img, pos) == b.data + Flat(img, pos + b.diskSize)
  {
    hide MdBlockRead;
  }

  /** Reading a bytes and then b bytes leaves the same cursor as reading a + b bytes. */
  lemma {:induction false} AdvanceSplit(img: Image, cur: Cursor, a: nat, b: nat)
    requires ValidCursor(img, cur)
    requires Advance(img, cur, a).Some?
    ensures Advance(img, cur, a + b) == Advance(img, Advance(img, cur, a).value, b)
    decreases |img.bytes| - cur.block
  {
    hide MdBlockRead;
    if a > 0 && b > 0 {
      var blk := MdBlockRead(img, cur.block).value;
      var take := Min(|blk.data| - cur.offset, a);
      if cur.offset + take == |blk.data| {
        AdvanceSplit(img, Cursor(cur.block + blk.diskSize, 0), a - take, b);
      }
    }
  }

  /** sqfs_md_read. `keep` is false when the caller passes no buffer and only wants to skip. */
  method MdRead(img: Image, cur: Cursor, size: nat, keep: bool) returns (ok: bool, cur': Cursor, buf: seq<byte>)
    requires ValidCursor(img, cur)
    ensures ok <==> size <= |Stream(img, cur)|
    ensures ok ==> Advance(img, cur, size) == Some(cur')
    ensures ok ==> ValidCursor(img, cur') && Stream(img, cur') == Stream(img, cur)[size..]
    ensures ok ==> buf == if keep then Stream(img, cur)[..size] else []
  {
    hide MdBlockRead, Flat;
    var pos := cur.block;
    var left := size;
    ok, cur', buf := true, cur, [];
    while left > 0
      invariant 0 <= left <= size
      invariant left > 0 ==> pos == cur'.block
      invariant ValidCursor(img, cur') && Advance(img, cur, size) == Advance(img, cur', left)
      invariant size - left <= |Stream(img, cur)| && Stream(img, cur') == Stream(img, cur)[size - left..]
      invariant buf == if keep then Stream(img, cur)[..size - left] else []
      decreases left, |img.bytes| - pos
    {
      var r := MdBlockRead(img, pos);
      if r.None? {
        return false, cur', buf;
      }
      var data := r.value.data;
      var take := |data| - cur'.offset;
      if take > left {
        take := left;
      }
      if keep {
        buf := buf + data[cur'.offset..cur'.offset + take];
      }
      StepConsumes(img, cur, cur', size - left, take, left - take);
      pos := pos + r.value.diskSize;
      left := left - take;
      cur' := cur'.(offset := cur'.offset + take);
      if cur'.offset == |data| {
        cur' := Cursor(pos, 0);
      }
    }
    AdvanceConsumes(img, cur, size);
  }

  /** One turn of the read loop: taking at most the rest of the current block. */
  lemma StepConsumes(img: Image, start: Cursor, cur: Cursor, done: nat, take: nat, rest: nat)
    requires ValidCursor(img, start) && ValidCursor(img, cur)
    requires done <= |Stream(img, start)| && Stream(img, cur) == Stream(img, start)[done..]
    requires MdBlockRead(img, cur.block).Some? && cur.offset + take <= |MdBlockRead(img, cur.block).value.data|
    requires take > 0 || cur.offset == |MdBlockRead(img, cur.block).value.data|
    requires take + rest > 0
    requires rest > 0 ==> cur.offset + take == |MdBlockRead(img, cur.block).value.data|
    ensures
      var b := MdBlockRead(img, cur.block).value;
      var next := if cur.offset + take == |b.data| then Cursor(cur.block + b.diskSize, 0)
          else Cursor(cur.block, cur.offset + take);
      && ValidCursor(img, next)
      && Advance(img, cur, take + rest) == Advance(img, next, rest)
      && done + take <= |Stream(img, start)|
      && Stream(img, next) == Stream(img, start)[done + take..]
      && Stream(img, start)[..done] + b.data[cur.offset..cur.offset + take] == Stream(img, start)[..done + take]
  {
    hide MdBlockRead, Flat, Stream, Advance, ValidCursor;
    StepLands(img, cur, take, rest);
    Regroup(Stream(img, start), done, take);
  }

  lemma Regroup(s: seq<byte>, done: nat, take: nat)
    requires done <= |s| && take <= |s[done..]|
    ensures done + take <= |s| && s[done..][take..] == s[done + take..]
    ensures s[..done] + s[done..][..take] == s[..done + take]
  {
  }

  /** Taking `take` bytes of the current block moves the cursor over just those. */
  lemma StepLands(img: Image, cur: Cursor, take: nat, rest: nat)
    requires ValidCursor(img, cur) && take + rest > 0
    requires MdBlockRead(img, cur.block).Some? && cur.offset + take <= |MdBlockRead(img, cur.block).value.data|
    requires take > 0 || cur.offset == |MdBlockRead(img, cur.block).value.data|
    requires rest > 0 ==> cur.offset + take == |MdBlockRead(img, cur.block).value.data|
    ensures
      var b := MdBlockRead(img, cur.block).value;
      var next := if cur.offset + take == |b.data| then Cursor(cur.block + b.diskSize, 0)
          else Cursor(cur.block, cur.offset + take);
      && ValidCursor(img, next)
      && Advance(img, cur, take + rest) == Advance(img, next, rest)
      && take <= |Stream(img, cur)|
      && Stream(img, next) == Stream(img, cur)[take..]
      && Stream(img, cur)[..take] == b.data[cur.offset..cur.offset + take]
  {
    hide MdBlockRead, Flat;
    var b := MdBlockRead(img, cur.block).value;
    StreamAtStart(img, cur.block + b.diskSize);
    assert Stream(img, cur) == b.data[cur.offset..] + Flat(img, cur.block + b.diskSize);
  }

  // ----- positions in a chain of full blocks

  /** As far as they can be read, the blocks from `pos` that hold bytes 0..p of the chain decode
      to exactly 8192 bytes, the last of them perhaps to fewer. */
  predicate FullBlocks(img: Image, pos: nat, p: nat)
    decreases p
  {
    match MdBlockRead(img, pos)
    case None => true
    case Some(b) =>
      && |b.data| <= MD_SIZE
      && if p < MD_SIZE then p < |b.data| else
           |b.data| == MD_SIZE && FullBlocks(img, pos + b.diskSize, p - MD_SIZE)
  }

  /** The disk position of the i-th block of the chain. */
  function ChainPos(img: Image, pos: nat, i: nat): nat
    decreases i
  {
    if i == 0 then pos else
    match MdBlockRead(img, pos)
    case None => pos
    case Some(b) => ChainPos(img, pos + b.diskSize, i - 1)
  }

  /** Reading forward inside the chain arrives at the cursor computed by division. */
  lemma {:induction false} AdvanceByDivision(img: Image, pos: nat, p: nat, n: nat, last: nat)
    requires p < MD_SIZE && p + n <= last && FullBlocks(img, pos, last)
    requires ValidCursor(img, Cursor(pos, p)) && Advance(img, Cursor(pos, p), n).Some?
    ensures Advance(img, Cursor(pos, p), n).value == Cursor(ChainPos(img, pos, (p + n) / MD_SIZE), (p + n) % MD_SIZE)
    decreases p + n
  {
    hide MdBlockRead;
    if n > 0 && p + n >= MD_SIZE {
      var next := pos + MdBlockRead(img, pos).value.diskSize;
      StreamAtStart(img, next);
      AdvanceByDivision(img, next, 0, p + n - MD_SIZE, last - MD_SIZE);
      assert (p + n) / MD_SIZE - 1 == (p + n - MD_SIZE) / MD_SIZE;
    }
  }

  // ----- known contents in the stream

  /** From the cursor on, the stream agrees with `bytes`; it has all of them if `full`, else it may
      break off before. */
  ghost predicate Holds(img: Image, c: Cursor, bytes: seq<byte>, full: bool) {
    && ValidCursor(img, c)
    && var s := Stream(img, c);
       if full then bytes <= s else bytes <= s || s <= bytes
  }

  /** Reading what a cursor holds. */
  lemma TakeHeld(img: Image, c: Cursor, bytes: seq<byte>, rest: seq<byte>, full: bool)
    requires Holds(img, c, bytes + rest, full)
    ensures full ==> |bytes| <= |Stream(img, c)|
    ensures |bytes| <= |Stream(img, c)| ==> Stream(img, c)[..|bytes|] == bytes && Advance(img, c, |bytes|).Some?
    ensures |bytes| <= |Stream(img, c)| ==> Holds(img, Advance(img, c, |bytes|).value, rest, full)
  {
    hide Advance, Stream, ValidCursor;
    AdvanceConsumes(img, c, |bytes|);
    var s := Stream(img, c);
    if |bytes| <= |s| {
      Agree(s, bytes, rest);
    }
  }

  lemma Agree(s: seq<byte>, a: seq<byte>, b: seq<byte>)
    requires |a| <= |s| && (a + b <= s || s <= a + b)
    ensures s[..|a|] == a
    ensures a + b <= s ==> b <= s[|a|..]
    ensures s <= a + b ==> s[|a|..] <= b
  {
    if a + b <= s {
      assert s[..|a + b|][..|a|] == a && s[|a|..][..|b|] == s[..|a + b|][|a|..];
    } else {
      assert (a + b)[..|s|] == s;
      assert s[|a|..] == b[..|s| - |a|];
    }
  }

  /** Reads the next field, which is known, and moves the cursor on. */
  method Take(img: Image, c: Cursor, ghost bytes: seq<byte>, n: nat, ghost rest: seq<byte>, ghost full: bool,
              keep: bool)
    returns (ok: bool, c': Cursor, buf: seq<byte>)
    requires Holds(img, c, bytes + rest, full) && |bytes| == n
    ensures full ==> ok
    ensures ok ==> Holds(img, c', rest, full) && buf == if keep then bytes else []
  {
    hide Advance, Stream, ValidCursor;
    TakeHeld(img, c, bytes, rest, full);
    ok, c', buf := MdRead(img, c, n, keep);
  }

  lemma Split(img: Image, c: Cursor, a: seq<byte>, b: seq<byte>, rest: seq<byte>, full: bool)
    requires Holds(img, c, (a + b) + rest, full)
    ensures Holds(img, c, a + (b + rest), full)
  {
    assert (a + b) + rest == a + (b + rest);
  }
}
