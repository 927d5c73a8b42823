/** Images as a writer lays them out, and that they read back: metadata blocks, fragment table entries,
and whole files of plain, compressed and absent blocks with a tail in a fragment.

Contents are given here in terms of the bytes stored, without the functions that read them. */
module Stored {
  import opened Bytes
  import opened Metadata
  import opened DataBlocks
  import opened BlockIndex
  import opened ReadRange

  /** The bytes are in the image, at a position of the filesystem. */
  ghost predicate Stores(img: Image, pos: nat, bytes: seq<byte>) {
    img.base + pos + |bytes| <= |img.bytes| && img.bytes[img.base + pos..][..|bytes|] == bytes
  }

  lemma StoresParts(img: Image, pos: nat, a: seq<byte>, b: seq<byte>)
    requires Stores(img, pos, a + b)
    ensures Stores(img, pos, a) && Stores(img, pos + |a|, b)
  {
    var s := img.bytes[img.base + pos..];
    assert s[..|a + b|][..|a|] == s[..|a|] && (a + b)[..|a|] == a;
    assert s[..|a + b|][|a|..] == s[|a|..][..|b|] && (a + b)[|a|..] == b;
    assert s[|a|..] == img.bytes[img.base + (pos + |a|)..];
  }

  // ----- metadata

  /** How a piece of metadata is stored: as it is, or as `raw`, which decodes to it. */
  datatype MdPiece = MdPlain(data: seq<byte>) | MdPacked(raw: seq<byte>, data: seq<byte>)
  {
    function Disk(): seq<byte> { if MdPlain? then data else raw }

    /** The size, in a field that holds 32768 as zero, and the bit for plain contents. */
    function Header(): nat { |Disk()| % 0x8000 + if MdPlain? then 0x8000 else 0 }

    ghost predicate Fits(img: Image) {
      1 <= |Disk()| <= 0x8000 && (MdPacked? ==> img.inflate(raw, 8192) == Some(data))
    }

    function Bytes(): seq<byte> { Encode(Header(), 2) + Disk() }
  }

  lemma MdReads(img: Image, pos: nat, p: MdPiece)
    requires p.Fits(img) && Stores(img, pos, p.Bytes())
    ensures MdBlockRead(img, pos) == Some(MdBlock(p.data, |p.Disk()| + 2))
  {
    hide LittleEndian, Encode;
    StoresParts(img, pos, Encode(p.Header(), 2), p.Disk());
    Pow256Values();
    FieldRoundTrip(p.Header(), 2);
    HeaderBound(Encode(p.Header(), 2));
  }

  /** A compressed block that does not decode cannot be read. */
  lemma MdFails(img: Image, pos: nat, raw: seq<byte>)
    requires 1 <= |raw| <= 0x8000 && img.inflate(raw, 8192) == None
    requires Stores(img, pos, Encode(|raw| % 0x8000, 2) + raw)
    ensures MdBlockRead(img, pos) == None
  {
    hide LittleEndian, Encode;
    StoresParts(img, pos, Encode(|raw| % 0x8000, 2), raw);
    Pow256Values();
    FieldRoundTrip(|raw| % 0x8000, 2);
    HeaderBound(Encode(|raw| % 0x8000, 2));
  }

  function MdBytes(ps: seq<MdPiece>): seq<byte> { if ps == [] then [] else ps[0].Bytes() + MdBytes(ps[1..]) }

  function MdContents(ps: seq<MdPiece>): seq<byte> { if ps == [] then [] else ps[0].data + MdContents(ps[1..]) }

  /** Metadata blocks stored one after the other read as their contents, one after the other. */
  lemma {:induction false} ChainReads(img: Image, pos: nat, ps: seq<MdPiece>)
    requires Stores(img, pos, MdBytes(ps)) && forall p <- ps :: p.Fits(img)
    ensures Flat(img, pos) == MdContents(ps) + Flat(img, pos + |MdBytes(ps)|)
    decreases |ps|
  {
    hide Stores, Flat, MdBlockRead, MdPiece.Fits, MdPiece.Bytes;
    if ps != [] {
      var b := FirstPiece(img, pos, ps);
      FlatStep(img, pos, b);
      StoresParts(img, pos, ps[0].Bytes(), MdBytes(ps[1..]));
      ChainReads(img, pos + b.diskSize, ps[1..]);
    }
  }

  /** So does the stream from a cursor into the first of them. */
  lemma StreamReads(img: Image, cur: Cursor, ps: seq<MdPiece>)
    requires ps != [] && Stores(img, cur.block, MdBytes(ps)) && forall p <- ps :: p.Fits(img)
    requires cur.offset <= |ps[0].data|
    ensures ValidCursor(img, cur)
    ensures Stream(img, cur) == MdContents(ps)[cur.offset..] + Flat(img, cur.block + |MdBytes(ps)|)
  {
    hide Stores, Flat, MdBlockRead, MdPiece.Fits, Stream, ValidCursor, MdContents, MdBytes;
    var b := FirstPiece(img, cur.block, ps);
    StreamInBlock(img, cur, b);
    ChainReads(img, cur.block, ps);
    Cancel(Flat(img, cur.block), b.data, Flat(img, cur.block + b.diskSize), MdContents(ps),
           Flat(img, cur.block + |MdBytes(ps)|), cur.offset);
  }

  lemma FirstPiece(img: Image, pos: nat, ps: seq<MdPiece>) returns (b: MdBlock)
    requires ps != [] && Stores(img, pos, MdBytes(ps)) && forall p <- ps :: p.Fits(img)
    ensures MdBlockRead(img, pos) == Some(b) && b.data == ps[0].data && |b.data| <= |MdContents(ps)|
    ensures b.diskSize == |ps[0].Bytes()|
  {
    hide Stores, MdBlockRead, MdPiece.Fits, MdPiece.Bytes, MdPiece.Disk;
    var p := ps[0];
    assert p in ps;
    PieceSize(p);
    StoresParts(img, pos, p.Bytes(), MdBytes(ps[1..]));
    MdReads(img, pos, p);
    b := MdBlock(p.data, |p.Disk()| + 2);
  }

  lemma StreamInBlock(img: Image, cur: Cursor, b: MdBlock)
    requires MdBlockRead(img, cur.block) == Some(b) && cur.offset <= |b.data|
    ensures ValidCursor(img, cur) && Stream(img, cur) == b.data[cur.offset..] + Flat(img, cur.block + b.diskSize)
    ensures Flat(img, cur.block) == b.data + Flat(img, cur.block + b.diskSize)
  {
    hide MdBlockRead;
  }

  lemma Cancel(s: seq<byte>, a: seq<byte>, b: seq<byte>, c: seq<byte>, d: seq<byte>, n: nat)
    requires s == a + b == c + d && n <= |a| <= |c|
    ensures a[n..] + b == c[n..] + d
  {
    assert s[n..] == a[n..] + b && s[n..] == c[n..] + d;
  }

  // ----- data blocks

  /** Bit 24 of a data header marks plain contents; the other bits are the size. */
  lemma DataHeaderReads(size: nat)
    requires size < 0x1_0000_0000 && size / 0x100_0000 % 2 == 0
    ensures DataHeader(size) == (true, size) && DataHeader(size + 0x100_0000) == (false, size)
  {
  }

  /** How a piece of a file is stored: not at all if it is a hole, else as for metadata. */
  datatype Piece = Hole(size: nat) | Plain(data: seq<byte>) | Packed(raw: seq<byte>, data: seq<byte>)
  {
    function Contents(): seq<byte> { if Hole? then seq(size, _ => 0) else data }

    function Disk(): seq<byte> {
      match this
      case Hole(_) => []
      case Plain(data) => data
      case Packed(raw, _) => raw
    }

    /** The size on disk, and the bit for plain contents. */
    function Header(): nat { |Disk()| + if Plain? then 0x100_0000 else 0 }

    ghost predicate Fits(img: Image, blockSize: nat) {
      !Hole? ==> 0 < |Disk()| < 0x100_0000 && (Packed? ==> img.inflate(raw, blockSize) == Some(data))
    }
  }

  lemma PieceReads(img: Image, pos: nat, p: Piece, blockSize: nat)
    requires p.Fits(img, blockSize) && !p.Hole? && Stores(img, pos, p.Disk())
    ensures p.Header() < 0x1_0000_0000 && DataBlockRead(img, pos, p.Header(), blockSize) == Some(p.Contents())
    ensures DataHeader(p.Header()).1 == |p.Disk()| > 0
  {
    DataHeaderReads(|p.Disk()|);
  }

  /** A fragment's table entry: where its block is, the header of the block, and an unused field. */
  lemma FragmentReads(fs: Fs, i: nat, start: nat, header: nat, unused: nat)
    requires WellFormedFs(fs) && i < fs.frags.count && i != 0xffff_ffff
    requires start < 0x1_0000_0000_0000_0000 && header < 0x1_0000_0000
    requires FragRaw(fs, i) == Some(Encode(start, 8) + Encode(header, 4) + Encode(unused, 4))
    ensures FragLookup(fs, i) == Some(FragEntry(start, header))
  {
    hide LittleEndian, Encode, FragRaw, WellFormedFs;
    Pow256Values();
    FieldRoundTrip(start, 8);
    FieldRoundTrip(header, 4);
    var raw := Encode(start, 8) + Encode(header, 4) + Encode(unused, 4);
    assert raw[..8] == Encode(start, 8) && raw[8..12] == Encode(header, 4);
  }

  // ----- files

  function Headers(ps: seq<Piece>): (b: seq<byte>)
    ensures |b| == 4 * |ps|
  {
    if ps == [] then [] else Encode(ps[0].Header(), 4) + Headers(ps[1..])
  }

  function DiskBytes(ps: seq<Piece>): seq<byte> { if ps == [] then [] else ps[0].Disk() + DiskBytes(ps[1..]) }

  function Joined(ps: seq<Piece>): seq<byte> { if ps == [] then [] else ps[0].Contents() + Joined(ps[1..]) }

  /** The end of a file, somewhere in the contents of a fragment block; `start` is where that is stored. */
  datatype Tail = NoTail | Tail(data: seq<byte>, block: Piece, start: nat, unused: nat)
  {
    function Contents(): seq<byte> { if NoTail? then [] else data }
  }

  /** The file cut into blocks and a tail. */
  function FileContents(ps: seq<Piece>, t: Tail): seq<byte> { Joined(ps) + t.Contents() }

  /** All blocks have the block size, but the last of a file without a tail may be shorter. */
  ghost predicate Cut(blockSize: nat, ps: seq<Piece>, t: Tail) {
    && blockSize > 0 && |t.Contents()| < blockSize
    && (forall i :: 0 <= i < |ps| ==> 0 < |ps[i].Contents()| <= blockSize)
    && (forall i :: 0 <= i < |ps| && (i < |ps| - 1 || t.Tail?) ==> |ps[i].Contents()| == blockSize)
  }

  /** The tail's fragment block, its place in it, and its entry in a fragment table of full blocks. */
  ghost predicate TailStored(fs: Fs, f: Inode, t: Tail)
    requires WellFormedFs(fs)
  {
    if t.NoTail? then f.fragIdx == 0xffff_ffff else
      && f.fragIdx < fs.frags.count && f.fragIdx != 0xffff_ffff
      && (forall b <- fs.frags.blocks :: MdBlockRead(fs.img, b).Some?)
      && (forall j :: 0 <= j < |fs.frags.blocks| - 1 ==> |MdBlockRead(fs.img, fs.frags.blocks[j]).value.data| == 8192)
      && 16 * f.fragIdx + 16 <= |TableBytes(fs.img, fs.frags.blocks)|
      && TableBytes(fs.img, fs.frags.blocks)[16 * f.fragIdx..][..16] ==
         Encode(t.start, 8) + Encode(t.block.Header(), 4) + Encode(t.unused, 4)
      && t.start < 0x1_0000_0000_0000_0000
      && !t.block.Hole? && t.block.Fits(fs.img, fs.blockSize) && Stores(fs.img, t.start, t.block.Disk())
      && f.fragOff + |t.data| <= |t.block.Contents()| && t.block.Contents()[f.fragOff..][..|t.data|] == t.data
  }

  /** A file as a writer lays it out. */
  ghost predicate FileStored(fs: Fs, f: Inode, ps: seq<Piece>, t: Tail) {
    && WellFormedFs(fs) && WellFormedList(fs, f) && NearInodeTable(fs, f) && f.regular
    && Cut(fs.blockSize, ps, t) && f.fileSize == |FileContents(ps, t)|
    && Metadata.Holds(fs.img, f.next, Headers(ps), true)
    && (forall p <- ps :: p.Fits(fs.img, fs.blockSize))
    && Stores(fs.img, f.startBlock, DiskBytes(ps))
    && TailStored(fs, f, t)
  }

  lemma {:induction false} JoinedSize(ps: seq<Piece>, bs: nat)
    requires forall i :: 0 <= i < |ps| - 1 ==> |ps[i].Contents()| == bs
    ensures |Joined(ps)| == if ps == [] then 0 else (|ps| - 1) * bs + |ps[|ps| - 1].Contents()|
  {
    hide Piece.Contents;
    if |ps| == 1 {
      assert Joined(ps[1..]) == [];
    } else if ps != [] {
      JoinedSize(ps[1..], bs);
      OneMore(|ps| - 1, bs);
    }
  }

  /** Byte i * bs + off of the contents is byte off of block i. */
  lemma {:induction false} JoinedAt(ps: seq<Piece>, bs: nat, i: nat, off: nat)
    requires i < |ps| && off < |ps[i].Contents()| && forall j :: 0 <= j < i ==> |ps[j].Contents()| == bs
    ensures i * bs + off < |Joined(ps)| && Joined(ps)[i * bs + off] == ps[i].Contents()[off]
    decreases i
  {
    hide Piece.Contents;
    if i > 0 {
      JoinedAt(ps[1..], bs, i - 1, off);
      assert i * bs + off == bs + ((i - 1) * bs + off);
    }
  }

  lemma {:induction false} HeaderAt(ps: seq<Piece>, i: nat)
    requires i < |ps|
    ensures Headers(ps)[4 * i..][..4] == Encode(ps[i].Header(), 4)
    decreases i
  {
    hide Piece.Header, Encode;
    if i > 0 {
      HeaderAt(ps[1..], i - 1);
      assert Headers(ps)[4 * i..] == Headers(ps[1..])[4 * (i - 1)..];
    }
  }

  lemma {:induction false} DiskAt(img: Image, pos: nat, ps: seq<Piece>, i: nat)
    requires i < |ps| && Stores(img, pos, DiskBytes(ps))
    ensures Stores(img, pos + |DiskBytes(ps[..i])|, ps[i].Disk())
    decreases i
  {
    hide Stores, Piece.Disk;
    StoresParts(img, pos, ps[0].Disk(), DiskBytes(ps[1..]));
    if i > 0 {
      DiskAt(img, pos + |ps[0].Disk()|, ps[1..], i - 1);
      assert ps[..i][0] == ps[0] && ps[..i][1..] == ps[1..][..i - 1];
    } else {
      assert ps[..0] == [];
    }
  }

  lemma {:induction false} DiskGrows(ps: seq<Piece>, i: nat)
    requires i < |ps|
    ensures |DiskBytes(ps[..i + 1])| == |DiskBytes(ps[..i])| + |ps[i].Disk()|
    decreases i
  {
    hide Piece.Disk;
    assert ps[..i + 1][0] == ps[0] && ps[..i + 1][1..] == ps[1..][..i];
    if i > 0 {
      DiskGrows(ps[1..], i - 1);
      assert ps[..i][0] == ps[0] && ps[..i][1..] == ps[1..][..i - 1];
    } else {
      assert ps[..0] == [] && ps[1..][..0] == [];
    }
  }

  /** The list has an entry for each block, which is its header. */
  lemma EntryStored(fs: Fs, f: Inode, ps: seq<Piece>, t: Tail, i: nat)
    requires FileStored(fs, f, ps, t) && i < |ps|
    ensures ps[i].Header() < 0x1_0000_0000 && Entry(fs, f, i) == Some(ps[i].Header())
    ensures StoredSize(fs, f, i) == |ps[i].Disk()|
  {
    hide Stream, ValidCursor, WellFormedFs, NearInodeTable, TailStored, FullBlocks, DivCeil, LittleEndian, Stores, Cut,
         FileContents, Headers, Encode;
    var s := Stream(fs.img, f.next);
    HeaderAt(ps, i);
    assert s[4 * i..4 * i + 4] == Headers(ps)[4 * i..][..4];
    assert ps[i].Fits(fs.img, fs.blockSize);
    DataHeaderReads(|ps[i].Disk()|);
    Pow256Values();
    FieldRoundTrip(ps[i].Header(), 4);
  }

  /** Each block is stored after the one before. */
  lemma {:induction false} LocationStored(fs: Fs, f: Inode, ps: seq<Piece>, t: Tail, i: nat)
    requires FileStored(fs, f, ps, t) && i <= |ps|
    ensures Location(fs, f, i) == f.startBlock + |DiskBytes(ps[..i])|
    decreases i
  {
    hide FileStored, StoredSize, Piece.Disk;
    CursorOk(fs, f, ps, t);
    if i > 0 {
      EntryStored(fs, f, ps, t, i - 1);
      LocationStored(fs, f, ps, t, i - 1);
      DiskGrows(ps, i - 1);
    } else {
      assert ps[..0] == [];
    }
  }

  lemma CursorOk(fs: Fs, f: Inode, ps: seq<Piece>, t: Tail)
    requires FileStored(fs, f, ps, t)
    ensures WellFormedFs(fs) && ValidCursor(fs.img, f.next) && Cut(fs.blockSize, ps, t)
    ensures f.fileSize == |FileContents(ps, t)|
  {
  }

  /** The inode's file size accounts for exactly these blocks and this tail. */
  lemma CountStored(fs: Fs, f: Inode, ps: seq<Piece>, t: Tail)
    requires Cut(fs.blockSize, ps, t) && f.fileSize == |FileContents(ps, t)|
    requires t.NoTail? <==> f.fragIdx == 0xffff_ffff
    ensures Count(fs, f) == |ps|
    ensures forall i :: 0 <= i < |ps| ==> BlockLength(fs, f, i) == |ps[i].Contents()|
    ensures t.Tail? ==> TailLength(fs, f) == |t.data|
  {
    hide Piece.Contents, Joined, Count, TailLength, BlockLength;
    var bs, n := fs.blockSize, |ps|;
    JoinedSize(ps, bs);
    var last := if n > 0 then |ps[n - 1].Contents()| else bs;
    assert f.fileSize == (if n == 0 then 0 else (n - 1) * bs + last) + |t.Contents()|;
    CountIs(fs, f, n, last, |t.Contents()|);
    forall i | 0 <= i < n
      ensures BlockLength(fs, f, i) == |ps[i].Contents()|
    {
      LengthIs(fs, f, n, last, |t.Contents()|, i);
    }
  }

  lemma CountIs(fs: Fs, f: Inode, n: nat, last: nat, tail: nat)
    requires fs.blockSize > 0 && 0 < last <= fs.blockSize && tail < fs.blockSize
    requires f.fileSize == (if n == 0 then 0 else (n - 1) * fs.blockSize + last) + tail
    requires if f.fragIdx == 0xffff_ffff then tail == 0 else last == fs.blockSize
    ensures Count(fs, f) == n
    ensures f.fragIdx != 0xffff_ffff ==> TailLength(fs, f) == tail
  {
    hide DivCeil;
    var bs := fs.blockSize;
    assert n * bs == (n - 1) * bs + bs;
    if f.fragIdx == 0xffff_ffff {
      CeilUnique(f.fileSize, bs, n);
    } else {
      ModUnique(f.fileSize, bs, n, tail);
    }
  }

  lemma LengthIs(fs: Fs, f: Inode, n: nat, last: nat, tail: nat, i: nat)
    requires fs.blockSize > 0 && 0 < last <= fs.blockSize && Count(fs, f) == n && i < n
    requires f.fileSize == (n - 1) * fs.blockSize + last + tail
    requires last < fs.blockSize ==> tail == 0
    ensures BlockLength(fs, f, i) == if i < n - 1 then fs.blockSize else last
  {
    hide Count;
    var bs := fs.blockSize;
    if i < n - 1 {
      MulMono(i + 1, n - 1, bs);
      assert (i + 1) * bs == i * bs + bs;
    }
  }

  lemma CeilUnique(total: nat, group: nat, n: nat)
    requires group > 0 && (if n == 0 then total == 0 else (n - 1) * group < total <= n * group)
    ensures DivCeil(total, group) == n
  {
    var q := DivCeil(total, group);
    if q < n {
      MulMono(q, n - 1, group);
    } else if q > n {
      MulMono(n, q - 1, group);
    }
  }

  /** Every block reads back as it was before it was stored. */
  lemma BlockStored(fs: Fs, f: Inode, ps: seq<Piece>, t: Tail, i: nat)
    requires FileStored(fs, f, ps, t) && i < |ps|
    ensures Count(fs, f) == |ps| && WellFormedFs(fs) && ValidCursor(fs.img, f.next)
    ensures BlockBytes(fs, f, i) == Some(ps[i].Contents())
  {
    hide FileStored, Stores, Entry, Location, Count, DataBlockRead, DataHeader, ValidCursor, Cut, FileContents,
         WellFormedFs, Piece.Fits, DiskBytes, BlockLength;
    CursorOk(fs, f, ps, t);
    EntryStored(fs, f, ps, t, i);
    LocationStored(fs, f, ps, t, i);
    CountOf(fs, f, ps, t);
    var p := ps[i];
    PieceStored(fs, f, ps, t, i);
    if !p.Hole? {
      PieceReads(fs.img, f.startBlock + |DiskBytes(ps[..i])|, p, fs.blockSize);
    } else {
      DataHeaderReads(0);
      assert p.Header() == 0;
      assert p.Contents() == Zeros(BlockLength(fs, f, i));
    }
  }

  lemma PieceStored(fs: Fs, f: Inode, ps: seq<Piece>, t: Tail, i: nat)
    requires FileStored(fs, f, ps, t) && i < |ps|
    ensures ps[i].Fits(fs.img, fs.blockSize)
    ensures Stores(fs.img, f.startBlock + |DiskBytes(ps[..i])|, ps[i].Disk())
  {
    hide Stores, Cut, FileContents, WellFormedFs, WellFormedList, NearInodeTable, Piece.Fits, TailStored, DiskBytes;
    assert ps[i] in ps;
    DiskAt(fs.img, f.startBlock, ps, i);
  }

  lemma CountOf(fs: Fs, f: Inode, ps: seq<Piece>, t: Tail)
    requires FileStored(fs, f, ps, t)
    ensures Count(fs, f) == |ps| && (t.NoTail? <==> f.fragIdx == 0xffff_ffff)
    ensures forall i :: 0 <= i < |ps| ==> BlockLength(fs, f, i) == |ps[i].Contents()|
    ensures t.Tail? ==> TailLength(fs, f) == |t.data|
  {
    hide WellFormedList, NearInodeTable, Metadata.Holds, Stores, Cut, FileContents, Count, TailLength, BlockLength,
         WellFormedFs, Piece.Fits, Encode, MdBlockRead;
    CountStored(fs, f, ps, t);
  }

  /** The fragment block reads back too. */
  lemma TailReads(fs: Fs, f: Inode, ps: seq<Piece>, t: Tail)
    requires FileStored(fs, f, ps, t) && t.Tail?
    ensures WellFormedFs(fs) && FragBytes(fs, f) == Some(t.block.Contents())
    ensures f.fragOff + |t.data| <= |t.block.Contents()| && t.block.Contents()[f.fragOff..][..|t.data|] == t.data
  {
    hide WellFormedList, NearInodeTable, Metadata.Holds, Cut, FileContents, MdBlockRead, Encode, WellFormedFs, FragRaw,
         FragLookup, TableBytes, DataBlockRead;
    PieceReads(fs.img, t.start, t.block, fs.blockSize);
    TableIsFlat(fs, f.fragIdx);
    FragmentReads(fs, f.fragIdx, t.start, t.block.Header(), t.unused);
  }

  /** Every position of the file holds the byte the writer put there. */
  lemma ByteStored(fs: Fs, f: Inode, ps: seq<Piece>, t: Tail, p: nat)
    requires FileStored(fs, f, ps, t) && p < |FileContents(ps, t)|
    ensures WellFormedFs(fs) && ValidCursor(fs.img, f.next) && ByteAt(fs, f, p) == Some(FileContents(ps, t)[p])
  {
    hide FileStored, ValidCursor, BlockBytes, FragBytes, Count, TailLength, Piece.Contents, WellFormedFs, Joined, Cut;
    CursorOk(fs, f, ps, t);
    CountOf(fs, f, ps, t);
    var i, off := p / fs.blockSize, p % fs.blockSize;
    DivMod(p, fs.blockSize);
    BytePlace(fs.blockSize, ps, t, p, i, off);
    if i < |ps| {
      BlockStored(fs, f, ps, t, i);
    } else {
      TailReads(fs, f, ps, t);
      assert t.block.Contents()[f.fragOff..][..|t.data|][off] == t.data[off];
    }
  }

  /** Where byte p of the contents is, if that is offset `off` of block i. */
  lemma BytePlace(bs: nat, ps: seq<Piece>, t: Tail, p: nat, i: nat, off: nat)
    requires Cut(bs, ps, t) && p < |FileContents(ps, t)| && p == i * bs + off && off < bs
    ensures i < |ps| ==> off < |ps[i].Contents()| && FileContents(ps, t)[p] == ps[i].Contents()[off]
    ensures i >= |ps| ==> t.Tail? && off < |t.data| && FileContents(ps, t)[p] == t.data[off]
  {
    hide Piece.Contents, Joined;
    var n := |ps|;
    JoinedSize(ps, bs);
    var last := if n > 0 then |ps[n - 1].Contents()| else bs;
    PlaceIn(bs, n, last, |t.Contents()|, p, i, off);
    if i < n {
      JoinedAt(ps, bs, i, off);
    }
  }

  /** The same in numbers: n blocks, the last perhaps shorter, and a tail after full ones. */
  lemma PlaceIn(bs: nat, n: nat, last: nat, tail: nat, p: nat, i: nat, off: nat)
    requires 0 < last <= bs && tail < bs && (tail > 0 ==> last == bs) && p == i * bs + off && off < bs
    requires p < (if n == 0 then 0 else (n - 1) * bs + last) + tail
    ensures i < n ==> off < if i < n - 1 then bs else last
    ensures i >= n ==> tail > 0 && off < tail && off == p - if n == 0 then 0 else (n - 1) * bs + last
  {
    OneMore(n, bs);
    OneMore(n + 1, bs);
    if i > n {
      MulMono(n + 1, i, bs);
    }
  }

  lemma OneMore(n: int, bs: nat)
    ensures n * bs == (n - 1) * bs + bs
  {
  }

  /** A stored file meets what reading assumes, and all of it can be read. */
  lemma StoredIsReadable(fs: Fs, f: Inode, ps: seq<Piece>, t: Tail)
    requires FileStored(fs, f, ps, t)
    ensures WellFormed(fs, f) && AllReadable(fs, f)
  {
    CursorOk(fs, f, ps, t);
    CountOf(fs, f, ps, t);
    forall i | 0 <= i < |ps|
      ensures BlockBytes(fs, f, i) == Some(ps[i].Contents())
    {
      BlockStored(fs, f, ps, t, i);
    }
    if t.Tail? {
      TailReads(fs, f, ps, t);
    } else {
      assert FragBytes(fs, f) == None;
    }
    hide ValidCursor, Stream, BlockBytes, FragBytes, Count, TailLength, Piece.Contents, BlockLength, WellFormedFs, Cut,
         NearInodeTable, FullBlocks, FileContents, Stores;
  }

  lemma StoredHolds(fs: Fs, f: Inode, ps: seq<Piece>, t: Tail, start: nat, n: nat)
    requires FileStored(fs, f, ps, t) && start + n <= |FileContents(ps, t)|
    ensures WellFormedFs(fs) && ValidCursor(fs.img, f.next)
    ensures ReadRange.Holds(fs, f, start, FileContents(ps, t)[start..][..n])
  {
    hide FileStored, ByteAt, ValidCursor, FileContents;
    CursorOk(fs, f, ps, t);
    forall j | 0 <= j < n
      ensures ByteAt(fs, f, start + j) == Some(FileContents(ps, t)[start..][..n][j])
    {
      ByteStored(fs, f, ps, t, start + j);
    }
  }

  /** Reading any range of a stored file gives the bytes of the file in that range. */
  method ReadStored(fs: Fs, f: Inode, start: nat, size: nat, cached: array?<IndexEntry>, stray: IndexEntry,
                    ghost ps: seq<Piece>, ghost t: Tail)
    returns (r: Option<seq<byte>>)
    requires FileStored(fs, f, ps, t) && size > 0
    requires cached != null ==> Count(fs, f) > 0 && IsIndex(fs, f, cached[..])
    ensures r == if start > f.fileSize then None
                 else Some(FileContents(ps, t)[start..][..Min(size, f.fileSize - start)])
  {
    hide FileStored, WellFormed, AllReadable, FileContents, ReadRange.Holds, IsIndex;
    CursorOk(fs, f, ps, t);
    Regular(fs, f, ps, t);
    StoredIsReadable(fs, f, ps, t);
    ghost var outside;
    r, outside := Read(fs, f, start, size, cached, stray);
    if start < f.fileSize {
      StoredHolds(fs, f, ps, t, start, Min(size, f.fileSize - start));
      HoldsUnique(fs, f, start, r.value, FileContents(ps, t)[start..][..Min(size, f.fileSize - start)]);
    }
  }

  lemma Regular(fs: Fs, f: Inode, ps: seq<Piece>, t: Tail)
    requires FileStored(fs, f, ps, t)
    ensures f.regular
  {
  }

  /** Copying out a stored file, in chunks of any size, gives the file. */
  method CopyStored(fs: Fs, f: Inode, chunk: nat, ghost ps: seq<Piece>, ghost t: Tail) returns (r: Option<seq<byte>>)
    requires FileStored(fs, f, ps, t) && chunk > 0
    ensures r == Some(FileContents(ps, t))
  {
    hide FileStored, WellFormed, AllReadable, FileContents, ReadRange.Holds;
    CursorOk(fs, f, ps, t);
    Regular(fs, f, ps, t);
    StoredIsReadable(fs, f, ps, t);
    r := CopyOut(fs, f, chunk);
    StoredHolds(fs, f, ps, t, 0, f.fileSize);
    assert FileContents(ps, t)[0..][..f.fileSize] == FileContents(ps, t);
    HoldsUnique(fs, f, 0, r.value, FileContents(ps, t));
  }

  // ----- there are such files

  /** An image of a fragment table with one entry, in one plain metadata block, and of its plain block. */
  function SmallImage(data: seq<byte>, inflate: (seq<byte>, nat) -> Option<seq<byte>>): Image {
    var entry := Encode(18, 8) + Encode(|data| + 0x100_0000, 4) + Encode(0, 4);
    Image(MdPlain(entry).Bytes() + data, 0, inflate)
  }

  /** The file system with that image, and the inode of a file that is all in the fragment. */
  function SmallFs(data: seq<byte>, inflate: (seq<byte>, nat) -> Option<seq<byte>>): Fs {
    Fs(SmallImage(data, inflate), 0x2_0000, 0, FragTable(1, [0]))
  }

  function SmallInode(data: seq<byte>): Inode { Inode(true, Cursor(|data| + 18, 0), 0, |data|, 0, 0) }

  lemma SmallTable(data: seq<byte>, inflate: (seq<byte>, nat) -> Option<seq<byte>>)
    requires 0 < |data| < 0x2_0000
    ensures var entry, img := Encode(18, 8) + Encode(|data| + 0x100_0000, 4) + Encode(0, 4), SmallImage(data, inflate);
            && MdBlockRead(img, 0) == Some(MdBlock(entry, 18)) && MdBlockRead(img, |data| + 18) == None
            && TableBytes(img, [0]) == entry && Stores(img, 18, data)
  {
    hide MdBlockRead, Encode, Stores, TableBytes, MdPiece.Bytes;
    var p := MdPlain(Encode(18, 8) + Encode(|data| + 0x100_0000, 4) + Encode(0, 4));
    PieceSize(p);
    OneBlock(p, data, inflate);
  }

  lemma PieceSize(p: MdPiece)
    ensures |p.Bytes()| == |p.Disk()| + 2
  {
  }

  lemma OneBlock(p: MdPiece, data: seq<byte>, inflate: (seq<byte>, nat) -> Option<seq<byte>>)
    requires p.MdPlain? && 1 <= |p.data| <= 0x8000
    ensures var img := Image(p.Bytes() + data, 0, inflate);
            && MdBlockRead(img, 0) == Some(MdBlock(p.data, |p.data| + 2))
            && MdBlockRead(img, |p.Bytes()| + |data|) == None
            && TableBytes(img, [0]) == p.data && Stores(img, |p.Bytes()|, data)
  {
    hide MdBlockRead, MdPiece.Bytes;
    var img := Image(p.Bytes() + data, 0, inflate);
    assert Stores(img, 0, p.Bytes() + data) by {
      assert img.bytes[0..] == p.Bytes() + data;
    }
    hide Stores;
    StoresParts(img, 0, p.Bytes(), data);
    MdReads(img, 0, p);
    PastEnd(img, |p.Bytes()| + |data|);
    assert TableBytes(img, [0][1..]) == [];
  }

  /** A file shorter than a block, all of it in that fragment, is stored in the image. */
  lemma SmallFileStored(data: seq<byte>, inflate: (seq<byte>, nat) -> Option<seq<byte>>)
    requires 0 < |data| < 0x2_0000
    ensures FileStored(SmallFs(data, inflate), SmallInode(data), [], Tail(data, Plain(data), 18, 0))
  {
    hide MdBlockRead, Encode, TableBytes, SmallImage;
    var fs, f, t := SmallFs(data, inflate), SmallInode(data), Tail(data, Plain(data), 18, 0);
    SmallTable(data, inflate);
    var entry := TableBytes(fs.img, [0]);
    assert entry[0..][..16] == entry;
    assert WellFormedFs(fs);
    assert TailStored(fs, f, t) by {
      hide Stores;
      assert data[0..][..|data|] == data;
    }
    hide TailStored, WellFormedFs;
    assert Headers([]) == [] && DiskBytes([]) == [] && FileContents([], t) == data;
  }

  lemma PastEnd(img: Image, pos: nat)
    requires img.base + pos + 2 > |img.bytes|
    ensures MdBlockRead(img, pos) == None
  {
  }
}
