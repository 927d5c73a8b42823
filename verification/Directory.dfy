/** Directory listings (dir.c): runs of entries behind a shared header, resumable offsets, and an
optional index of headers that lets a search start in the middle. */
module Directory {
  import opened Bytes
  import opened Metadata

  const NAME_LEN := 256
  const HEADER_SIZE := 12
  const ENTRY_SIZE := 8
  const INDEX_SIZE := 12

  /** An entry as stored: inode position relative to its header's block, signed difference to its
      header's inode number, type, name. */
  datatype Entry = Entry(offset: nat, delta: int, kind: nat, name: seq<byte>)
  {
    ghost predicate WellFormed() {
      offset < 0x1_0000 && -0x8000 <= delta < 0x8000 && kind < 0x1_0000 && 1 <= |name| <= 256
    }

    /** The name's size is stored less one. */
    function Head(): (b: seq<byte>)
      ensures |b| == ENTRY_SIZE
    {
      Encode(offset, 2) + Encode(delta % 0x1_0000, 2) + Encode(kind, 2)
        + Encode(if name == [] then 0 else |name| - 1, 2)
    }

    function Bytes(): seq<byte> { Head() + name }
  }

  /** A header and the entries it counts, of which there is at least one. */
  datatype Run = Run(startBlock: nat, base: nat, first: Entry, others: seq<Entry>)
  {
    ghost predicate WellFormed() {
      && startBlock < 0x1_0000_0000 && base < 0x1_0000_0000 && |others| < 0xffff_ffff
      && first.WellFormed() && forall e <- others :: e.WellFormed()
    }

    /** The count is stored less one. */
    function Head(): (b: seq<byte>)
      ensures |b| == HEADER_SIZE
    {
      Encode(|others|, 4) + Encode(startBlock, 4) + Encode(base, 4)
    }

    function Entries(): seq<Entry> { [first] + others }
  }

  function EncodeEntries(es: seq<Entry>): seq<byte> {
    if es == [] then [] else es[0].Bytes() + EncodeEntries(es[1..])
  }

  function EncodeRuns(rs: seq<Run>): seq<byte> {
    if rs == [] then [] else rs[0].Head() + EncodeEntries(rs[0].Entries()) + EncodeRuns(rs[1..])
  }

  /** What a reader is told about an entry. */
  datatype Dentry = Dentry(inode: nat, number: nat, kind: nat, nameSize: nat, name: seq<byte>, offset: nat,
    nextOffset: nat)

  function Listed(startBlock: nat, base: nat, e: Entry, at: nat, next: nat): Dentry {
    Dentry(startBlock * 0x1_0000 + e.offset, (base + e.delta) % 0x1_0000_0000, e.kind, |e.name|, e.name, at, next)
  }

  /** The listing that is left when `pending` entries of the current run and the `later` runs are
      still to come, at position `at`. */
  function Listing(startBlock: nat, base: nat, pending: seq<Entry>, later: seq<Run>, at: nat): seq<Dentry>
    decreases |later|, |pending|
  {
    if pending != [] then
      var next := at + |pending[0].Bytes()|;
      [Listed(startBlock, base, pending[0], at, next)] + Listing(startBlock, base, pending[1..], later, next)
    else if later == [] then []
    else
      var r := later[0];
      var next := at + HEADER_SIZE + |r.first.Bytes()|;
      [Listed(r.startBlock, r.base, r.first, at, next)] + Listing(r.startBlock, r.base, r.others, later[1..], next)
  }

  function WholeListing(rs: seq<Run>): seq<Dentry> { Listing(0, 0, [], rs, 0) }

  /** Where reading resumes after k entries: 0, or the next offset of the entry before. */
  function Resume(ds: seq<Dentry>, k: nat): nat
    requires k <= |ds|
  {
    if k == 0 then 0 else ds[k - 1].nextOffset
  }

  // ----- fields read back

  lemma EntryReads(e: Entry)
    requires e.WellFormed()
    ensures var h := e.Head();
            && LittleEndian(h[..2]) == e.offset
            && LittleEndian(h[2..4]) == e.delta % 0x1_0000
            && LittleEndian(h[4..6]) == e.kind
            && LittleEndian(h[6..]) + 1 == |e.name|
  {
    Pow256Values();
    var h := e.Head();
    assert h[..2] == Encode(e.offset, 2);
    assert h[2..4] == Encode(e.delta % 0x1_0000, 2);
    assert h[4..6] == Encode(e.kind, 2);
    assert h[6..] == Encode(|e.name| - 1, 2);
    FieldRoundTrip(e.offset, 2);
    FieldRoundTrip(e.delta % 0x1_0000, 2);
    FieldRoundTrip(e.kind, 2);
    FieldRoundTrip(|e.name| - 1, 2);
  }

  lemma HeaderReads(r: Run)
    requires r.WellFormed()
    ensures var h := r.Head();
            && LittleEndian(h[..4]) == |r.others|
            && LittleEndian(h[4..8]) == r.startBlock
            && LittleEndian(h[8..]) == r.base
  {
    hide Entry.WellFormed;
    Pow256Values();
    var h := r.Head();
    assert h[..4] == Encode(|r.others|, 4);
    assert h[4..8] == Encode(r.startBlock, 4);
    assert h[8..] == Encode(r.base, 4);
    FieldRoundTrip(|r.others|, 4);
    FieldRoundTrip(r.startBlock, 4);
    FieldRoundTrip(r.base, 4);
  }

  /** The two-byte field read as a signed number. */
  function Signed(n: nat): int { if n < 0x8000 then n else n - 0x1_0000 }

  // ----- the index

  /** Names a header: its place in the listing, the metadata block it starts in, its first entry. */
  datatype IndexEntry = IndexEntry(index: nat, startBlock: nat, name: seq<byte>)
  {
    ghost predicate WellFormed() {
      index < 0x1_0000_0000 && startBlock < 0x1_0000_0000 && 1 <= |name| <= 256
    }

    /** The name's size is stored less one. */
    function Head(): (b: seq<byte>)
      ensures |b| == INDEX_SIZE
    {
      Encode(index, 4) + Encode(startBlock, 4) + Encode(if name == [] then 0 else |name| - 1, 4)
    }
  }

  function EncodeIndex(ies: seq<IndexEntry>): seq<byte> {
    if ies == [] then [] else ies[0].Head() + (ies[0].name + EncodeIndex(ies[1..]))
  }

  lemma IndexReads(ie: IndexEntry)
    requires ie.WellFormed()
    ensures var h := ie.Head();
            && LittleEndian(h[..4]) == ie.index
            && LittleEndian(h[4..8]) == ie.startBlock
            && LittleEndian(h[8..]) + 1 == |ie.name|
  {
    Pow256Values();
    var h := ie.Head();
    assert h[..4] == Encode(ie.index, 4);
    assert h[4..8] == Encode(ie.startBlock, 4);
    assert h[8..] == Encode(|ie.name| - 1, 4);
    FieldRoundTrip(ie.index, 4);
    FieldRoundTrip(ie.startBlock, 4);
    FieldRoundTrip(|ie.name| - 1, 4);
  }

  /** The fields of a directory's inode; its index, if any, follows it at `next`. `table` is where
      the directory table starts. */
  datatype DirInode = DirInode(isDir: bool, startBlock: nat, offset: nat, dirSize: nat, next: Cursor, idxCount: nat)
  {
    function Start(table: nat): Cursor { Cursor(startBlock + table, offset) }
  }

  /** Where the i-th header is in the listing. */
  function Place(rs: seq<Run>, i: nat): nat
    requires i <= |rs|
  {
    |EncodeRuns(rs[..i])|
  }

  /** A directory: its runs, its index, and for each index entry the run whose header it names. */
  datatype Contents = Contents(runs: seq<Run>, index: seq<IndexEntry>, places: seq<nat>)

  /** The index entry names the i-th header, which lies where the entry says. */
  ghost predicate Describes(img: Image, table: nat, ino: DirInode, rs: seq<Run>, full: bool, ie: IndexEntry, i: nat) {
    && i < |rs| && ie.WellFormed() && ie.index == Place(rs, i) && ie.name == rs[i].first.name
    && Holds(img, Cursor(ie.startBlock + table, (ino.offset + ie.index) % MD_SIZE), EncodeRuns(rs[i..]), full)
  }

  ghost predicate Stored(img: Image, table: nat, ino: DirInode, c: Contents, full: bool) {
    && Holds(img, Cursor(ino.startBlock + table, ino.offset), EncodeRuns(c.runs), full) && AllWellFormed([], c.runs)
    && (if c.runs == [] then ino.dirSize <= 3 else ino.dirSize == |EncodeRuns(c.runs)| + 3)
    && (c.index != [] ==> ino.offset < MD_SIZE)
    && |c.index| == |c.places| == ino.idxCount && Holds(img, ino.next, EncodeIndex(c.index), full)
    && forall j :: 0 <= j < |c.index| ==> Describes(img, table, ino, c.runs, full, c.index[j], c.places[j])
  }

  /** What a directory is being searched for. */
  datatype Target = ToOffset(offset: int) | ToName(name: seq<byte>)

  /** strncmp: bytes are unsigned, a string ends with a NUL, at most n bytes count. */
  function StrNCmp(a: seq<byte>, b: seq<byte>, n: nat): int {
    if n == 0 then 0 else
    var x, y := if a == [] then 0 else a[0], if b == [] then 0 else b[0];
    if x != y then x - y else if x == 0 then 0 else StrNCmp(a[1..], b[1..], n - 1)
  }

  /** Whether the search must not start from this index entry or a later one. */
  predicate Halts(t: Target, ie: IndexEntry) {
    match t
    case ToOffset(offset) => ie.index >= offset
    case ToName(name) =>
      var order := StrNCmp(ie.name, name, |name|);
      order > 0 || (order == 0 && |ie.name| > |name|)
  }

  /** The run from which the search starts after m index entries. */
  ghost function StartRun(c: Contents, m: nat): nat
    requires m <= |c.places|
  {
    if m == 0 then 0 else c.places[m - 1]
  }

  // ----- an open directory

  ghost predicate AllWellFormed(pending: seq<Entry>, later: seq<Run>) {
    (forall e <- pending :: e.WellFormed()) && forall r <- later :: r.WellFormed()
  }

  datatype Step = Got(entry: Dentry) | Done | Failed

  class Dir {
    const img: Image
    var cur: Cursor
    var offset: nat
    var total: nat
    var count: nat  // entries left under the current header
    var startBlock: nat
    var base: nat

    ghost const full: bool  // whether all of the listing can be read
    ghost var pending: seq<Entry>
    ghost var later: seq<Run>

    ghost predicate Valid()
      reads this
    {
      && count == |pending| && AllWellFormed(pending, later)
      && Holds(img, cur, EncodeEntries(pending) + EncodeRuns(later), full)
      && offset + |EncodeEntries(pending)| + |EncodeRuns(later)| == total
    }

    /** The entries still to be listed. */
    ghost function Rest(): seq<Dentry>
      reads this
    {
      Listing(startBlock, base, pending, later, offset)
    }

    /** sqfs_dir_open, before any fast-forward */
    constructor (img: Image, start: Cursor, dirSize: nat, ghost rs: seq<Run>, ghost full: bool)
      requires Holds(img, start, EncodeRuns(rs), full) && AllWellFormed([], rs)
      requires if rs == [] then dirSize <= 3 else dirSize == |EncodeRuns(rs)| + 3
      ensures Valid() && Rest() == WholeListing(rs) && offset == 0
      ensures this.img == img && this.full == full && pending == [] && later == rs && cur == start
    {
      this.img, this.full := img, full;
      cur := start;
      offset := 0;
      total := if dirSize <= 3 then 0 else dirSize - 3;
      count, startBlock, base := 0, 0, 0;
      pending, later := [], rs;
      new;
      assert EncodeEntries([]) + EncodeRuns(rs) == EncodeRuns(rs);
    }

    /** sqfs_dir_md_read */
    method ReadMeta(ghost bytes: seq<byte>, n: nat, ghost rest: seq<byte>, keep: bool)
      returns (ok: bool, buf: seq<byte>)
      requires Holds(img, cur, bytes + rest, full) && |bytes| == n
      modifies this`cur, this`offset
      ensures offset == old(offset) + n
      ensures full ==> ok
      ensures ok ==> Holds(img, cur, rest, full) && buf == if keep then bytes else []
    {
      hide Holds;
      offset := offset + n;
      var c;
      ok, c, buf := Take(img, cur, bytes, n, rest, full, keep);
      cur := c;
    }

    /** Reading the next header. */
    method NextHeader() returns (ok: bool)
      requires Valid() && count == 0 && offset < total
      modifies this
      ensures total == old(total) && offset > old(offset)
      ensures full ==> ok
      ensures ok ==> Valid() && count > 0 && old(Rest()) != [] && Rest() != []
      ensures ok ==> old(Rest()) == [Rest()[0].(offset := old(offset))] + Rest()[1..]
    {
      hide Holds, AllWellFormed, EncodeRuns, EncodeEntries, Run.Head;
      NoBytesNoRuns(later);
      HeaderNext(later);
      HeaderReads(later[0]);
      var raw;
      ok, raw := ReadMeta(later[0].Head(), HEADER_SIZE,
                          EncodeEntries(later[0].Entries()) + EncodeRuns(later[1..]), true);
      if !ok {
        return;
      }
      count, startBlock, base := LittleEndian(raw[..4]), LittleEndian(raw[4..8]), LittleEndian(raw[8..]);
      count := (count + 1) % 0x1_0000_0000;
      pending, later := later[0].Entries(), later[1..];
    }

    /** Nothing is left to list exactly when no entries are pending at the end. */
    lemma RestHead()
      requires Valid()
      ensures count == 0 ==> (Rest() == [] <==> offset >= total)
      ensures count > 0 ==> Rest() != [] && Rest()[0].offset == offset
      ensures offset <= total
    {
      hide Holds;
      NoBytesNoRuns(later);
    }

    /** sqfs_dir_next; without a name buffer `keep` is false. */
    method Next(keep: bool) returns (r: Step)
      requires Valid()
      modifies this
      ensures total == old(total)
      ensures full ==> r != Failed
      ensures r != Failed ==> Valid() && (r == Done <==> old(Rest()) == [])
      ensures r == Done ==> Rest() == [] && offset == old(offset) == total
      ensures r.Got? ==> old(Rest()) != [] && old(Rest())[0].nameSize == |old(Rest())[0].name|
      ensures r.Got? ==> Rest() == old(Rest())[1..] && offset == old(Rest())[0].nextOffset > old(offset)
      ensures r.Got? ==> r.entry == if keep then old(Rest())[0] else old(Rest())[0].(name := [])
    {
      hide Valid, Rest;
      var at := offset;
      ghost var was := Rest();
      RestHead();
      while count == 0
        invariant Valid() && total == old(total) && at <= offset
        invariant count == 0 ==> offset == at && Rest() == was
        invariant count > 0 ==> Rest() != [] && was == [Rest()[0].(offset := at)] + Rest()[1..]
        decreases total - offset
      {
        RestHead();
        if offset >= total {
          return Done;
        }
        var ok := NextHeader();
        if !ok {
          return Failed;
        }
      }
      r := NextEntry(keep, at);
    }

    /** Reading an entry under a header. `at` is where the reader stood, perhaps before the header. */
    method NextEntry(keep: bool, at: nat) returns (r: Step)
      requires Valid() && count > 0
      modifies this
      ensures total == old(total)
      ensures full ==> r != Failed
      ensures r != Failed ==> r.Got? && Valid() && Rest() == old(Rest())[1..]
      ensures r.Got? ==> old(Rest())[0].nameSize == |old(Rest())[0].name|
      ensures r.Got? ==> offset == old(Rest())[0].nextOffset > old(offset)
      ensures r.Got? ==> r.entry == old(Rest())[0].(offset := at, name := if keep then old(Rest())[0].name else [])
    {
      hide Holds, AllWellFormed, EncodeRuns, Entry.Head;
      ghost var e, es := pending[0], pending[1..];
      PendingWellFormed(pending, later);
      EntryReads(e);
      var ok, raw, name;
      assert EncodeEntries(pending) + EncodeRuns(later) ==
             e.Head() + (e.name + (EncodeEntries(es) + EncodeRuns(later)));
      ok, raw := ReadMeta(e.Head(), ENTRY_SIZE, e.name + (EncodeEntries(es) + EncodeRuns(later)), true);
      if !ok {
        return Failed;
      }
      count := count - 1;
      var nameSize := LittleEndian(raw[6..]) + 1;
      var inode := startBlock * 0x1_0000 + LittleEndian(raw[..2]);
      var number := (base + Signed(LittleEndian(raw[2..4]))) % 0x1_0000_0000;
      if nameSize > NAME_LEN {
        return Failed;
      }
      ok, name := ReadMeta(e.name, nameSize, EncodeEntries(es) + EncodeRuns(later), keep);
      if !ok {
        return Failed;
      }
      pending := es;
      r := Got(Dentry(inode, number, LittleEndian(raw[4..6]), nameSize, name, at, offset));
    }

    /** sqfs_dir_ff_header: starts from the last header before the first index entry that halts the
        search. */
    method FastForward(table: nat, ino: DirInode, t: Target, ghost c: Contents) returns (ok: bool, ghost m: nat)
      requires Valid() && Stored(img, table, ino, c, full)
      requires pending == [] && later == c.runs && offset == 0 && cur == ino.Start(table)
      modifies this
      ensures total == old(total) && m <= |c.index|
      ensures full ==> ok
      ensures ok ==> Valid() && pending == [] && StartRun(c, m) <= |c.runs|
      ensures ok ==> later == c.runs[StartRun(c, m)..] && offset == Place(c.runs, StartRun(c, m))
      ensures ok ==> forall j :: 0 <= j < m ==> !Halts(t, c.index[j])
      ensures ok && m < |c.index| ==> Halts(t, c.index[m])
    {
      hide Holds, EncodeRuns, EncodeEntries, EncodeIndex, AllWellFormed, Halts, Describes, IndexEntry.Head;
      m := 0;
      assert c.runs[0..] == c.runs && c.runs[..0] == [];
      NoBytesNoRuns([]);
      if ino.idxCount == 0 {
        return true, 0;
      }
      var left, icur := ino.idxCount, ino.next;
      assert c.index[0..] == c.index;
      while left > 0
        invariant 0 <= left && left == |c.index| - m && m <= |c.index|
        invariant Holds(img, icur, EncodeIndex(c.index[m..]), full)
        invariant total == old(total) && cur.offset == ino.offset && count == 0 && pending == []
        invariant m == 0 ==> offset == 0 && cur == ino.Start(table)
        invariant m > 0 ==> offset == c.index[m - 1].index && cur.block == c.index[m - 1].startBlock + table
        invariant forall j :: 0 <= j < m ==> !Halts(t, c.index[j])
      {
        ghost var ie, rest := c.index[m], EncodeIndex(c.index[m + 1..]);
        NextIndex(img, table, ino, c, full, m);
        left := left - 1;
        var ok', stop, index, block;
        ok', icur, stop, index, block := ReadIndex(img, icur, t, ie, rest, full);
        if !ok' {
          return false, m;
        }
        if stop {
          break;
        }
        cur := cur.(block := block + table);
        offset := index;
        m := m + 1;
      }
      cur := cur.(offset := (cur.offset + offset) % MD_SIZE);
      Landed(img, table, ino, c, full, m);
      later := c.runs[StartRun(c, m)..];
      ok := true;
    }

    /** sqfs_dir_ff_offset: an offset is accepted exactly if listing can resume there. */
    method FastForwardTo(table: nat, ino: DirInode, target: int, ghost c: Contents) returns (ok: bool, ghost k: nat)
      requires Valid() && Stored(img, table, ino, c, full)
      requires pending == [] && later == c.runs && offset == 0 && cur == ino.Start(table)
      modifies this
      ensures k <= |WholeListing(c.runs)|
      ensures ok ==> Valid() && target == Resume(WholeListing(c.runs), k) && Rest() == WholeListing(c.runs)[k..]
      ensures full && !ok ==> forall j :: 0 <= j <= |WholeListing(c.runs)| ==> Resume(WholeListing(c.runs), j) != target
    {
      hide Valid, Stored, WholeListing, Listing, StartRun, Resume, Ascending;
      ghost var ds, m := WholeListing(c.runs), 0;
      k := 0;
      ok, m := FastForward(table, ino, ToOffset(target), c);
      if !ok {
        return;
      }
      Resumes(img, table, ino, c, full, m, startBlock, base);
      WholeAscends(c.runs);
      k := EntriesBefore(c.runs, StartRun(c, m));
      if m > 0 && k > 0 {
        assert !Halts(ToOffset(target), c.index[m - 1]);
        IndexAhead(ds, k, target);
      }
      var more := true;
      while offset < target && more
        invariant k <= |ds| && Valid() && Rest() == ds[k..] && offset == Resume(ds, k)
        invariant k > 0 ==> Resume(ds, k - 1) < target
        invariant !more ==> k == |ds|
        decreases |ds| - k, more
      {
        var r := Next(false);
        if r == Failed {
          return false, k;
        }
        if r == Done {
          more := false;
        } else {
          ResumeStep(ds, k);
          k := k + 1;
        }
      }
      ok := offset == target;
      if !ok {
        NoResume(ds, k, target);
      }
    }

    /** The loop of sqfs_dir_lookup: searches the rest of the listing ds, of which k entries cannot
        have the name. */
    method FindName(name: seq<byte>, ghost ds: seq<Dentry>, ghost k0: nat) returns (ok: bool, found: Option<Dentry>)
      requires Valid() && Sorted(ds) && k0 <= |ds| && Rest() == ds[k0..]
      requires forall j :: 0 <= j < k0 ==> !Named(ds, j, name)
      modifies this
      ensures full ==> ok
      ensures ok ==> (found.Some? <==> exists k :: Named(ds, k, name))
      ensures ok && found.Some? ==> found.value in ds && found.value.name == name
    {
      hide Valid, Rest, StrNCmp, Sorted;
      ghost var k := k0;
      found := None;
      var r := Next(true);
      while r.Got?
        invariant 0 <= k <= |ds| && (r.Failed? ==> !full)
        invariant !r.Failed? ==> Valid()
        invariant forall j :: 0 <= j < k ==> !Named(ds, j, name)
        invariant found == None && (r.Done? ==> k == |ds|)
        invariant r.Got? ==> k < |ds| && r.entry == ds[k] && r.entry.nameSize == |ds[k].name| && Rest() == ds[k + 1..]
        decreases |ds| - k
      {
        var order := StrNCmp(r.entry.name, name, |name|);
        NamesCompared(ds, k, name);
        if order == 0 && r.entry.nameSize == |name| {
          found := Some(r.entry);
        }
        if order >= 0 {
          assert found.Some? ==> Named(ds, k, name);
          return true, found;
        }
        k := k + 1;
        r := Next(true);
      }
      ok := r.Done?;
    }
  }

  /** An index entry, and whether it halts the search; sqfs_dir_ff_offset_f and sqfs_dir_ff_name_f. */
  method ReadIndex(img: Image, icur: Cursor, t: Target, ghost ie: IndexEntry, ghost rest: seq<byte>, ghost full: bool)
    returns (ok: bool, icur': Cursor, stop: bool, index: nat, block: nat)
    requires ie.WellFormed() && Holds(img, icur, ie.Head() + (ie.name + rest), full)
    ensures full ==> ok
    ensures ok ==> stop == Halts(t, ie) && index == ie.index && block == ie.startBlock
    ensures ok && !stop ==> Holds(img, icur', rest, full)
  {
    hide Holds, IndexEntry.Head, StrNCmp;
    IndexReads(ie);
    var raw, name;
    stop := false;
    ok, icur', raw := Take(img, icur, ie.Head(), INDEX_SIZE, ie.name + rest, full, true);
    index, block := 0, 0;
    if !ok {
      return;
    }
    index, block := LittleEndian(raw[..4]), LittleEndian(raw[4..8]);
    var nameSize := LittleEndian(raw[8..]) + 1;
    match t
    case ToOffset(offset) =>
      if index >= offset {
        stop := true;
        return;
      }
      ok, icur', name := Take(img, icur', ie.name, nameSize, rest, full, false);
    case ToName(cmp) =>
      if nameSize > NAME_LEN {
        return false, icur', stop, index, block;
      }
      ok, icur', name := Take(img, icur', ie.name, nameSize, rest, full, true);
      if ok {
        var order := StrNCmp(name, cmp, |cmp|);
        stop := order > 0 || (order == 0 && nameSize > |cmp|);
      }
  }

  lemma NextIndex(img: Image, table: nat, ino: DirInode, c: Contents, full: bool, m: nat)
    requires Stored(img, table, ino, c, full) && m < |c.index|
    ensures c.index[m].WellFormed() && Describes(img, table, ino, c.runs, full, c.index[m], c.places[m])
    ensures EncodeIndex(c.index[m..]) == c.index[m].Head() + (c.index[m].name + EncodeIndex(c.index[m + 1..]))
  {
    hide Holds, IndexEntry.Head, EncodeRuns;
    assert c.index[m..][0] == c.index[m] && c.index[m..][1..] == c.index[m + 1..];
  }

  /** The reader stands before a header of the listing. */
  lemma Landed(img: Image, table: nat, ino: DirInode, c: Contents, full: bool, m: nat)
    requires Stored(img, table, ino, c, full) && m <= |c.index|
    ensures StartRun(c, m) <= |c.runs| && AllWellFormed([], c.runs[StartRun(c, m)..])
    ensures Place(c.runs, StartRun(c, m)) + |EncodeRuns(c.runs[StartRun(c, m)..])| == |EncodeRuns(c.runs)|
    ensures EncodeEntries([]) + EncodeRuns(c.runs[StartRun(c, m)..]) == EncodeRuns(c.runs[StartRun(c, m)..])
    ensures m > 0 ==> c.index[m - 1].index == Place(c.runs, StartRun(c, m))
    ensures m > 0 ==>
              var ie := c.index[m - 1];
              Holds(img, Cursor(ie.startBlock + table, (ino.offset + ie.index) % MD_SIZE),
                    EncodeRuns(c.runs[StartRun(c, m)..]), full)
  {
    hide Holds, EncodeRuns;
    if m > 0 {
      assert Describes(img, table, ino, c.runs, full, c.index[m - 1], c.places[m - 1]);
    }
    EncodeRunsSplit(c.runs, StartRun(c, m));
  }

  lemma {:induction false} EncodeRunsSplit(rs: seq<Run>, i: nat)
    requires i <= |rs|
    ensures EncodeRuns(rs) == EncodeRuns(rs[..i]) + EncodeRuns(rs[i..])
  {
    hide Run.Head, EncodeEntries;
    if i > 0 {
      EncodeRunsSplit(rs[1..], i - 1);
      assert rs[..i][0] == rs[0] && rs[..i][1..] == rs[1..][..i - 1];
      assert rs[1..][i - 1..] == rs[i..];
    } else {
      assert rs[0..] == rs;
    }
  }

  /** sqfs_dir_open */
  method Open(img: Image, table: nat, ino: DirInode, offset: int, ghost c: Contents, ghost full: bool)
    returns (r: Option<Dir>, ghost k: nat)
    requires ino.isDir ==> Stored(img, table, ino, c, full)
    ensures !ino.isDir ==> r == None
    ensures r.Some? ==> ino.isDir && r.value.Valid() && r.value.full == full && (fresh(r.value))
    ensures r.Some? ==> k <= |WholeListing(c.runs)| && offset == Resume(WholeListing(c.runs), k)
    ensures r.Some? ==> r.value.Rest() == WholeListing(c.runs)[k..]
    ensures r.Some? && offset == 0 ==>
              && r.value.pending == [] && r.value.later == c.runs && r.value.offset == 0
              && r.value.cur == ino.Start(table) && r.value.img == img
    ensures full && ino.isDir && r == None ==>
              forall j :: 0 <= j <= |WholeListing(c.runs)| ==> Resume(WholeListing(c.runs), j) != offset
  {
    hide Holds, EncodeRuns, Listing, Dir.Valid;
    k := 0;
    if !ino.isDir {
      return None, 0;
    }
    var dir := new Dir(img, ino.Start(table), ino.dirSize, c.runs, full);
    if offset != 0 {
      var ok;
      ok, k := dir.FastForwardTo(table, ino, offset, c);
      if !ok {
        return None, k;
      }
    }
    r := Some(dir);
  }

  /** Byte order of names. */
  predicate Less(a: seq<byte>, b: seq<byte>) {
    b != [] && (a == [] || a[0] < b[0] || (a[0] == b[0] && Less(a[1..], b[1..])))
  }

  /** Names contain no NUL and strictly ascend. */
  ghost predicate Sorted(ds: seq<Dentry>) {
    && (forall k :: 0 <= k < |ds| ==> 0 !in ds[k].name)
    && forall j, k :: 0 <= j < k < |ds| ==> Less(ds[j].name, ds[k].name)
  }

  ghost predicate Named(ds: seq<Dentry>, k: nat, name: seq<byte>) { k < |ds| && ds[k].name == name }

  /** sqfs_dir_lookup, for any name: finds the entry that has it if there is one. */
  method Lookup(img: Image, table: nat, ino: DirInode, name: seq<byte>, ghost c: Contents, ghost full: bool)
    returns (ok: bool, found: Option<Dentry>)
    requires ino.isDir ==> Stored(img, table, ino, c, full) && Sorted(WholeListing(c.runs))
    ensures full && ino.isDir ==> ok
    ensures ok ==> ino.isDir && (found.Some? <==> exists k :: Named(WholeListing(c.runs), k, name))
    ensures ok && found.Some? ==> found.value in WholeListing(c.runs) && found.value.name == name
  {
    hide Holds, EncodeRuns, Listing, Dir.Valid, Stored, StrNCmp, StartRun;
    found := None;
    ghost var k, m;
    var start;
    start, k := Open(img, table, ino, 0, c, full);
    if start == None {
      assert Resume(WholeListing(c.runs), 0) == 0;
      return false, None;
    }
    var dir := start.value;
    ghost var ds := WholeListing(c.runs);
    ok, m := dir.FastForward(table, ino, ToName(name), c);
    if !ok {
      return;
    }
    Resumes(img, table, ino, c, full, m, dir.startBlock, dir.base);
    k := EntriesBefore(c.runs, StartRun(c, m));
    if m > 0 {
      NamesCompared(ds, k, name);
      assert !Halts(ToName(name), c.index[m - 1]);
    }
    ok, found := dir.FindName(name, ds, k);
  }

  lemma {:induction false} Trichotomy(a: seq<byte>, b: seq<byte>)
    requires 0 !in a
    ensures var order := StrNCmp(a, b, |b|);
            && (order < 0 ==> Less(a, b))
            && (order > 0 || (order == 0 && |a| > |b|) ==> Less(b, a))
            && (order == 0 && |a| == |b| ==> a == b)
            && (order == 0 && |a| < |b| ==> 0 in b)
  {
    if b != [] && a != [] && a[0] == b[0] {
      Trichotomy(a[1..], b[1..]);
      assert a == [a[0]] + a[1..] && b == [b[0]] + b[1..];
    }
  }

  /** Byte order: at the first difference the byte is smaller, or the name ends. */
  lemma {:induction false} LessMeans(a: seq<byte>, b: seq<byte>)
    ensures Less(a, b) <==>
              exists k: nat :: k <= |a| && k < |b| && a[..k] == b[..k] && (k < |a| ==> a[k] < b[k])
  {
    if a != [] && b != [] && a[0] == b[0] {
      LessMeans(a[1..], b[1..]);
      if Less(a, b) {
        var k: nat :| && k < |b[1..]| && k <= |a[1..]| && a[1..][..k] == b[1..][..k]
                      && (k < |a[1..]| ==> a[1..][k] < b[1..][k]);
        assert a[..k + 1] == [a[0]] + a[1..][..k] && b[..k + 1] == [b[0]] + b[1..][..k];
      }
      forall k: nat | k <= |a| && k < |b| && a[..k] == b[..k] && (k < |a| ==> a[k] < b[k])
        ensures Less(a, b)
      {
        assert k > 0;
        assert a[1..][..k - 1] == a[..k][1..] && b[1..][..k - 1] == b[..k][1..];
      }
    } else if Less(a, b) {
      assert a[..0] == b[..0];
    }
  }

  lemma {:induction false} LessTransitive(a: seq<byte>, b: seq<byte>, c: seq<byte>)
    requires Less(a, b) && Less(b, c)
    ensures Less(a, c)
  {
    if a != [] && a[0] == b[0] == c[0] {
      LessTransitive(a[1..], b[1..], c[1..]);
    }
  }

  lemma {:induction false} LessIrreflexive(a: seq<byte>)
    ensures !Less(a, a)
  {
    if a != [] {
      LessIrreflexive(a[1..]);
    }
  }

  /** Comparing with the k-th name settles whether the name can occur before, there or after. */
  lemma NamesCompared(ds: seq<Dentry>, k: nat, name: seq<byte>)
    requires Sorted(ds) && k < |ds|
    ensures var order, size := StrNCmp(ds[k].name, name, |name|), |ds[k].name|;
            && (order == 0 && size == |name| ==> ds[k].name == name)
            && (order < 0 || (order == 0 && size <= |name|) ==> forall j :: 0 <= j < k ==> !Named(ds, j, name))
            && (order < 0 ==> !Named(ds, k, name))
            && (order > 0 || (order == 0 && size != |name|) ==> forall j :: k <= j < |ds| ==> !Named(ds, j, name))
  {
    hide StrNCmp, Less;
    var a := ds[k].name;
    Trichotomy(a, name);
    LessIrreflexive(name);
    forall j | 0 <= j < |ds| && ds[j].name == name && j != k ensures if j < k then Less(name, a) else Less(a, name) {
    }
    if Less(a, name) && Less(name, a) {
      LessTransitive(a, name, a);
      LessIrreflexive(a);
    }
  }

  // ----- the listing

  function EntriesBefore(rs: seq<Run>, i: nat): nat
    requires i <= |rs|
  {
    if i == 0 then 0 else 1 + |rs[0].others| + EntriesBefore(rs[1..], i - 1)
  }

  /** A listing goes through the pending entries, then through the later runs. */
  lemma {:induction false} ListingDrains(startBlock: nat, base: nat, pending: seq<Entry>, later: seq<Run>, at: nat)
    ensures var n := |EncodeEntries(pending)|;
            var ds := Listing(startBlock, base, pending, later, at);
            && |pending| <= |ds|
            && ds[|pending|..] == Listing(0, 0, [], later, at + n)
            && (pending != [] ==> ds[|pending| - 1].nextOffset == at + n)
    decreases |pending|
  {
    hide Entry.Head;
    if pending != [] {
      ListingDrains(startBlock, base, pending[1..], later, at + |pending[0].Bytes()|);
    }
  }

  function RunSize(r: Run): nat { HEADER_SIZE + |EncodeEntries(r.Entries())| }

  /** A run contributes its entries to the listing. */
  lemma RunDrains(rs: seq<Run>, at: nat)
    requires rs != []
    ensures var ds, n := Listing(0, 0, [], rs, at), |rs[0].Entries()|;
            && n <= |ds| && ds[n..] == Listing(0, 0, [], rs[1..], at + RunSize(rs[0]))
            && ds[n - 1].nextOffset == at + RunSize(rs[0])
  {
    hide Entry.Head, Run.Head;
    var r := rs[0];
    assert r.Entries()[0] == r.first && r.Entries()[1..] == r.others;
    var next := at + HEADER_SIZE + |r.first.Bytes()|;
    ListingDrains(r.startBlock, r.base, r.others, rs[1..], next);
    assert next + |EncodeEntries(r.others)| == at + RunSize(r);
  }

  lemma PlaceStep(rs: seq<Run>, i: nat)
    requires 0 < i <= |rs|
    ensures Place(rs, i) == RunSize(rs[0]) + Place(rs[1..], i - 1)
  {
    assert rs[..i][0] == rs[0] && rs[..i][1..] == rs[1..][..i - 1];
  }

  /** The listing from a header on is the rest of the whole listing. */
  lemma {:induction false} ListingSuffix(rs: seq<Run>, at: nat, i: nat)
    requires i <= |rs|
    ensures var ds, k := Listing(0, 0, [], rs, at), EntriesBefore(rs, i);
            && k <= |ds| && Listing(0, 0, [], rs[i..], at + Place(rs, i)) == ds[k..]
            && (k > 0 ==> ds[k - 1].nextOffset == at + Place(rs, i)) && (k == 0 <==> i == 0)
    decreases i
  {
    hide Listing, RunSize;
    if i > 0 {
      var n := |rs[0].Entries()|;
      RunDrains(rs, at);
      PlaceStep(rs, i);
      ListingSuffix(rs[1..], at + RunSize(rs[0]), i - 1);
      assert rs[1..][i - 1..] == rs[i..];
      assert EntriesBefore(rs, i) == n + EntriesBefore(rs[1..], i - 1);
    } else {
      assert rs[0..] == rs && rs[..0] == [];
    }
  }

  /** The k-th entry begins where the one before ended. */
  ghost predicate LinkedAt(ds: seq<Dentry>, at: nat, k: nat)
    requires k < |ds|
  {
    ds[k].offset == (if k == 0 then at else ds[k - 1].nextOffset) < ds[k].nextOffset
  }

  /** Each entry begins where the one before ended, and offsets only grow, up to the end. */
  ghost predicate Chained(ds: seq<Dentry>, at: nat, end: nat) {
    && (forall k :: 0 <= k < |ds| ==> LinkedAt(ds, at, k))
    && end == if ds == [] then at else ds[|ds| - 1].nextOffset
  }

  lemma {:induction false} ListingChained(startBlock: nat, base: nat, pending: seq<Entry>, later: seq<Run>, at: nat)
    ensures Chained(Listing(startBlock, base, pending, later, at),
                    at, at + |EncodeEntries(pending)| + |EncodeRuns(later)|)
    decreases |later|, |pending|
  {
    hide Entry.Head, Run.Head, Chained;
    if pending != [] {
      var next := at + |pending[0].Bytes()|;
      ListingChained(startBlock, base, pending[1..], later, next);
      ChainedOnto(Listed(startBlock, base, pending[0], at, next), Listing(startBlock, base, pending[1..], later, next),
                  next + |EncodeEntries(pending[1..])| + |EncodeRuns(later)|);
    } else if later != [] {
      var r := later[0];
      var next := at + HEADER_SIZE + |r.first.Bytes()|;
      assert r.Entries()[0] == r.first && r.Entries()[1..] == r.others;
      ListingChained(r.startBlock, r.base, r.others, later[1..], next);
      ChainedOnto(Listed(r.startBlock, r.base, r.first, at, next),
                  Listing(r.startBlock, r.base, r.others, later[1..], next),
                  next + |EncodeEntries(r.others)| + |EncodeRuns(later[1..])|);
    } else {
      ChainedEmpty(at);
    }
  }

  lemma ChainedOnto(d: Dentry, ds: seq<Dentry>, end: nat)
    requires Chained(ds, d.nextOffset, end) && d.offset < d.nextOffset
    ensures Chained([d] + ds, d.offset, end)
  {
    var all := [d] + ds;
    forall k | 0 <= k < |all| ensures LinkedAt(all, d.offset, k) {
      if k == 0 {
        assert all[k] == d;
      } else {
        var i := k - 1;
        assert all[k] == ds[i] && all[i] == if i == 0 then d else ds[i - 1];
        assert LinkedAt(ds, d.nextOffset, i);
      }
    }
  }

  lemma ChainedEmpty(at: nat)
    ensures Chained([], at, at)
  {
  }

  lemma {:induction false} ResumesAscend(ds: seq<Dentry>, at: nat, end: nat, j: nat, k: nat)
    requires Chained(ds, at, end) && at == 0 && j < k <= |ds|
    ensures Resume(ds, j) < Resume(ds, k)
    decreases k
  {
    assert LinkedAt(ds, at, k - 1);
    if j < k - 1 {
      ResumesAscend(ds, at, end, j, k - 1);
    }
  }

  ghost predicate Ascending(ds: seq<Dentry>) {
    forall j, k :: 0 <= j < k <= |ds| ==> Resume(ds, j) < Resume(ds, k)
  }

  /** No two places to resume at are the same, so a page can end anywhere. */
  lemma WholeAscends(rs: seq<Run>)
    ensures Ascending(WholeListing(rs))
  {
    hide Resume;
    var ds := WholeListing(rs);
    ListingChained(0, 0, [], rs, 0);
    forall j, k | 0 <= j < k <= |ds| ensures Resume(ds, j) < Resume(ds, k) {
      ResumesAscend(ds, 0, |EncodeEntries([])| + |EncodeRuns(rs)|, j, k);
    }
  }

  lemma ResumeStep(ds: seq<Dentry>, k: nat)
    requires k < |ds|
    ensures Resume(ds, k + 1) == ds[k].nextOffset && ds[k..][0] == ds[k] && ds[k..][1..] == ds[k + 1..]
  {
  }

  /** A place to resume at behind the target, the one before it ahead: the target is none. */
  lemma NoResume(ds: seq<Dentry>, k: nat, target: int)
    requires Ascending(ds) && k <= |ds| && (k > 0 ==> Resume(ds, k - 1) < target)
    requires Resume(ds, k) != target && (Resume(ds, k) > target || k == |ds|)
    ensures forall j :: 0 <= j <= |ds| ==> Resume(ds, j) != target
  {
    hide Resume;
    forall j | 0 <= j <= |ds| ensures Resume(ds, j) != target {
      if j < k {
        assert j < k - 1 ==> Resume(ds, j) < Resume(ds, k - 1);
      } else if j > k {
        assert Resume(ds, k) < Resume(ds, j);
      }
    }
  }

  /** The place before one that the index leads to lies ahead of the target. */
  lemma IndexAhead(ds: seq<Dentry>, k: nat, target: int)
    requires Ascending(ds) && 0 < k <= |ds| && Resume(ds, k) < target
    ensures Resume(ds, k - 1) < target
  {
    assert Resume(ds, k - 1) < Resume(ds, k);
  }

  /** Fast-forwarding leaves the listing to be read from one of its headers on. */
  lemma Resumes(img: Image, table: nat, ino: DirInode, c: Contents, full: bool, m: nat, startBlock: nat, base: nat)
    requires Stored(img, table, ino, c, full) && m <= |c.index|
    ensures m <= |c.places| && StartRun(c, m) <= |c.runs|
    ensures var i := StartRun(c, m);
            var ds, k := WholeListing(c.runs), EntriesBefore(c.runs, i);
            && k <= |ds| && Listing(startBlock, base, [], c.runs[i..], Place(c.runs, i)) == ds[k..]
            && Resume(ds, k) == Place(c.runs, i)
            && (m == 0 ==> k == 0)
            && (m > 0 ==> c.index[m - 1].index == Place(c.runs, i) && k < |ds| && c.index[m - 1].name == ds[k].name)
  {
    hide Stored, Place, Listing, EntriesBefore, StartRun;
    StartNamed(img, table, ino, c, full, m);
    var i := StartRun(c, m);
    ListingSuffix(c.runs, 0, i);
    PlaceZero(c.runs);
    ListingHead(startBlock, base, c.runs[i..], Place(c.runs, i));
    ListingHead(0, 0, c.runs[i..], Place(c.runs, i));
  }

  /** The run to start from is the one the index entry before names. */
  lemma StartNamed(img: Image, table: nat, ino: DirInode, c: Contents, full: bool, m: nat)
    requires Stored(img, table, ino, c, full) && m <= |c.index|
    ensures m <= |c.places| && StartRun(c, m) <= |c.runs| && (m == 0 ==> StartRun(c, m) == 0)
    ensures m > 0 ==>
              var i, ie := StartRun(c, m), c.index[m - 1];
              i < |c.runs| && ie.index == Place(c.runs, i) && ie.name == c.runs[i].first.name
  {
    hide Holds, EncodeRuns, IndexEntry.WellFormed, Place, AllWellFormed;
    if m > 0 {
      assert Describes(img, table, ino, c.runs, full, c.index[m - 1], c.places[m - 1]);
    }
  }

  /** A listing that starts at a header does not depend on the run before. */
  lemma ListingHead(startBlock: nat, base: nat, rs: seq<Run>, at: nat)
    ensures Listing(startBlock, base, [], rs, at) == Listing(0, 0, [], rs, at)
    ensures rs != [] ==>
              var ds := Listing(0, 0, [], rs, at); ds != [] && ds[0].name == rs[0].first.name
  {
  }

  lemma PlaceZero(rs: seq<Run>)
    ensures Place(rs, 0) == 0
  {
  }

  /** The entries in the order they are stored, each with the run it belongs to. */
  function Flatten(rs: seq<Run>): seq<(Run, Entry)> {
    if rs == [] then [] else
    var es := rs[0].Entries();
    seq(|es|, i requires 0 <= i < |es| => (rs[0], es[i])) + Flatten(rs[1..])
  }

  ghost predicate Shows(d: Dentry, startBlock: nat, base: nat, e: Entry) {
    && d.name == e.name && d.nameSize == |e.name| && d.kind == e.kind
    && d.inode == startBlock * 0x1_0000 + e.offset && d.number == (base + e.delta) % 0x1_0000_0000
  }

  lemma {:induction false} PendingShown(startBlock: nat, base: nat, pending: seq<Entry>, later: seq<Run>, at: nat)
    ensures var ds := Listing(startBlock, base, pending, later, at);
            |pending| <= |ds| && forall k :: 0 <= k < |pending| ==> Shows(ds[k], startBlock, base, pending[k])
    decreases |pending|
  {
    if pending != [] {
      PendingShown(startBlock, base, pending[1..], later, at + |pending[0].Bytes()|);
    }
  }

  /** The listing is exactly the stored entries, in order, each with its own run's block and inode
      number. */
  lemma {:induction false} ListingIsStored(rs: seq<Run>, at: nat)
    ensures var ds, fs := Listing(0, 0, [], rs, at), Flatten(rs);
            |ds| == |fs| && forall k :: 0 <= k < |ds| ==> Shows(ds[k], fs[k].0.startBlock, fs[k].0.base, fs[k].1)
    decreases |rs|
  {
    hide Shows, RunSize, Listing;
    if rs != [] {
      var r, n := rs[0], |rs[0].Entries()|;
      var ds, fs := Listing(0, 0, [], rs, at), Flatten(rs);
      RunDrains(rs, at);
      RunShown(rs, at);
      ListingIsStored(rs[1..], at + RunSize(r));
      forall k | 0 <= k < |ds| ensures k < |fs| && Shows(ds[k], fs[k].0.startBlock, fs[k].0.base, fs[k].1) {
        if k >= n {
          assert ds[k] == ds[n..][k - n] && fs[k] == Flatten(rs[1..])[k - n];
        }
      }
    } else {
      assert Listing(0, 0, [], rs, at) == [] by { ListingEmpty(at); }
    }
  }

  lemma ListingEmpty(at: nat)
    ensures Listing(0, 0, [], [], at) == []
  {
  }

  lemma RunShown(rs: seq<Run>, at: nat)
    requires rs != []
    ensures var ds, r := Listing(0, 0, [], rs, at), rs[0];
            |r.Entries()| <= |ds| && forall k :: 0 <= k < |r.Entries()| ==>
              Shows(ds[k], r.startBlock, r.base, r.Entries()[k])
  {
    hide Shows;
    var r := rs[0];
    var next := at + HEADER_SIZE + |r.first.Bytes()|;
    PendingShown(r.startBlock, r.base, r.others, rs[1..], next);
    FirstShown(r, at, next);
  }

  lemma FirstShown(r: Run, at: nat, next: nat)
    ensures Shows(Listed(r.startBlock, r.base, r.first, at, next), r.startBlock, r.base, r.first)
  {
  }

  /** In a table of full blocks, an index entry that gives the block of a header describes it: the
      cursor computed by division is where reading on from the start would arrive. */
  lemma IndexInChain(img: Image, table: nat, ino: DirInode, rs: seq<Run>, ie: IndexEntry, i: nat)
    requires i < |rs| && ie.WellFormed() && ie.index == Place(rs, i) && ie.name == rs[i].first.name
    requires ino.offset < MD_SIZE && Holds(img, ino.Start(table), EncodeRuns(rs), true)
    requires FullBlocks(img, ino.startBlock + table, ino.offset + ie.index)
    requires ie.startBlock + table == ChainPos(img, ino.startBlock + table, (ino.offset + ie.index) / MD_SIZE)
    ensures Describes(img, table, ino, rs, true, ie, i)
  {
    hide EncodeRuns, FullBlocks, ChainPos, Advance, Stream;
    var start := ino.Start(table);
    EncodeRunsSplit(rs, i);
    TakeHeld(img, start, EncodeRuns(rs[..i]), EncodeRuns(rs[i..]), true);
    AdvanceByDivision(img, start.block, ino.offset, ie.index, ino.offset + ie.index);
  }

  lemma NoBytesNoRuns(later: seq<Run>)
    ensures EncodeEntries([]) == [] && (later == [] <==> EncodeRuns(later) == [])
  {
  }

  lemma HeaderNext(later: seq<Run>)
    requires later != [] && AllWellFormed([], later)
    ensures EncodeEntries([]) + EncodeRuns(later)
            == later[0].Head() + (EncodeEntries(later[0].Entries()) + EncodeRuns(later[1..]))
    ensures later[0].WellFormed() && AllWellFormed(later[0].Entries(), later[1..])
  {
  }

  lemma PendingWellFormed(pending: seq<Entry>, later: seq<Run>)
    requires pending != [] && AllWellFormed(pending, later)
    ensures pending[0].WellFormed() && AllWellFormed(pending[1..], later)
  {
  }
}
