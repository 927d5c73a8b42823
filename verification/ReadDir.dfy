/** Paged directory reads for FUSE (ll.c): each call fills a buffer with entries from an offset on,
and every entry carries the offset at which the next call is to continue. */
module ReadDir {
  import opened Bytes
  import opened Metadata
  import opened Directory

  const DOT: seq<byte> := ['.' as int]
  const DOT_DOT: seq<byte> := ['.' as int, '.' as int]

  /** What a caller gets for an entry; "." and ".." are not stored. */
  datatype Item = Item(name: seq<byte>, entry: Option<Dentry>, next: int)

  datatype Reply = Filled(items: seq<Item>) | Invalid | IoError

  /** The space an entry takes for a name of a given length, as FUSE pads it: it grows with the
      length, and is the same for one byte and two. */
  ghost predicate Padded(cost: nat -> nat) {
    && cost(1) == cost(2) > 0
    && forall n: nat :: n >= 1 ==> cost(1) <= cost(n)
  }

  function EntryItem(d: Dentry): Item { Item(d.name, Some(d), d.nextOffset + 2) }

  /** The directory as a caller is to see it. */
  function Items(ds: seq<Dentry>): seq<Item> {
    [Item(DOT, None, 1), Item(DOT_DOT, None, 2)] + seq(|ds|, i requires 0 <= i < |ds| => EntryItem(ds[i]))
  }

  /** "." and "..", then every entry of the listing with its own name and what the listing says of it. */
  lemma ItemsAre(ds: seq<Dentry>)
    ensures |Items(ds)| == |ds| + 2
    ensures Items(ds)[0].name == Ascii(".") && Items(ds)[1].name == Ascii("..")
    ensures Items(ds)[0].entry == Items(ds)[1].entry == None
    ensures forall i :: 0 <= i < |ds| ==> Items(ds)[i + 2].name == ds[i].name && Items(ds)[i + 2].entry == Some(ds[i])
  {
  }

  /** The offset from which the k-th item on are read. */
  function OffsetOf(ds: seq<Dentry>, k: nat): int
    requires k <= |ds| + 2
  {
    if k < 2 then k else Resume(ds, k - 2) + 2
  }

  /** How many items, in order, fit the buffer. */
  function FitCount(items: seq<Item>, size: nat, cost: nat -> nat): (n: nat)
    ensures n <= |items|
  {
    if items == [] || cost(|items[0].name|) > size then 0 else
    1 + FitCount(items[1..], size - cost(|items[0].name|), cost)
  }

  function Page(items: seq<Item>, size: nat, cost: nat -> nat): seq<Item> {
    items[..FitCount(items, size, cost)]
  }

  function Space(items: seq<Item>, cost: nat -> nat): nat {
    if items == [] then 0 else cost(|items[0].name|) + Space(items[1..], cost)
  }

  /** A page fits the buffer, and with one item more it would not. */
  lemma {:induction false} PageFits(items: seq<Item>, size: nat, cost: nat -> nat)
    ensures Page(items, size, cost) <= items && Space(Page(items, size, cost), cost) <= size
    ensures var n := |Page(items, size, cost)|; n < |items| ==> Space(items[..n + 1], cost) > size
  {
    if items != [] {
      var c := cost(|items[0].name|);
      if c <= size {
        PageFits(items[1..], size - c, cost);
        var n := |Page(items[1..], size - c, cost)|;
        assert Page(items, size, cost)[1..] == Page(items[1..], size - c, cost);
        assert n < |items| - 1 ==> items[..n + 2][1..] == items[1..][..n + 1];
      } else {
        assert items[..1][1..] == [];
      }
    }
  }

  lemma PageEnd(items: seq<Item>, size: nat, cost: nat -> nat)
    ensures Page(items[|items|..], size, cost) == []
  {
  }

  lemma PageStep(items: seq<Item>, k: nat, size: nat, cost: nat -> nat)
    requires k < |items|
    ensures var c := cost(|items[k].name|);
            Page(items[k..], size, cost) == if c > size then [] else [items[k]] + Page(items[k + 1..], size - c, cost)
  {
    assert items[k..][1..] == items[k + 1..];
  }

  /** Each item says where the next one is read from. */
  lemma NextIsOffset(ds: seq<Dentry>, k: nat)
    requires k < |ds| + 2
    ensures Items(ds)[k].next == OffsetOf(ds, k + 1)
  {
  }

  lemma {:induction false} FlattenWellFormed(rs: seq<Run>, k: nat)
    requires AllWellFormed([], rs) && k < |Flatten(rs)|
    ensures Flatten(rs)[k].1.WellFormed()
  {
    var n := |rs[0].Entries()|;
    if k >= n {
      FlattenWellFormed(rs[1..], k - n);
    } else {
      assert rs[0].WellFormed();
    }
  }

  lemma ItemsNamed(rs: seq<Run>, k: nat)
    requires AllWellFormed([], rs) && k < |Items(WholeListing(rs))|
    ensures |Items(WholeListing(rs))[k].name| >= 1
  {
    var ds := WholeListing(rs);
    if k >= 2 {
      ListingIsStored(rs, 0);
      FlattenWellFormed(rs, k - 2);
      assert Shows(ds[k - 2], Flatten(rs)[k - 2].0.startBlock, Flatten(rs)[k - 2].0.base, Flatten(rs)[k - 2].1);
    }
  }

  lemma NothingFits(rs: seq<Run>, k: nat, size: nat, cost: nat -> nat)
    requires AllWellFormed([], rs) && Padded(cost) && k <= |Items(WholeListing(rs))| && size < cost(1)
    ensures Page(Items(WholeListing(rs))[k..], size, cost) == []
  {
    var items := Items(WholeListing(rs));
    if k < |items| {
      ItemsNamed(rs, k);
      PageStep(items, k, size, cost);
    }
  }

  /** The offset is that of item k, and if that is ".", it fits. */
  predicate Serves(ds: seq<Dentry>, k: nat, off: nat, size: nat, cost: nat -> nat) {
    k <= |ds| + 2 && off == OffsetOf(ds, k) && (k == 0 ==> cost(1) <= size)
  }

  /** sqfs_ll_op_readdir. From an offset where item k is read, the reply is as many items from k on
      as fit. Any other offset, and a buffer too small for ".", is an error. */
  method Read(img: Image, table: nat, ino: DirInode, size: nat, off: nat, cost: nat -> nat, ghost c: Contents,
              ghost full: bool)
    returns (r: Reply)
    requires ino.isDir && Stored(img, table, ino, c, full) && Padded(cost)
    ensures r.Filled? ==>
              exists k: nat :: && Serves(WholeListing(c.runs), k, off, size, cost)
                               && r.items == Page(Items(WholeListing(c.runs))[k..], size, cost)
    ensures full ==> (r.Filled? <==> exists k: nat :: Serves(WholeListing(c.runs), k, off, size, cost)) && r != IoError
  {
    hide Listing, Dir.Valid, Page, Holds, EncodeRuns, Describes, AllWellFormed, EncodeIndex, Items, Resume;
    ghost var ds := WholeListing(c.runs);
    var dirOffset, left, items, j := Dots(size, off, cost, ds);
    var start;
    ghost var i := 0;
    start, i := Open(img, table, ino, dirOffset, c, full);
    OffsetsApart(c.runs);
    if start == None {
      if off < 2 {
        assert Resume(ds, 0) == 0 by { ResumeStart(ds); }
        assert OffsetOf(ds, off) == off;
      }
      return Invalid;
    }
    ItemsCount(ds);
    if off < 2 && j < 2 {
      NothingFits(c.runs, i + 2, left, cost);
    }
    r := Fill(start.value, left, cost, items, i, c.runs);
    assert Serves(ds, if off < 2 then off else i + 2, off, size, cost);
  }

  lemma ResumeStart(ds: seq<Dentry>)
    ensures Resume(ds, 0) == 0
  {
  }

  lemma ItemsCount(ds: seq<Dentry>)
    ensures |Items(ds)| == |ds| + 2
  {
  }

  /** No two items are read from the same offset. */
  lemma OffsetsApart(rs: seq<Run>)
    ensures var ds := WholeListing(rs);
            forall j, k :: 0 <= j < k <= |ds| + 2 ==> OffsetOf(ds, j) < OffsetOf(ds, k)
    ensures forall k :: 0 <= k <= |WholeListing(rs)| ==> Resume(WholeListing(rs), k) >= 0
  {
    var ds := WholeListing(rs);
    hide Listing;
    WholeAscends(rs);
    assert Resume(ds, 0) == 0;
  }

  /** The loop that adds "." and "..": either it gets to item j >= 2, or item j does not fit, and the
      offset it leaves is negative exactly if that is ".". */
  method Dots(size: nat, off: nat, cost: nat -> nat, ghost ds: seq<Dentry>)
    returns (dirOffset: int, left: nat, items: seq<Item>, ghost j: nat)
    requires Padded(cost)
    ensures |Items(ds)| == |ds| + 2
    ensures off >= 2 ==> dirOffset == off - 2 && left == size && items == []
    ensures off < 2 ==> off <= j <= 2 && dirOffset == (if j == 2 then 0 else j - 1)
    ensures off < 2 ==> Page(Items(ds)[off..], size, cost) == items + if j == 2 then Page(Items(ds)[2..], left, cost)
            else []
    ensures off < 2 && j < 2 ==> left < cost(1)
    ensures dirOffset < 0 <==> off == 0 && size < cost(1)
  {
    hide Page;
    j := off;
    dirOffset, left, items := off, size, [];
    while dirOffset < 2
      invariant if off < 2 then off <= j == dirOffset <= 2 else dirOffset == off && left == size && items == []
      invariant off < 2 ==> Page(Items(ds)[off..], size, cost) == items + Page(Items(ds)[j..], left, cost)
      invariant if j == off then left == size else off > 0 || size >= cost(1)
      decreases 2 - dirOffset
    {
      var name := if dirOffset == 0 then DOT else DOT_DOT;
      dirOffset := dirOffset + 1;
      PageStep(Items(ds), j, left, cost);
      if cost(|name|) > left {
        break;
      }
      items := items + [Item(name, None, dirOffset)];
      left := left - cost(|name|);
      j := j + 1;
    }
    dirOffset := dirOffset - 2;
  }

  /** The loop over the entries. */
  method Fill(dir: Dir, room: nat, cost: nat -> nat, before: seq<Item>, ghost i0: nat, ghost rs: seq<Run>)
    returns (r: Reply)
    requires dir.Valid() && i0 <= |WholeListing(rs)| && dir.Rest() == WholeListing(rs)[i0..]
    modifies dir
    ensures dir.full ==> r.Filled?
    ensures r.Filled? ==> r.items == before + Page(Items(WholeListing(rs))[i0 + 2..], room, cost)
    ensures r != Invalid
  {
    hide Dir.Valid, Dir.Rest, Page, Listing, Items;
    ghost var ds, i := WholeListing(rs), i0;
    ItemsCount(ds);
    var items, left: nat := before, room;
    ghost var want := before + Page(Items(ds)[i0 + 2..], room, cost);
    var s := dir.Next(true);
    while s.Got?
      invariant i <= |ds| && (s.Failed? ==> !dir.full) && (s.Done? ==> i == |ds|)
      invariant s.Got? ==> dir.Valid() && i < |ds| && s.entry == ds[i] && dir.Rest() == ds[i + 1..]
      invariant want == items + Page(Items(ds)[i + 2..], left, cost)
      decreases |ds| - i
    {
      EntryStep(ds, i, left, cost, items);
      if cost(|s.entry.name|) > left {
        return Filled(items);
      }
      items := items + [EntryItem(s.entry)];
      left := left - cost(|s.entry.name|);
      i := i + 1;
      s := dir.Next(true);
    }
    if s.Failed? {
      return IoError;
    }
    PageEnd(Items(ds), left, cost);
    r := Filled(items);
  }

  /** What an entry adds to the page, or that it ends it. */
  lemma EntryStep(ds: seq<Dentry>, i: nat, left: nat, cost: nat -> nat, items: seq<Item>)
    requires i < |ds|
    ensures |Items(ds)| == |ds| + 2
    ensures var c := cost(|ds[i].name|);
            items + Page(Items(ds)[i + 2..], left, cost) ==
            if c > left then items else items + [EntryItem(ds[i])] + Page(Items(ds)[i + 3..], left - c, cost)
  {
    hide Page;
    PageStep(Items(ds), i + 2, left, cost);
    assert Items(ds)[i + 2] == EntryItem(ds[i]);
  }

  // ----- page by page

  /** A caller that reads on at the offset of the last item it got, until there are no more, gets every
      item once and in order, if its buffer has room for any one of them. */
  method ReadAll(img: Image, table: nat, ino: DirInode, size: nat, cost: nat -> nat, ghost c: Contents,
                 ghost full: bool)
    returns (ok: bool, all: seq<Item>)
    requires ino.isDir && Stored(img, table, ino, c, full) && Padded(cost)
    requires forall x <- Items(WholeListing(c.runs)) :: cost(|x.name|) <= size
    ensures full ==> ok
    ensures ok ==> all == Items(WholeListing(c.runs))
  {
    hide Stored, Listing, Items, Page, Resume;
    ghost var ds := WholeListing(c.runs);
    ItemsCount(ds);
    DotFits(ds, size, cost);
    OffsetsApart(c.runs);
    var off: nat := 0;
    ghost var k := 0;
    all, ok := [], false;
    while !ok
      invariant k <= |ds| + 2 && off == OffsetOf(ds, k) && all == Items(ds)[..k]
      invariant ok ==> k == |ds| + 2
      decreases |ds| + 2 - k, !ok
    {
      assert Serves(ds, k, off, size, cost);
      var r := Read(img, table, ino, size, off, cost, c, full);
      if !r.Filled? {
        return;
      }
      assert r.items == Page(Items(ds)[k..], size, cost);
      PageSize(Items(ds), k, size, cost);
      if r.items == [] {
        ok := true;
      } else {
        k := k + |r.items|;
        all := all + r.items;
        NextIsOffset(ds, k - 1);
        off := r.items[|r.items| - 1].next;
      }
    }
  }

  lemma DotFits(ds: seq<Dentry>, size: nat, cost: nat -> nat)
    requires forall x <- Items(ds) :: cost(|x.name|) <= size
    ensures cost(1) <= size
  {
    assert Items(ds)[0].name == DOT;
  }

  /** A page is a piece of the items, and empty only at their end. */
  lemma PageSize(items: seq<Item>, k: nat, size: nat, cost: nat -> nat)
    requires k <= |items| && forall x <- items :: cost(|x.name|) <= size
    ensures var page := Page(items[k..], size, cost);
            k + |page| <= |items| && page == items[k..k + |page|] && (page == [] <==> k == |items|)
  {
  }
}
