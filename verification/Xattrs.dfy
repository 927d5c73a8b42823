/** Extended attributes (xattr.c): an iterator whose cursors are filled in lazily.

Entries lie one after the other in a metadata stream: type and size of the name, the name, size of
the value, the value. A value may be stored elsewhere, with an eight-byte reference in its place.
The iterator moves past a name or value only when somebody asks for what follows. */
module Xattrs {
  import opened Bytes
  import opened Metadata

  const VALUE_OOL := 256
  const PREFIX_MASK := 0xff
  const PREFIX_MAX := 2

  /** "user.", "trusted.", "security." */
  const PREFIXES: seq<seq<byte>> := [
    [117, 115, 101, 114, 46],
    [116, 114, 117, 115, 116, 101, 100, 46],
    [115, 101, 99, 117, 114, 105, 116, 121, 46]
  ]

  /** They are those strings, and their numbers are the types the format gives them. */
  lemma PrefixNames()
    ensures PREFIXES == [Ascii("user."), Ascii("trusted."), Ascii("security.")]
  {
    assert PREFIXES[0] == Ascii("user.");
    assert PREFIXES[1] == Ascii("trusted.");
    assert PREFIXES[2] == Ascii("security.");
  }

  /** An attribute: prefix type, name without prefix, value; `ref` is where an out-of-line value is. */
  datatype Attr = Attr(kind: nat, ool: bool, name: seq<byte>, value: seq<byte>, ref: nat)
  {
    function FullName(): seq<byte>
      requires kind <= PREFIX_MAX
    {
      PREFIXES[kind] + name
    }

    /** What follows the name: the value, or a value of size eight holding a reference. */
    function Inline(): seq<byte> { if ool then Encode(ref, 8) else value }
    function Slot(): seq<byte> { Encode(|Inline()|, 4) + Inline() }
    function Head(): seq<byte> { Encode(kind + if ool then VALUE_OOL else 0, 2) + Encode(|name|, 2) }

    /** The entry as it reads if its value is taken to be inline. */
    function Flat(): Attr { if ool then Attr(kind, false, name, Encode(ref, 8), 0) else this }
  }

  function EncodeAll(es: seq<Attr>): seq<byte> {
    if es == [] then [] else es[0].Head() + es[0].name + es[0].Slot() + EncodeAll(es[1..])
  }

  /** sqfs_md_cursor_inode */
  function CursorInode(id: nat, base: nat): Cursor { Cursor(id / 0x1_0000 + base, id % 0x1_0000) }

  /** A reference's upper bits are a place in the table, its lower sixteen an offset. */
  lemma CursorOfReference(block: nat, offset: nat, base: nat)
    requires offset < 0x1_0000
    ensures CursorInode(block * 0x1_0000 + offset, base) == Cursor(block + base, offset)
  {
    ModUnique(block * 0x1_0000 + offset, 0x1_0000, block, offset);
  }

  /** Fields are within their widths, and out-of-line values are where they are said to be. */
  ghost predicate WellFormed(img: Image, base: nat, e: Attr, full: bool) {
    && e.kind <= PREFIX_MAX && |e.name| < 0x1_0000 && |e.value| < 0x1_0000_0000
    && (e.ool ==>
          && e.ref < 0x1_0000_0000_0000_0000
          && Holds(img, CursorInode(e.ref, base), Encode(|e.value|, 4) + e.value, full))
  }

  lemma EncodeAllStep(es: seq<Attr>)
    requires es != []
    ensures EncodeAll(es) == es[0].Head() + (es[0].name + (es[0].Slot() + EncodeAll(es[1..])))
  {
  }

  lemma HeadReads(e: Attr)
    requires e.kind <= PREFIX_MAX && |e.name| < 0x1_0000
    ensures |e.Head()| == 4
    ensures LittleEndian(e.Head()[..2]) == e.kind + if e.ool then 256 else 0
    ensures LittleEndian(e.Head()[2..]) == |e.name|
  {
    Pow256Values();
    FieldRoundTrip(e.kind + if e.ool then VALUE_OOL else 0, 2);
    FieldRoundTrip(|e.name|, 2);
  }

  /** What is known about the current entry e, `rest` being what follows it. */
  ghost predicate Current(img: Image, e: Attr, rest: seq<byte>, full: bool, s: State) {
    && s.kind == e.kind && s.ool == e.ool && s.nameSize == |e.name|
    && Holds(img, s.cName, e.name + (e.Slot() + rest), full)
    && (s.hasVsize ==> Holds(img, s.cVsize, e.Slot() + rest, full))
    && (s.hasVal ==> s.vsize == |e.value| && Holds(img, s.cVal, if e.ool then e.value else e.value + rest, full))
    && (s.hasVal && e.ool ==> s.hasNext)
  }

  datatype State = State(remain: nat, kind: nat, ool: bool, nameSize: nat, vsize: nat,
                         cName: Cursor, cVsize: Cursor, cVal: Cursor, cNext: Cursor,
                         hasVsize: bool, hasVal: bool, hasNext: bool)

  /** Every cursor that is flagged as filled in is where an eager parse would put it: k entries of es
      have been read, the last of them taken to be e. */
  ghost predicate Faithful(img: Image, base: nat, es: seq<Attr>, k: nat, full: bool, s: State, e: Attr) {
    && k <= |es| && s.remain == |es| - k
    && (forall j :: 0 <= j < |es| ==> WellFormed(img, base, es[j], full))
    && (k == 0 ==> s.hasNext)
    && (s.hasNext ==> Holds(img, s.cNext, EncodeAll(es[k..]), full))
    && (k > 0 ==> Current(img, e, EncodeAll(es[k..]), full, s) && (e == es[k - 1] || e == es[k - 1].Flat()))
  }

  /** Entry j is the first to have the name. */
  ghost predicate First(es: seq<Attr>, j: nat, fullName: seq<byte>)
    requires j < |es| && forall i :: 0 <= i < |es| ==> es[i].kind <= PREFIX_MAX
  {
    es[j].FullName() == fullName && forall i :: 0 <= i < j ==> es[i].FullName() != fullName
  }

  class Iterator {
    const img: Image
    const base: nat
    var remain: nat
    var kind: nat
    var ool: bool
    var nameSize: nat
    var vsize: nat
    var cName: Cursor
    var cVsize: Cursor
    var cVal: Cursor
    var cNext: Cursor
    var hasVsize: bool  // CURS_VSIZE
    var hasVal: bool    // CURS_VAL
    var hasNext: bool   // CURS_NEXT

    ghost const es: seq<Attr>  // the attributes there are
    ghost const full: bool     // whether all of their metadata can be read
    ghost var k: nat           // how many have been read

    function View(): State
      reads this
    {
      State(remain, kind, ool, nameSize, vsize, cName, cVsize, cVal, cNext, hasVsize, hasVal, hasNext)
    }

    ghost predicate ValidAs(e: Attr)
      reads this
    {
      Faithful(img, base, es, k, full, View(), e)
    }

    ghost predicate Valid()
      reads this
    {
      k <= |es| && ValidAs(if k > 0 then es[k - 1] else NONE)
    }

    /** sqfs_xattr_open, for an inode with `count` attributes at `ref` */
    constructor (img: Image, base: nat, ref: nat, count: nat, ghost es: seq<Attr>, ghost full: bool)
      requires count == |es| && Holds(img, CursorInode(ref, base), EncodeAll(es), full)
      requires forall j :: 0 <= j < |es| ==> WellFormed(img, base, es[j], full)
      ensures Valid() && k == 0 && this.es == es && this.full == full
    {
      this.img, this.base, this.es, this.full, this.k := img, base, es, full, 0;
      cNext := CursorInode(ref, base);
      remain := count;
      hasVsize, hasVal, hasNext := false, false, true;
      kind, ool, nameSize, vsize := 0, false, 0, 0;
      cName, cVsize, cVal := Cursor(0, 0), Cursor(0, 0), Cursor(0, 0);
      new;
      assert es[0..] == es;
    }

    /** sqfs_xattr_name; without a buffer it only finds the end of the name. */
    method Name(keep: bool, prefix: bool, ghost e: Attr) returns (ok: bool, name: seq<byte>)
      requires ValidAs(e) && k > 0
      modifies this`cVsize, this`hasVsize
      ensures full ==> ok
      ensures ok ==> ValidAs(e) && hasVsize
      ensures ok && keep ==> name == if prefix then es[k - 1].FullName() else es[k - 1].name
    {
      hide Holds, WellFormed, EncodeAll;
      ghost var rest := EncodeAll(es[k..]);
      KindBound(img, base, es[k - 1], full);
      name := if keep && prefix then PREFIXES[kind] else [];
      var buf, c;
      ok, c, buf := Take(img, cName, e.name, nameSize, e.Slot() + rest, full, keep);
      cVsize := c;
      if !ok {
        return;
      }
      name := name + buf;
      hasVsize := true;
    }

    /** The value is elsewhere: its reference is read, then its size where it is stored. */
    method FollowReference(ghost e: Attr, ghost rest: seq<byte>) returns (ok: bool)
      requires k <= |es| && k > 0 && WellFormed(img, base, es[k - 1], full) && (e == es[k - 1] || e == es[k - 1].Flat())
      requires e.ool && Holds(img, cVal, e.Inline() + rest, full)
      modifies this`cVal, this`vsize, this`cNext, this`hasNext
      ensures full ==> ok
      ensures ok ==> hasNext && Holds(img, cNext, rest, full)
      ensures ok ==> vsize == |e.value| && Holds(img, cVal, e.value, full)
    {
      hide Holds, EncodeAll, Encode, LittleEndian, WellFormed, CursorInode;
      SlotReads(img, base, es[k - 1], e, full);
      var pos, raw, c;
      ok, c, pos := Take(img, cVal, e.Inline(), 8, rest, full, true);
      cNext := c;
      if !ok {
        return;
      }
      hasNext := true;
      cVal := CursorInode(LittleEndian(pos), base);
      ok, c, raw := Take(img, cVal, Encode(|e.value|, 4), 4, e.value, full, true);
      cVal := c;
      if !ok {
        return;
      }
      vsize := LittleEndian(raw);
    }

    /** sqfs_xattr_value_size: the size of the value, wherever it is stored. */
    method ValueSize(ghost e: Attr) returns (ok: bool, size: nat)
      requires ValidAs(e) && k > 0
      modifies this`cVsize, this`hasVsize, this`cVal, this`vsize, this`cNext, this`hasNext, this`hasVal
      ensures full ==> ok
      ensures ok ==> ValidAs(e) && hasVal && size == |e.value| == vsize
    {
      hide Holds, EncodeAll, Encode, LittleEndian, WellFormed, CursorInode;
      ghost var rest := EncodeAll(es[k..]);
      size := 0;
      if !hasVsize {
        var name;
        ok, name := Name(false, false, e);
        if !ok {
          return;
        }
      }
      SlotReads(img, base, es[k - 1], e, full);
      var raw, c;
      Split(img, cVsize, Encode(|e.Inline()|, 4), e.Inline(), rest, full);
      ok, c, raw := Take(img, cVsize, Encode(|e.Inline()|, 4), 4, e.Inline() + rest, full, true);
      cVal := c;
      if !ok {
        return;
      }
      vsize := LittleEndian(raw);
      if ool {
        ok := FollowReference(e, rest);
        if !ok {
          return;
        }
      }
      size := vsize;
      hasVal := true;
    }

    /** sqfs_xattr_value; without a buffer it only finds the end of the value. */
    method Value(keep: bool, ghost e: Attr) returns (ok: bool, value: seq<byte>)
      requires ValidAs(e) && k > 0
      modifies this`cVsize, this`hasVsize, this`cVal, this`vsize, this`cNext, this`hasNext, this`hasVal
      ensures full ==> ok
      ensures ok ==> ValidAs(e) && hasVal && hasNext
      ensures ok && keep ==> value == e.value
    {
      hide Holds, EncodeAll, Encode, WellFormed;
      value := [];
      if !hasVal {
        var size;
        ok, size := ValueSize(e);
        if !ok {
          return;
        }
      }
      ghost var rest := if e.ool then [] else EncodeAll(es[k..]);
      assert e.ool ==> e.value + [] == e.value;
      var c;
      ok, c, value := Take(img, cVal, e.value, vsize, rest, full, keep);
      if !ok {
        return;
      }
      if !ool {
        cNext := c;
        hasNext := true;
      }
    }

    /** The next entry starts where the cursor says. */
    ghost predicate AtNext()
      reads this
    {
      && k <= |es| && remain == |es| - k
      && (forall j :: 0 <= j < |es| ==> WellFormed(img, base, es[j], full))
      && Holds(img, cNext, EncodeAll(es[k..]), full)
    }

    /** Getting past a value nobody asked for. An out-of-line value is not looked up for this: its
        reference is taken for the value, and stepped over. */
    method StepOver() returns (ok: bool)
      requires Valid() && k > 0 && !hasNext
      modifies this`ool, this`cVsize, this`hasVsize, this`cVal, this`vsize, this`cNext, this`hasNext, this`hasVal
      ensures full ==> ok
      ensures ok ==> AtNext()
    {
      hide Holds, EncodeAll, WellFormed, Attr.Slot;
      ghost var e := es[k - 1];
      FlatSame(e);
      ool := false;
      var v;
      ok, v := Value(false, e.Flat());
    }

    /** sqfs_xattr_read: the next entry, whatever was or was not asked about the current one. */
    method Read() returns (ok: bool)
      requires Valid()
      modifies this
      ensures full && old(k) < |es| ==> ok
      ensures ok ==> old(k) < |es| && k == old(k) + 1 && Valid()
      ensures ok ==> kind == es[k - 1].kind && nameSize == |es[k - 1].name|
    {
      hide Holds, EncodeAll, WellFormed, Attr.Slot, Attr.Head, LittleEndian, Current;
      if remain == 0 {
        return false;
      }
      if !hasNext {
        ok := StepOver();
        if !ok {
          return;
        }
      }
      ok := ReadEntry();
    }

    /** Reading the fixed part of the next entry. */
    method ReadEntry() returns (ok: bool)
      requires AtNext() && k < |es|
      modifies this
      ensures full ==> ok
      ensures ok ==> k == old(k) + 1 && Valid()
      ensures ok ==> kind == es[k - 1].kind && nameSize == |es[k - 1].name|
    {
      hide Holds, EncodeAll, WellFormed, Attr.Slot, Attr.Head, LittleEndian, Faithful, Encode, Attr.Inline,
           Attr.Flat, Stream, Advance, Attr.FullName;
      ghost var e, rest := es[k], EncodeAll(es[k + 1..]);
      NextEntry(img, base, es, k, cNext, full);
      var raw, c;
      ok, c, raw := Take(img, cNext, e.Head(), 4, e.name + (e.Slot() + rest), full, true);
      if !ok {
        return;
      }
      var bits := LittleEndian(raw[..2]);
      if bits % (PREFIX_MASK + 1) > PREFIX_MAX {
        return false;
      }
      cName, nameSize, kind := c, LittleEndian(raw[2..]), bits % (PREFIX_MASK + 1);
      ool := bits / VALUE_OOL % 2 == 1;
      remain := remain - 1;
      hasVsize, hasVal, hasNext := false, false, false;
      k := k + 1;
      NothingKnown(img, base, es, k - 1, full, View());
    }

    /** sqfs_xattr_find: steps to the first entry from here on that has the name. */
    method Find(fullName: seq<byte>) returns (ok: bool, found: bool)
      requires Valid()
      modifies this
      ensures full ==> ok
      ensures ok ==> Valid() && old(k) <= k
      ensures ok && found ==> old(k) < k && es[k - 1].FullName() == fullName
      ensures ok && found ==> forall j :: old(k) <= j < k - 1 ==> es[j].FullName() != fullName
      ensures ok && !found ==> forall j :: old(k) <= j < |es| ==> es[j].FullName() != fullName
    {
      hide Holds, EncodeAll, WellFormed, Faithful;
      found := false;
      KindsBound();
      var known, kind0 := FindPrefix(fullName);
      if !known {
        return true, false;
      }
      var name := fullName[|PREFIXES[kind0]|..];
      ok := true;
      ghost var k0 := k;
      ViewBound();
      while remain > 0
        invariant Valid() && k0 <= k <= |es| && ok && remain == |es| - k
        invariant forall j :: k0 <= j < k ==> es[j].FullName() != fullName
        decreases |es| - k
      {
        ok := Read();
        if !ok {
          return;
        }
        ViewBound();
        NameMatches(es[k - 1], kind0, fullName);
        if kind != kind0 || nameSize != |name| {
          continue;
        }
        var cmp;
        ok, cmp := Name(true, false, es[k - 1]);
        if !ok {
          return;
        }
        ViewBound();
        if cmp == name {
          found := true;
          return;
        }
      }
    }

    /** sqfs_xattr_lookup after opening: the size of the attribute's value, and the value itself if
        the caller's buffer of `room` bytes can hold it. */
    method Lookup(fullName: seq<byte>, room: Option<nat>) returns (ok: bool, size: nat, value: Option<seq<byte>>)
      requires Valid() && k == 0
      modifies this
      ensures full ==> ok
      ensures ok && (forall j :: 0 <= j < |es| ==> es[j].FullName() != fullName) ==> size == 0 && value == None
      ensures ok && (exists j :: 0 <= j < |es| && es[j].FullName() == fullName) ==>
                exists j :: 0 <= j < |es| && First(es, j, fullName) && size == |es[j].value|
                            && value == if room.Some? && room.value >= size then Some(es[j].value) else None
    {
      hide Holds, EncodeAll, WellFormed, Faithful, Attr.FullName;
      size, value := 0, None;
      var found;
      ok, found := Find(fullName);
      if !ok || !found {
        return;
      }
      ok, size := ValueSize(es[k - 1]);
      if !ok {
        return;
      }
      if room.Some? && room.value >= size {
        var v;
        ok, v := Value(true, es[k - 1]);
        if !ok {
          return;
        }
        value := Some(v);
      }
      KindsBound();
      assert First(es, k - 1, fullName);
    }

    lemma ViewBound()
      requires Valid()
      ensures remain == |es| - k
    {
    }

    lemma KindsBound()
      requires Valid()
      ensures forall j :: 0 <= j < |es| ==> es[j].kind <= PREFIX_MAX
    {
      hide Holds;
    }
  }

  /** sqfs_xattr_find_prefix */
  method FindPrefix(name: seq<byte>) returns (known: bool, kind: nat)
    ensures known ==> kind <= PREFIX_MAX && PREFIXES[kind] <= name
    ensures !known ==> forall i :: 0 <= i <= PREFIX_MAX ==> !(PREFIXES[i] <= name)
    ensures !known ==> forall p <- PREFIXES :: !(p <= name)
  {
    kind := 0;
    while kind <= PREFIX_MAX
      invariant 0 <= kind <= PREFIX_MAX + 1
      invariant forall i :: 0 <= i < kind ==> !(PREFIXES[i] <= name)
    {
      if PREFIXES[kind] <= name {
        return true, kind;
      }
      kind := kind + 1;
    }
    known := false;
  }

  /** No two prefixes start the same name, so type and rest determine the full name. */
  lemma NameMatches(e: Attr, kind: nat, fullName: seq<byte>)
    requires e.kind <= PREFIX_MAX && kind <= PREFIX_MAX && PREFIXES[kind] <= fullName
    ensures e.FullName() == fullName <==> e.kind == kind && e.name == fullName[|PREFIXES[kind]|..]
  {
    assert e.FullName()[0] == PREFIXES[e.kind][0] && fullName[0] == PREFIXES[kind][0];
    if e.kind == kind && e.name == fullName[|PREFIXES[kind]|..] {
      assert fullName == fullName[..|PREFIXES[kind]|] + fullName[|PREFIXES[kind]|..];
    }
    if e.FullName() == fullName && e.kind == kind {
      assert e.FullName()[|PREFIXES[kind]|..] == e.name;
    }
  }

  lemma FlatSame(e: Attr)
    ensures e.Flat().Slot() == e.Slot() && e.Flat().name == e.name && e.Flat().kind == e.kind && !e.Flat().ool
    ensures !e.ool ==> e.Flat() == e
  {
  }

  /** The next entry lies at the cursor, and its fixed part reads back as written. */
  lemma NextEntry(img: Image, base: nat, es: seq<Attr>, k: nat, c: Cursor, full: bool)
    requires k < |es| && WellFormed(img, base, es[k], full) && Holds(img, c, EncodeAll(es[k..]), full)
    ensures var e := es[k];
            && Holds(img, c, e.Head() + (e.name + (e.Slot() + EncodeAll(es[k + 1..]))), full)
            && e.kind <= PREFIX_MAX && |e.Head()| == 4
            && LittleEndian(e.Head()[..2]) % (PREFIX_MASK + 1) == e.kind
            && (LittleEndian(e.Head()[..2]) / VALUE_OOL % 2 == 1 <==> e.ool)
            && LittleEndian(e.Head()[2..]) == |e.name|
  {
    hide Holds, WellFormed, LittleEndian, Attr.Slot, Attr.Head;
    assert es[k..][0] == es[k] && es[k..][1..] == es[k + 1..];
    EncodeAllStep(es[k..]);
    KindBound(img, base, es[k], full);
    HeadReads(es[k]);
  }

  /** An entry just read: only its name has been located. */
  lemma NothingKnown(img: Image, base: nat, es: seq<Attr>, k: nat, full: bool, s: State)
    requires k < |es| && s.remain == |es| - k - 1 && !s.hasVsize && !s.hasVal && !s.hasNext
    requires forall j :: 0 <= j < |es| ==> WellFormed(img, base, es[j], full)
    requires s.kind == es[k].kind && s.ool == es[k].ool && s.nameSize == |es[k].name|
    requires Holds(img, s.cName, es[k].name + (es[k].Slot() + EncodeAll(es[k + 1..])), full)
    ensures Faithful(img, base, es, k + 1, full, s, es[k])
  {
  }

  const NONE := Attr(0, false, [], [], 0)

  lemma KindBound(img: Image, base: nat, e: Attr, full: bool)
    requires WellFormed(img, base, e, full)
    ensures e.kind <= PREFIX_MAX && |e.name| < 0x1_0000
  {
  }

  /** The fields of a value slot read back as they were written. */
  lemma SlotReads(img: Image, base: nat, e0: Attr, e: Attr, full: bool)
    requires WellFormed(img, base, e0, full) && (e == e0 || e == e0.Flat())
    ensures LittleEndian(Encode(|e.Inline()|, 4)) == |e.Inline()|
    ensures LittleEndian(Encode(|e.value|, 4)) == |e.value|
    ensures e.ool ==> |e.Inline()| == 8 && LittleEndian(e.Inline()) == e.ref
    ensures e.ool ==> Holds(img, CursorInode(e.ref, base), Encode(|e.value|, 4) + e.value, full)
    ensures !e.ool ==> e.Inline() == e.value
  {
    Pow256Values();
    FieldRoundTrip(|e.value|, 4);
    FieldRoundTrip(|e.Inline()|, 4);
    if e.ool {
      FieldRoundTrip(e.ref, 8);
    }
  }
}
