/** FUSE inode numbers (ll_inode.c).

FUSE reserves inode 0 for "none" and 1 for the root. Where a FUSE inode number is wide enough it is
the on-disk inode reference with small adjustments; otherwise it is the 32-bit inode number with
small adjustments, and a reference-counted table remembers the on-disk references the kernel still
uses. */
module InodeMap {
  import opened Bytes
  import opened HashTable

  const WORD := 0x1_0000_0000
  type Word = x: int | 0 <= x < WORD

  const FUSE_ROOT_ID := 1
  const FUSE_INODE_NONE := 0
  const SQFS_INODE_NONE := 1

  // ----- 64-bit numbers: adjusted references

  function Ino64Fuse(root: nat, i: nat): nat { if i == root then FUSE_ROOT_ID else if i == 0 then 2 else i }

  function Ino64Sqfs(root: nat, i: nat): nat { if i == FUSE_ROOT_ID then root else if i == 2 then 0 else i }

  /** The adjustment can be undone exactly for references other than 1 and 2, which no inode can have,
      and for the root. */
  lemma Ino64RoundTrip(root: nat, i: nat)
    ensures Ino64Sqfs(root, Ino64Fuse(root, i)) == i <==> i == root || (i != 1 && i != 2)
    ensures Ino64Fuse(root, i) != FUSE_INODE_NONE
    ensures i != 1 ==> (Ino64Fuse(root, i) == FUSE_ROOT_ID <==> i == root)
  {
  }

  // ----- 32-bit numbers: adjusted inode numbers

  /** Both conversions are 32-bit arithmetic. */
  function Num2Fuse(root: nat, n: nat): nat
    requires root < WORD && n < WORD
  {
    if n == root then FUSE_ROOT_ID else if n == 0 then (root + 1) % WORD else (n + 1) % WORD
  }

  function Fuse2Num(root: nat, i: nat): nat
    requires root < WORD && i < WORD
  {
    if i == FUSE_ROOT_ID then root else if i == (root + 1) % WORD then 0 else (i + WORD - 1) % WORD
  }

  /** The conversions are inverse to each other on all 32-bit numbers. */
  lemma NumbersAreInverse(root: nat, x: nat)
    requires root < WORD && x < WORD
    ensures Num2Fuse(root, x) < WORD && Fuse2Num(root, Num2Fuse(root, x)) == x
    ensures Fuse2Num(root, x) < WORD && Num2Fuse(root, Fuse2Num(root, x)) == x
  {
  }

  /** Inode 1 is the root's alone; the number 0 for "none" is given out exactly for the one inode
      that would need the 2^32-th number. */
  lemma ReservedNumbers(root: nat, n: nat)
    requires root < WORD && n < WORD
    ensures Num2Fuse(root, n) == FUSE_ROOT_ID <==> n == root
    ensures Num2Fuse(root, n) == FUSE_INODE_NONE <==> n != root && n == (if root == WORD - 1 then 0 else WORD - 1)
  {
  }

  // ----- the table of references in use

  /** A reference is packed into 48 bits. */
  datatype InodeEntry = InodeEntry(refcount: nat, hi: nat, lo: nat)

  function Pack(refs: nat, id: nat): InodeEntry { InodeEntry(refs, id / 0x1_0000 % WORD, id % 0x1_0000) }

  function Unpack(e: InodeEntry): nat { e.hi * 0x1_0000 + e.lo }

  /** Packing keeps exactly the references of 48 bits, which is what inode references have. */
  lemma PackKeeps(refs: nat, id: nat)
    ensures Unpack(Pack(refs, id)) == id <==> id < 0x1_0000_0000_0000
  {
    assert id == id / 0x1_0000 * 0x1_0000 + id % 0x1_0000;
  }

  type Table = map<nat, InodeEntry>

  function RegisterIn(m: Table, n: nat, id: nat): Table {
    if n in m then m[n := m[n].(refcount := (m[n].refcount + 1) % WORD)] else m[n := Pack(1, id)]
  }

  function ForgetIn(m: Table, n: nat, refs: nat): Table {
    if n !in m then m
    else if m[n].refcount > refs then m[n := m[n].(refcount := m[n].refcount - refs)]
    else m - {n}
  }

  class Inodes {
    const root: nat
    const rootId: nat
    const icache: Hash<InodeEntry>

    ghost predicate Valid()
      reads this, icache, icache.buckets, icache.Repr
    {
      && root < WORD
      && icache.Valid() && icache.size <= icache.buckets.Length
    }

    /** The references in use, by inode number. */
    ghost function Contents(): Table
      reads icache
    {
      icache.contents
    }

    /** sqfs_ll_ino32_init */
    constructor (root: nat, rootId: nat)
      requires root < WORD
      ensures Valid() && Contents() == map[] && this.root == root && this.rootId == rootId
      ensures fresh(icache) && fresh(icache.buckets) && fresh(icache.Repr)
    {
      this.root := root;
      this.rootId := rootId;
      assert PowerOfTwo(1) && PowerOfTwo(2) && PowerOfTwo(4) && PowerOfTwo(8) && PowerOfTwo(16) && PowerOfTwo(32);
      icache := new Hash<InodeEntry>(32);
    }

    /** sqfs_ll_ino32_register: a lookup hands the kernel one more reference. */
    method Register(n: nat, id: nat) returns (i: nat)
      requires Valid() && n < WORD
      modifies icache, icache.buckets, icache.Repr
      ensures Valid() && fresh(icache.Repr - old(icache.Repr))
              && (icache.buckets == old(icache.buckets) || fresh(icache.buckets))
      ensures Contents() == RegisterIn(old(Contents()), n, id)
      ensures i == Num2Fuse(root, n)
    {
      hide Hash.Valid;
      var ie := icache.Get(n);
      if ie != null {
        icache.SetValue(ie, ie.value.(refcount := (ie.value.refcount + 1) % WORD));
      } else {
        icache.Add(n, Pack(1, id));
      }
      i := Num2Fuse(root, n);
    }

    /** sqfs_ll_ino32_forget: the kernel drops references. */
    method Forget(i: nat, refs: nat)
      requires Valid() && i < WORD
      modifies icache, icache.buckets, icache.Repr
      ensures Valid() && fresh(icache.Repr - old(icache.Repr))
              && (icache.buckets == old(icache.buckets) || fresh(icache.buckets))
      ensures Contents() == ForgetIn(old(Contents()), Fuse2Num(root, i), refs)
    {
      hide Hash.Valid;
      var n := Fuse2Num(root, i);
      var ie := icache.Get(n);
      if ie == null {
        return;
      }
      if ie.value.refcount > refs {
        icache.SetValue(ie, ie.value.(refcount := ie.value.refcount - refs));
      } else {
        icache.Remove(n);
      }
    }

    /** sqfs_ll_ino32_sqfs */
    method Sqfs(i: nat) returns (id: nat)
      requires Valid() && i < WORD
      ensures id == Lookup(Contents(), root, rootId, i)
    {
      if i == FUSE_ROOT_ID {
        return rootId;
      }
      var n := Fuse2Num(root, i);
      var ie := icache.Get(n);
      id := if ie != null then Unpack(ie.value) else SQFS_INODE_NONE;
    }
  }

  /** The reference of a FUSE inode. */
  function Lookup(m: Table, root: nat, rootId: nat, i: nat): nat
    requires root < WORD && i < WORD
  {
    if i == FUSE_ROOT_ID then rootId
    else if Fuse2Num(root, i) in m then Unpack(m[Fuse2Num(root, i)])
    else SQFS_INODE_NONE
  }

  // ----- runs

  /** What the kernel does: it looks an inode up, or forgets references to a FUSE inode. */
  datatype Event = LookedUp(n: Word, id: nat) | Forgotten(i: Word, refs: nat)

  function Apply(m: Table, root: nat, e: Event): Table
    requires root < WORD
  {
    match e
    case LookedUp(n, id) => RegisterIn(m, n, id)
    case Forgotten(i, refs) => ForgetIn(m, Fuse2Num(root, i), refs)
  }

  function Run(root: nat, evs: seq<Event>): Table
    requires root < WORD
  {
    if evs == [] then map[] else Apply(Run(root, evs[..|evs| - 1]), root, evs[|evs| - 1])
  }

  /** References to inode n the kernel has been given, less those it gave back. */
  function Outstanding(root: nat, evs: seq<Event>, n: nat): int
    requires root < WORD
  {
    if evs == [] then 0 else
    var before := Outstanding(root, evs[..|evs| - 1], n);
    match evs[|evs| - 1]
    case LookedUp(k, _) => if k == n then before + 1 else before
    case Forgotten(i, refs) => if Fuse2Num(root, i) == n then before - refs else before
  }

  /** The kernel forgets no more than it looked up, holds fewer than 2^32 references to an inode, and
      an inode number always comes with the same 48-bit reference. */
  ghost predicate Fair(root: nat, evs: seq<Event>, idOf: nat -> nat)
    requires root < WORD
  {
    evs == [] ||
    (Fair(root, evs[..|evs| - 1], idOf) &&
     match evs[|evs| - 1]
     case LookedUp(n, id) => id == idOf(n) < 0x1_0000_0000_0000 && Outstanding(root, evs[..|evs| - 1], n) + 1 < WORD
     case Forgotten(i, refs) => refs <= Outstanding(root, evs[..|evs| - 1], Fuse2Num(root, i)))
  }

  /** After any fair run the table holds exactly the inodes with references outstanding, each with
      that count and the reference it was registered with. */
  lemma {:induction false} TableIsExact(root: nat, evs: seq<Event>, idOf: nat -> nat, n: nat)
    requires root < WORD && Fair(root, evs, idOf)
    ensures Outstanding(root, evs, n) >= 0
    ensures n in Run(root, evs) <==> Outstanding(root, evs, n) > 0
    ensures n in Run(root, evs) ==>
            Run(root, evs)[n].refcount == Outstanding(root, evs, n) && Unpack(Run(root, evs)[n]) == idOf(n)
    ensures n in Run(root, evs) ==> Run(root, evs)[n].refcount < WORD
  {
    if evs != [] {
      var evs', e := evs[..|evs| - 1], evs[|evs| - 1];
      TableIsExact(root, evs', idOf, n);
      match e
      case LookedUp(k, id) =>
        PackKeeps(1, id);
        TableIsExact(root, evs', idOf, k);
      case Forgotten(i, refs) =>
        TableIsExact(root, evs', idOf, Fuse2Num(root, i));
    }
  }

  /** So every inode the kernel still uses can be found, under the number it was given, and one it
      has released cannot. */
  lemma KernelFindsInodes(root: nat, rootId: nat, evs: seq<Event>, idOf: nat -> nat, n: nat)
    requires root < WORD && n < WORD && n != root
    requires Fair(root, evs, idOf)
    ensures Lookup(Run(root, evs), root, rootId, FUSE_ROOT_ID) == rootId
    ensures Num2Fuse(root, n) < WORD
    ensures Lookup(Run(root, evs), root, rootId, Num2Fuse(root, n)) ==
            if Outstanding(root, evs, n) > 0 then idOf(n) else SQFS_INODE_NONE
    ensures Lookup(Run(root, evs), root, rootId, Num2Fuse(root, n)) == SQFS_INODE_NONE <==>
            Outstanding(root, evs, n) == 0 || idOf(n) == SQFS_INODE_NONE
  {
    NumbersAreInverse(root, n);
    ReservedNumbers(root, n);
    TableIsExact(root, evs, idOf, n);
  }

  // ----- references no inode has

  /** The least size of a stored inode, that of a pipe or socket. */
  const LEAST_INODE := 20

  /** Where inode k starts in the decoded inode table, if the inodes before it have these sizes. */
  function StartOf(sizes: seq<nat>, k: nat): nat
    requires k <= |sizes|
  {
    if k == 0 then 0 else StartOf(sizes, k - 1) + sizes[k - 1]
  }

  /** The reference of inode k: above sixteen bits the place of its metadata block, below them its offset
      in there. The block at place zero is the first. */
  predicate IsReference(sizes: seq<nat>, k: nat, id: nat) {
    k < |sizes| && id % 0x1_0000 < 8192 && (id / 0x1_0000 == 0 ==> id % 0x1_0000 == StartOf(sizes, k))
  }

  /** No inode has the reference that stands for none, nor those that adjusted references give to the root
      and to reference zero; so every inode in use is told from none. */
  lemma ReferencesApart(root: nat, sizes: seq<nat>, k: nat, id: nat)
    requires (forall j :: 0 <= j < |sizes| ==> sizes[j] >= LEAST_INODE) && IsReference(sizes, k, id)
    ensures id != SQFS_INODE_NONE && id != FUSE_ROOT_ID && id != 2
    ensures Ino64Sqfs(root, Ino64Fuse(root, id)) == id
    ensures id == 0 ==> k == 0
  {
    StartBound(sizes, k);
  }

  lemma {:induction false} StartBound(sizes: seq<nat>, k: nat)
    requires (forall j :: 0 <= j < |sizes| ==> sizes[j] >= LEAST_INODE) && k <= |sizes|
    ensures StartOf(sizes, k) >= LEAST_INODE * k
  {
    if k > 0 {
      StartBound(sizes, k - 1);
    }
  }
}
