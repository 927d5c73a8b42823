/** Looking up a whole path (dir.c), and its agreement with walking the tree (traverse.c). */
module PathLookup {
  import opened Bytes
  import opened Traverse

  const SLASH: byte := '/' as int

  /** One step: looking a name up in an inode and getting the inode it leads to. */
  datatype Reply<I> = Error | Missing | Child(inode: I)

  datatype Outcome<I> = Failure | NotFound | Found(inode: I)

  function LeadLength(p: seq<byte>): (n: nat)
    ensures n <= |p| && SLASH !in p[..n] && (n < |p| ==> p[n] == SLASH)
  {
    if p == [] || p[0] == SLASH then 0 else 1 + LeadLength(p[1..])
  }

  /** The parts of a path between slashes, leaving out empty ones. */
  function Components(p: seq<byte>): seq<seq<byte>> {
    if p == [] then [] else if p[0] == SLASH then Components(p[1..]) else
    [p[..LeadLength(p)]] + Components(p[LeadLength(p)..])
  }

  function Resolve<I>(step: (I, seq<byte>) -> Reply<I>, from: I, names: seq<seq<byte>>): Outcome<I> {
    if names == [] then Found(from) else
    match step(from, names[0])
    case Error => Failure
    case Missing => NotFound
    case Child(inode) => Resolve(step, inode, names[1..])
  }

  /** sqfs_lookup_path */
  method LookupPath<I>(step: (I, seq<byte>) -> Reply<I>, root: I, path: seq<byte>) returns (r: Outcome<I>)
    ensures r == Resolve(step, root, Components(path))
  {
    hide Components;
    NoComponents();
    var inode, i := root, 0;
    assert path[0..] == path && path[|path|..] == [];
    while i < |path|
      invariant 0 <= i <= |path|
      invariant Resolve(step, inode, Components(path[i..])) == Resolve(step, root, Components(path))
    {
      ghost var i0 := i;
      while i < |path| && path[i] == SLASH
        invariant i0 <= i <= |path| && Components(path[i..]) == Components(path[i0..])
      {
        SkipSlash(path, i);
        i := i + 1;
      }
      var start := i;
      while i < |path| && path[i] != SLASH
        invariant start <= i <= |path| && SLASH !in path[start..i]
      {
        i := i + 1;
      }
      if i == start {
        break;
      }
      var name := path[start..i];
      FirstComponent(path[start..], i - start);
      assert path[start..][..i - start] == name && path[start..][i - start..] == path[i..];
      match step(inode, name)
      case Error => return Failure;
      case Missing => return NotFound;
      case Child(next) => inode := next;
    }
    r := Found(inode);
  }

  lemma FirstComponent(p: seq<byte>, n: nat)
    requires 0 < n <= |p| && SLASH !in p[..n] && (n < |p| ==> p[n] == SLASH)
    ensures Components(p) == [p[..n]] + Components(p[n..])
  {
    LeadUnique(p, n);
  }

  lemma {:induction false} LeadUnique(p: seq<byte>, n: nat)
    requires n <= |p| && SLASH !in p[..n] && (n < |p| ==> p[n] == SLASH)
    ensures LeadLength(p) == n
  {
    if n > 0 {
      assert p[..n][0] == p[0] && p[..n][1..] == p[1..][..n - 1];
      LeadUnique(p[1..], n - 1);
    }
  }

  lemma SkipSlash(p: seq<byte>, i: nat)
    requires i < |p| && p[i] == SLASH
    ensures Components(p[i..]) == Components(p[i + 1..])
  {
    assert p[i..][1..] == p[i + 1..];
  }

  lemma NoComponents()
    ensures Components([]) == []
  {
  }

  predicate Plain(name: seq<byte>) { name != [] && SLASH !in name }

  /** Joined names come apart again, and repeated, leading or trailing slashes make no difference. */
  lemma {:induction false} ComponentsOfJoin(names: seq<seq<byte>>)
    requires forall n <- names :: Plain(n)
    ensures Components(Join(names)) == names
  {
    if names == [] {
    } else if |names| == 1 {
      assert Plain(names[0]);
      FirstComponent(names[0], |names[0]|);
      assert names[0][..|names[0]|] == names[0] && names[0][|names[0]|..] == [] && names == [names[0]];
    } else {
      var p := Join(names);
      var n := |names[0]|;
      assert Plain(names[0]);
      assert p[..n] == names[0] && p[n..] == SEPARATOR + Join(names[1..]);
      FirstComponent(p, n);
      assert p[n..][1..] == Join(names[1..]);
      ComponentsOfJoin(names[1..]);
    }
  }

  lemma {:induction false} SlashesSeparate(a: seq<byte>, b: seq<byte>)
    ensures Components(a + Ascii("/") + b) == Components(a) + Components(b)
    decreases |a|
  {
    assert Ascii("/") == SEPARATOR;
    var p := a + SEPARATOR + b;
    if a == [] {
      assert p[1..] == b;
    } else if a[0] == SLASH {
      assert p[1..] == a[1..] + SEPARATOR + b;
      SlashesSeparate(a[1..], b);
    } else {
      var n := LeadLength(a);
      assert p[..n] == a[..n];
      assert p[n..] == a[n..] + SEPARATOR + b;
      FirstComponent(p, n);
      SlashesSeparate(a[n..], b);
    }
  }

  // ----- the tree that is looked into

  /** What looking a name up in a listing gives. */
  function Search(l: Listing, name: seq<byte>): Reply<Sub> {
    match l
    case End => Missing
    case Fault => Error
    case More(n, rest) =>
      if n.name != name then Search(rest, name) else if n.sub.Unreadable? then Error else Child(n.sub)
  }

  function Step(inode: Sub, name: seq<byte>): Reply<Sub> {
    if inode.Dir? then Search(inode.entries, name) else Error
  }

  predicate Has(l: Listing, name: seq<byte>) {
    l.More? && (l.head.name == name || Has(l.tail, name))
  }

  /** Names in a directory are not empty, contain no slash and do not repeat. */
  predicate WellNamed(l: Listing) {
    l.More? ==>
      && Plain(l.head.name) && !Has(l.tail, l.head.name)
      && (l.head.sub.Dir? ==> WellNamed(l.head.sub.entries)) && WellNamed(l.tail)
  }

  lemma {:induction false} ReachedHas(l: Listing, names: seq<seq<byte>>, n: Node)
    requires Reaches(l, names, n) && WellNamed(l)
    ensures Has(l, names[0]) && forall name <- names :: Plain(name)
    decreases l
  {
    if Reaches(l.tail, names, n) {
      ReachedHas(l.tail, names, n);
    } else if |names| > 1 {
      ReachedHas(l.head.sub.entries, names[1..], n);
      assert names == [names[0]] + names[1..];
    }
  }

  lemma {:induction false} ReachedResolves(l: Listing, names: seq<seq<byte>>, n: Node)
    requires Reaches(l, names, n) && WellNamed(l) && !n.sub.Unreadable?
    ensures Resolve(Step, Dir(l), names) == Found(n.sub)
    decreases l
  {
    if Reaches(l.tail, names, n) {
      ReachedHas(l.tail, names, n);
      ReachedResolves(l.tail, names, n);
    } else if |names| > 1 {
      ReachedResolves(l.head.sub.entries, names[1..], n);
    }
  }

  /** Every path that walking the tree shows can be looked up, and leads to what was shown. */
  lemma ListedResolves(root: Listing, skip: Skip, e: Event)
    requires WellNamed(root) && e in Walk(root, [], skip).events && e.Entry? && !e.node.sub.Unreadable?
    ensures Resolve(Step, Dir(root), Components(e.path)) == Found(e.node.sub)
  {
    var names := ListedIsReached(root, [], e, skip);
    ReachedHas(root, names, e.node);
    assert [] + Join(names) == Join(names);
    ComponentsOfJoin(names);
    ReachedResolves(root, names, e.node);
  }

  // ----- every outcome

  /** The listing can be read to its end. */
  predicate Ends(l: Listing) { l.End? || (l.More? && Ends(l.tail)) }

  /** The first entry with a name. */
  function EntryOf(l: Listing, name: seq<byte>): (n: Node)
    requires Has(l, name)
    ensures n.name == name
  {
    if l.head.name == name then l.head else EntryOf(l.tail, name)
  }

  /** Searching a listing: an entry found before the listing breaks off decides, whatever follows it. */
  lemma {:induction false} SearchMeans(l: Listing, name: seq<byte>)
    ensures Search(l, name) ==
            if Has(l, name) then if EntryOf(l, name).sub.Unreadable? then Error else Child(EntryOf(l, name).sub)
            else if Ends(l) then Missing else Error
    decreases l
  {
    if l.More? && l.head.name != name {
      SearchMeans(l.tail, name);
    }
  }

  /** Whatever names lead to is reached through the one entry with the first of them. */
  lemma {:induction false} ReachesVia(l: Listing, names: seq<seq<byte>>, n: Node)
    requires WellNamed(l) && names != []
    ensures Reaches(l, names, n) <==>
              && Has(l, names[0])
              && var e := EntryOf(l, names[0]);
                 if |names| == 1 then n == e else e.sub.Dir? && Reaches(e.sub.entries, names[1..], n)
    decreases l
  {
    if l.More? {
      ReachesVia(l.tail, names, n);
    }
  }

  lemma {:induction false} EntryNamed(l: Listing, name: seq<byte>)
    requires WellNamed(l) && Has(l, name)
    ensures Plain(name) && (EntryOf(l, name).sub.Dir? ==> WellNamed(EntryOf(l, name).sub.entries))
    decreases l
  {
    if l.head.name != name {
      EntryNamed(l.tail, name);
    }
  }

  /** The names lead from the root to the directory with these entries. */
  ghost predicate LeadsTo(root: Listing, names: seq<seq<byte>>, d: Listing) {
    if names == [] then d == root else exists n :: Reaches(root, names, n) && n.sub == Dir(d)
  }

  /** The first k names lead to a directory that can be read to its end and lacks the next name. */
  ghost predicate Lacks(root: Listing, names: seq<seq<byte>>, k: nat, d: Listing) {
    k < |names| && LeadsTo(root, names[..k], d) && Ends(d) && !Has(d, names[k])
  }

  ghost predicate LeadsNowhere(root: Listing, names: seq<seq<byte>>) {
    exists k: nat, d :: Lacks(root, names, k, d)
  }

  ghost predicate LacksUnder(e: Node, names: seq<seq<byte>>, k: nat, d: Listing)
    requires names != []
  {
    e.sub.Dir? && Lacks(e.sub.entries, names[1..], k, d)
  }

  /** One name further down. */
  lemma LacksBelow(l: Listing, names: seq<seq<byte>>, k: nat, d: Listing)
    requires WellNamed(l) && k + 1 < |names| && Has(l, names[0])
    ensures var e := EntryOf(l, names[0]);
            Lacks(l, names, k + 1, d) <==> LacksUnder(e, names, k, d)
  {
    hide Reaches, WellNamed, Has, Ends;
    var e, first := EntryOf(l, names[0]), names[..k + 1];
    assert first[1..] == names[1..][..k] && first[0] == names[0];
    forall n
      ensures Reaches(l, first, n) <==>
              if k == 0 then n == e else e.sub.Dir? && Reaches(e.sub.entries, first[1..], n)
    {
      ReachesVia(l, first, n);
    }
  }

  lemma LacksBound(l: Listing, names: seq<seq<byte>>, k: nat, d: Listing)
    requires Lacks(l, names, k, d)
    ensures k < |names|
  {
  }

  lemma LacksHere(l: Listing, names: seq<seq<byte>>, d: Listing)
    requires names != []
    ensures Lacks(l, names, 0, d) <==> d == l && Ends(l) && !Has(l, names[0])
  {
  }

  /** Without the first name there is no going on. */
  lemma LacksFirst(l: Listing, names: seq<seq<byte>>)
    requires WellNamed(l) && names != []
    ensures !Has(l, names[0]) ==> (LeadsNowhere(l, names) <==> Ends(l))
    ensures Has(l, names[0]) ==>
              var e := EntryOf(l, names[0]);
              LeadsNowhere(l, names) <==> |names| > 1 && e.sub.Dir? && LeadsNowhere(e.sub.entries, names[1..])
  {
    hide WellNamed, Has, Ends, Lacks, Reaches, EntryOf;
    forall d
      ensures Lacks(l, names, 0, d) <==> d == l && Ends(l) && !Has(l, names[0])
    {
      LacksHere(l, names, d);
    }
    if Has(l, names[0]) {
      var e := EntryOf(l, names[0]);
      forall k: nat, d | k + 1 < |names|
        ensures Lacks(l, names, k + 1, d) <==> LacksUnder(e, names, k, d)
      {
        LacksBelow(l, names, k, d);
      }
      DownAndUp(l, names, e);
    } else {
      forall k: nat, d | Lacks(l, names, k, d)
        ensures k == 0
      {
        NothingBelow(l, names, k, d);
      }
      assert Ends(l) <==> Lacks(l, names, 0, l);
    }
  }

  lemma NothingBelow(l: Listing, names: seq<seq<byte>>, k: nat, d: Listing)
    requires WellNamed(l) && names != [] && !Has(l, names[0]) && Lacks(l, names, k, d)
    ensures k == 0
  {
    hide WellNamed, Has, Ends, Reaches;
    if k > 0 {
      var n :| Reaches(l, names[..k], n);
      ReachesVia(l, names[..k], n);
    }
  }

  lemma DownAndUp(l: Listing, names: seq<seq<byte>>, e: Node)
    requires names != [] && forall d :: !Lacks(l, names, 0, d)
    requires forall k: nat, d :: k + 1 < |names| ==>
               (Lacks(l, names, k + 1, d) <==> LacksUnder(e, names, k, d))
    ensures LeadsNowhere(l, names) <==> |names| > 1 && e.sub.Dir? && LeadsNowhere(e.sub.entries, names[1..])
  {
    hide Lacks;
    if LeadsNowhere(l, names) {
      var k: nat, d :| Lacks(l, names, k, d);
      assert k > 0 && k - 1 + 1 < |names| by { LacksBound(l, names, k, d); }
      assert LacksUnder(e, names, k - 1, d);
    }
    if |names| > 1 && e.sub.Dir? && LeadsNowhere(e.sub.entries, names[1..]) {
      var k: nat, d :| Lacks(e.sub.entries, names[1..], k, d);
      LacksBound(e.sub.entries, names[1..], k, d);
      assert LacksUnder(e, names, k, d);
      assert Lacks(l, names, k + 1, d);
    }
  }

  /** The names lead to this inode, which can be read. */
  ghost predicate LeadsToInode(root: Listing, names: seq<seq<byte>>, inode: Sub) {
    if names == [] then inode == Dir(root)
    else !inode.Unreadable? && exists n :: Reaches(root, names, n) && n.sub == inode
  }

  lemma InodeVia(l: Listing, names: seq<seq<byte>>, inode: Sub)
    requires WellNamed(l) && names != []
    ensures LeadsToInode(l, names, inode) <==>
              && Has(l, names[0])
              && var e := EntryOf(l, names[0]);
                 if |names| == 1 then inode == e.sub && !inode.Unreadable?
                 else e.sub.Dir? && LeadsToInode(e.sub.entries, names[1..], inode)
  {
    hide Reaches, WellNamed, Has;
    if Has(l, names[0]) {
      var e := EntryOf(l, names[0]);
      forall n
        ensures Reaches(l, names, n) <==>
                if |names| == 1 then n == e else e.sub.Dir? && Reaches(e.sub.entries, names[1..], n)
      {
        ReachesVia(l, names, n);
      }
    } else if LeadsToInode(l, names, inode) {
      var n :| Reaches(l, names, n);
      ReachesVia(l, names, n);
    }
  }

  lemma NoNames(l: Listing)
    ensures !LeadsNowhere(l, []) && forall inode :: LeadsToInode(l, [], inode) <==> inode == Dir(l)
  {
  }

  /** Which outcome a path has: it is found exactly if its names lead somewhere, it is not found exactly if
      they stop leading on in a directory that can be read to its end, and else the lookup fails. */
  lemma {:induction false} Outcomes(l: Listing, names: seq<seq<byte>>)
    requires WellNamed(l)
    ensures forall inode :: Resolve(Step, Dir(l), names) == Found(inode) <==> LeadsToInode(l, names, inode)
    ensures Resolve(Step, Dir(l), names) == NotFound <==> LeadsNowhere(l, names)
    ensures Resolve(Step, Dir(l), names) == Failure <==>
              !LeadsNowhere(l, names) && forall inode :: !LeadsToInode(l, names, inode)
    decreases |names|
  {
    hide WellNamed, Reaches, Search, Lacks;
    if names == [] {
      NoNames(l);
    } else {
      SearchMeans(l, names[0]);
      LacksFirst(l, names);
      forall inode
        ensures LeadsToInode(l, names, inode) <==>
                  && Has(l, names[0])
                  && var e := EntryOf(l, names[0]);
                     if |names| == 1 then inode == e.sub && !inode.Unreadable?
                     else e.sub.Dir? && LeadsToInode(e.sub.entries, names[1..], inode)
      {
        InodeVia(l, names, inode);
      }
      if Has(l, names[0]) {
        var e := EntryOf(l, names[0]);
        EntryNamed(l, names[0]);
        if e.sub.Dir? && |names| > 1 {
          Outcomes(e.sub.entries, names[1..]);
        }
      }
    }
  }
}
