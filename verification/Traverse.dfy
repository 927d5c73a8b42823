/** Walking a tree without recursion (traverse.c): a stack of open directories, a state that says
what to do on the next call, and a growable buffer that holds the current path.

What an open directory still has to list is a `Listing`; that reading one yields exactly its entries
is the subject of the Directory module. */
module Traverse {
  import opened Bytes

  const SEPARATOR: seq<byte> := ['/' as int]
  const PATH_CAP := 32

  /** What is left to read of a directory: it may end, or turn out to be unreadable. */
  datatype Listing = End | Fault | More(head: Node, tail: Listing)

  datatype Node = Node(name: seq<byte>, sub: Sub)

  /** What an entry leads to. A directory whose inode cannot be read or opened is unreadable. */
  datatype Sub = Leaf | Unreadable | Dir(entries: Listing)

  /** What a caller sees on a successful call: an entry, or the end of a directory. */
  datatype Event = Entry(path: seq<byte>, node: Node) | DirEnd(path: seq<byte>)

  /** The events to be expected, and whether they end normally or by an error. */
  datatype Run = Run(events: seq<Event>, ok: bool)
  {
    function Then(next: Run): Run {
      if ok then Run(events + next.events, next.ok) else this
    }

    function After(e: Event): Run { Run([e] + events, ok) }
  }

  /** Which directories a caller prunes when it sees them, by path. */
  type Skip = seq<byte> -> bool

  /** The caller that prunes none. */
  function SkipNone(): Skip { _ => false }

  /** The recursive pre-order listing, with one marker where a directory that was entered ends. */
  function Walk(l: Listing, prefix: seq<byte>, skip: Skip): Run {
    match l
    case End => Run([], true)
    case Fault => Run([], false)
    case More(n, rest) =>
      var path := prefix + n.name;
      Below(n, prefix, skip).Then(Walk(rest, prefix, skip)).After(Entry(path, n))
  }

  /** What follows an entry because of what it leads to. */
  function Below(n: Node, prefix: seq<byte>, skip: Skip): Run {
    if skip(prefix + n.name) then Run([], true) else
    match n.sub
    case Leaf => Run([], true)
    case Unreadable => Run([], false)
    case Dir(es) => Walk(es, prefix + n.name + SEPARATOR, skip).Then(Run([DirEnd(prefix + n.name)], true))
  }

  // ----- the listing means what it should

  /** The names lead from the listing to the node. */
  predicate Reaches(l: Listing, names: seq<seq<byte>>, n: Node) {
    && names != [] && l.More?
    && (|| Reaches(l.tail, names, n)
        || (l.head.name == names[0]
            && if |names| == 1 then n == l.head else l.head.sub.Dir? && Reaches(l.head.sub.entries, names[1..], n)))
  }

  /** No directory on the way is skipped. */
  predicate Unskipped(prefix: seq<byte>, names: seq<seq<byte>>, skip: Skip)
    decreases |names|
  {
    |names| <= 1 || (!skip(prefix + names[0]) && Unskipped(prefix + names[0] + SEPARATOR, names[1..], skip))
  }

  /** Names joined by slashes. */
  function Join(names: seq<seq<byte>>): seq<byte> {
    if names == [] then [] else if |names| == 1 then names[0] else names[0] + SEPARATOR + Join(names[1..])
  }

  /** Every entry of the tree outside skipped directories is listed, under the slash-joined names that lead to it. */
  lemma {:induction false} ReachedIsListed(l: Listing, prefix: seq<byte>, names: seq<seq<byte>>, n: Node, skip: Skip)
    requires Reaches(l, names, n) && Unskipped(prefix, names, skip) && Walk(l, prefix, skip).ok
    ensures Entry(prefix + Join(names), n) in Walk(l, prefix, skip).events
    decreases l
  {
    var e := Entry(prefix + Join(names), n);
    var below := Below(l.head, prefix, skip);
    assert Walk(l, prefix, skip).events ==
           [Entry(prefix + l.head.name, l.head)] + below.events + Walk(l.tail, prefix, skip).events;
    if Reaches(l.tail, names, n) {
      ReachedIsListed(l.tail, prefix, names, n, skip);
    } else if |names| > 1 {
      var under := prefix + l.head.name + SEPARATOR;
      ReachedIsListed(l.head.sub.entries, under, names[1..], n, skip);
      assert under + Join(names[1..]) == prefix + Join(names);
      assert e in below.events;
    }
  }

  /** Nothing else is listed. */
  lemma {:induction false} ListedIsReached(l: Listing, prefix: seq<byte>, e: Event, skip: Skip)
    returns (names: seq<seq<byte>>)
    requires e in Walk(l, prefix, skip).events && e.Entry?
    ensures Reaches(l, names, e.node) && Unskipped(prefix, names, skip) && e.path == prefix + Join(names)
    decreases l
  {
    var below := Below(l.head, prefix, skip);
    if e == Entry(prefix + l.head.name, l.head) {
      names := [l.head.name];
    } else if e in below.events {
      var under := prefix + l.head.name + SEPARATOR;
      var inner := ListedIsReached(l.head.sub.entries, under, e, skip);
      names := [l.head.name] + inner;
      assert names[1..] == inner;
      assert under + Join(inner) == prefix + Join(names);
    } else {
      names := ListedIsReached(l.tail, prefix, e, skip);
    }
  }

  /** The directories that are open after some events, by path, if every marker so far has been for the
      one entered last. */
  function OpenAfter(es: seq<Event>, open: seq<seq<byte>>, skip: Skip): Option<seq<seq<byte>>> {
    if es == [] then Some(open) else
    match es[0]
    case Entry(path, n) => OpenAfter(es[1..], if n.sub.Dir? && !skip(path) then open + [path] else open, skip)
    case DirEnd(path) =>
      if open != [] && open[|open| - 1] == path then OpenAfter(es[1..], open[..|open| - 1], skip) else None
  }

  lemma {:induction false} OpenJoin(a: seq<Event>, b: seq<Event>, open: seq<seq<byte>>, skip: Skip)
    requires OpenAfter(a, open, skip).Some?
    ensures OpenAfter(a + b, open, skip) == OpenAfter(b, OpenAfter(a, open, skip).value, skip)
    decreases |a|
  {
    if a == [] {
      assert a + b == b;
    } else {
      assert (a + b)[1..] == a[1..] + b;
      match a[0]
      case Entry(path, n) => OpenJoin(a[1..], b, if n.sub.Dir? && !skip(path) then open + [path] else open, skip);
      case DirEnd(path) => OpenJoin(a[1..], b, open[..|open| - 1], skip);
    }
  }

  /** The run keeps to that, starting with the directories `from` open, and unless it is cut short
      leaves `to` open. */
  ghost predicate Nests(r: Run, from: seq<seq<byte>>, to: seq<seq<byte>>, skip: Skip) {
    OpenAfter(r.events, from, skip).Some? && (r.ok ==> OpenAfter(r.events, from, skip) == Some(to))
  }

  lemma NestsThen(a: Run, b: Run, from: seq<seq<byte>>, between: seq<seq<byte>>, to: seq<seq<byte>>, skip: Skip)
    requires Nests(a, from, between, skip) && Nests(b, between, to, skip)
    ensures Nests(a.Then(b), from, to, skip)
  {
    OpenJoin(a.events, b.events, from, skip);
  }

  lemma NestsNothing(ok: bool, open: seq<seq<byte>>, skip: Skip)
    ensures Nests(Run([], ok), open, open, skip)
  {
  }

  lemma NestsEntry(path: seq<byte>, n: Node, open: seq<seq<byte>>, skip: Skip)
    ensures Nests(Run([Entry(path, n)], true), open, if n.sub.Dir? && !skip(path) then open + [path] else open, skip)
  {
  }

  lemma NestsEnd(path: seq<byte>, open: seq<seq<byte>>, skip: Skip)
    ensures Nests(Run([DirEnd(path)], true), open + [path], open, skip)
  {
    assert (open + [path])[..|open|] == open;
  }

  /** Every directory that is entered is ended by exactly one marker, which carries its path, in the
      right nesting. */
  lemma {:induction false} MarkersNest(l: Listing, prefix: seq<byte>, skip: Skip, open: seq<seq<byte>>)
    ensures Nests(Walk(l, prefix, skip), open, open, skip)
    decreases l
  {
    hide Nests, OpenAfter;
    match l
    case End => NestsNothing(true, open, skip);
    case Fault => NestsNothing(false, open, skip);
    case More(n, rest) =>
      var path := prefix + n.name;
      MarkersNest(rest, prefix, skip, open);
      NestsEntry(path, n, open, skip);
      var inside := if n.sub.Dir? && !skip(path) then open + [path] else open;
      if n.sub.Dir? && !skip(path) {
        MarkersNest(n.sub.entries, path + SEPARATOR, skip, inside);
        NestsEnd(path, open, skip);
        NestsThen(Walk(n.sub.entries, path + SEPARATOR, skip), Run([DirEnd(path)], true), inside, inside, open, skip);
      } else {
        NestsNothing(true, open, skip);
        NestsNothing(false, open, skip);
      }
      NestsThen(Below(n, prefix, skip), Walk(rest, prefix, skip), inside, open, open, skip);
      var all := Below(n, prefix, skip).Then(Walk(rest, prefix, skip));
      NestsThen(Run([Entry(path, n)], true), all, open, inside, open, skip);
      assert all.After(Entry(path, n)) == Run([Entry(path, n)], true).Then(all);
  }

  /** Whether everything outside skipped directories can be read. */
  predicate Readable(l: Listing, prefix: seq<byte>, skip: Skip) {
    match l
    case End => true
    case Fault => false
    case More(n, rest) =>
      && (skip(prefix + n.name) ||
          (&& !n.sub.Unreadable?
           && (n.sub.Dir? ==> Readable(n.sub.entries, prefix + n.name + SEPARATOR, skip))))
      && Readable(rest, prefix, skip)
  }

  lemma {:induction false} EndsNormally(l: Listing, prefix: seq<byte>, skip: Skip)
    ensures Walk(l, prefix, skip).ok <==> Readable(l, prefix, skip)
    decreases l
  {
    if l.More? {
      EndsNormally(l.tail, prefix, skip);
      if l.head.sub.Dir? {
        EndsNormally(l.head.sub.entries, prefix + l.head.name + SEPARATOR, skip);
      }
    }
  }

  /** Trees that differ at most inside skipped directories, which may be unreadable in one of them. */
  predicate Alike(l: Listing, m: Listing, prefix: seq<byte>, skip: Skip) {
    match l
    case End => m.End?
    case Fault => m.Fault?
    case More(n, rest) =>
      && m.More? && m.head.name == n.name && Alike(rest, m.tail, prefix, skip)
      && (skip(prefix + n.name) ||
          match n.sub
          case Leaf => m.head.sub.Leaf?
          case Unreadable => m.head.sub.Unreadable?
          case Dir(es) => m.head.sub.Dir? && Alike(es, m.head.sub.entries, prefix + n.name + SEPARATOR, skip))
  }

  /** The paths of the entries among the events. */
  function Paths(es: seq<Event>): seq<seq<byte>> {
    if es == [] then [] else (match es[0] case DirEnd(_) => [] case Entry(path, _) => [path]) + Paths(es[1..])
  }

  lemma NoPaths()
    ensures Paths([]) == []
  {
  }

  lemma PathsStep(e: Event, es: seq<Event>)
    ensures Paths([e] + es) == (match e case DirEnd(_) => [] case Entry(path, _) => [path]) + Paths(es)
  {
    assert ([e] + es)[1..] == es;
  }

  lemma {:induction false} PathsJoin(a: seq<Event>, b: seq<Event>)
    ensures Paths(a + b) == Paths(a) + Paths(b)
    decreases |a|
  {
    if a == [] {
      assert a + b == b;
    } else {
      assert (a + b)[1..] == a[1..] + b;
      PathsJoin(a[1..], b);
    }
  }

  /** What is in a skipped directory makes no difference, nor whether it can be read at all. */
  lemma {:induction false} SkippedUnseen(l: Listing, m: Listing, prefix: seq<byte>, skip: Skip)
    requires Alike(l, m, prefix, skip)
    ensures Paths(Walk(l, prefix, skip).events) == Paths(Walk(m, prefix, skip).events)
    ensures Walk(l, prefix, skip).ok == Walk(m, prefix, skip).ok
    decreases l
  {
    if l.More? {
      var n, n' := l.head, m.head;
      var path := prefix + n.name;
      SkippedUnseen(l.tail, m.tail, prefix, skip);
      var below, below' := Below(n, prefix, skip), Below(n', prefix, skip);
      assert Paths(below.events) == Paths(below'.events) && below.ok == below'.ok by {
        if !skip(path) && n.sub.Dir? {
          var end := [DirEnd(path)];
          var inner := Walk(n.sub.entries, path + SEPARATOR, skip);
          var inner' := Walk(n'.sub.entries, path + SEPARATOR, skip);
          SkippedUnseen(n.sub.entries, n'.sub.entries, path + SEPARATOR, skip);
          PathsJoin(inner.events, end);
          PathsJoin(inner'.events, end);
        }
      }
      PathsJoin(below.events, Walk(l.tail, prefix, skip).events);
      PathsJoin(below'.events, Walk(m.tail, prefix, skip).events);
      PathsStep(Entry(path, n), below.Then(Walk(l.tail, prefix, skip)).events);
      PathsStep(Entry(path, n'), below'.Then(Walk(m.tail, prefix, skip)).events);
    }
  }

  // ----- the state machine

  datatype State = Descend | NameRemove | Failed | Finished | Ascend | NameAdd | GetEntry

  /** How many more states are passed through at most before a call returns. */
  function Rank(state: State): nat {
    match state
    case Descend => 3
    case NameRemove => 3
    case GetEntry => 2
    case NameAdd => 1
    case Ascend => 1
    case _ => 0
  }

  /** An open directory, and the size of its name for when it is left. */
  datatype Level = Level(dir: Listing, nameSize: nat)

  /** The path of a directory inside the given ones, up to and with the last slash. */
  function Prefix(names: seq<seq<byte>>): seq<byte> {
    if names == [] then [] else Prefix(names[..|names| - 1]) + names[|names| - 1] + SEPARATOR
  }

  /** There is a name for each open directory but the root. */
  ghost predicate Matched(stack: seq<Level>, names: seq<seq<byte>>) {
    && (if stack == [] then names == [] else |stack| == |names| + 1 && stack[0].nameSize == 0)
    && forall i :: 0 <= i < |names| ==> stack[i + 1].nameSize == |names[i]|
  }

  /** What is to come when the directory on top is read further. */
  ghost function Unwind(stack: seq<Level>, names: seq<seq<byte>>, skip: Skip): Run
    requires Matched(stack, names)
    decreases |stack|, 1
  {
    if stack == [] then Run([], false) else
    Walk(stack[|stack| - 1].dir, Prefix(names), skip).Then(Ascended(stack, names, skip))
  }

  /** What is to come when the directory on top has been read. */
  ghost function Ascended(stack: seq<Level>, names: seq<seq<byte>>, skip: Skip): Run
    requires Matched(stack, names) && stack != []
    decreases |stack|, 0
  {
    if |stack| == 1 then Run([], true) else
    var n := |names| - 1;
    Unwind(stack[..n + 1], names[..n], skip).After(DirEnd(Prefix(names[..n]) + names[n]))
  }

  ghost predicate Shape(state: State, stack: seq<Level>, names: seq<seq<byte>>, entry: Node, path: seq<byte>,
                        last: nat) {
    && Matched(stack, names)
    && match state
       case GetEntry => path == Prefix(names)
       case Ascend => path == Prefix(names) && stack != []
       case NameAdd => path == Prefix(names) && stack != []
       case NameRemove => last <= |path| && path[..|path| - last] == Prefix(names)
       case Descend => path == Prefix(names) + entry.name && last == |entry.name| && stack != [] && !entry.sub.Leaf?
       case Finished => path == [] && last == 0 && stack == []
       case Failed => true
  }

  ghost function Future(state: State, stack: seq<Level>, names: seq<seq<byte>>, entry: Node, skip: Skip): Run
    requires Matched(stack, names) && (state.Ascend? ==> stack != [])
             && (state.Descend? || state.NameAdd? ==> stack != [])
    decreases if state.NameAdd? then 1 else 0
  {
    match state
    case GetEntry => Unwind(stack, names, skip)
    case NameRemove => Unwind(stack, names, skip)
    case Ascend => Ascended(stack, names, skip)
    case Descend =>
      if skip(Prefix(names) + entry.name) then Unwind(stack, names, skip)
      else if entry.sub.Dir? then
        Unwind(stack + [Level(entry.sub.entries, |entry.name|)], names + [entry.name], skip)
      else Run([], false)
    case NameAdd =>
      var next := if entry.sub.Leaf? then NameRemove else Descend;
      Future(next, stack, names, entry, skip).After(Entry(Prefix(names) + entry.name, entry))
    case Finished => Run([], true)
    case Failed => Run([], false)
  }

  lemma EntryTaken(stack: seq<Level>, names: seq<seq<byte>>, skip: Skip)
    requires Matched(stack, names) && stack != [] && stack[|stack| - 1].dir.More?
    ensures var top := stack[|stack| - 1];
            var stack' := stack[|stack| - 1 := top.(dir := top.dir.tail)];
            Matched(stack', names) && Unwind(stack, names, skip) == Future(NameAdd, stack', names, top.dir.head, skip)
  {
    var i := |stack| - 1;
    var top, prefix := stack[i], Prefix(names);
    var n, rest := top.dir.head, top.dir.tail;
    var stack' := stack[i := top.(dir := rest)];
    AscendedSame(stack, stack', names, skip);
    var below, later := Below(n, prefix, skip), Unwind(stack', names, skip);
    ThenAssociates(below, Walk(rest, prefix, skip), Ascended(stack, names, skip));
    AfterThen(Entry(prefix + n.name, n), below.Then(Walk(rest, prefix, skip)), Ascended(stack, names, skip));
    assert Unwind(stack, names, skip) == below.Then(later).After(Entry(prefix + n.name, n));
    AfterEntry(stack', names, n, skip);
  }

  /** What is to come after an entry was shown: what is below it, then the rest. */
  lemma AfterEntry(stack: seq<Level>, names: seq<seq<byte>>, n: Node, skip: Skip)
    requires Matched(stack, names) && stack != []
    ensures Future(if n.sub.Leaf? then NameRemove else Descend, stack, names, n, skip) ==
            Below(n, Prefix(names), skip).Then(Unwind(stack, names, skip))
  {
    var later := Unwind(stack, names, skip);
    var path := Prefix(names) + n.name;
    if n.sub.Dir? && !skip(path) {
      var inner := Walk(n.sub.entries, path + SEPARATOR, skip);
      var stack2, names2 := stack + [Level(n.sub.entries, |n.name|)], names + [n.name];
      assert stack2[..|names2|] == stack && names2[..|names|] == names;
      assert Prefix(names2) == path + SEPARATOR;
      ThenAssociates(inner, Run([DirEnd(path)], true), later);
      assert Run([DirEnd(path)], true).Then(later) == later.After(DirEnd(path));
      assert Future(Descend, stack, names, n, skip) == inner.Then(Ascended(stack2, names2, skip));
    }
  }

  lemma ShownShape(stack: seq<Level>, names: seq<seq<byte>>, entry: Node, path: seq<byte>, last: nat, skip: Skip)
    requires Shape(NameAdd, stack, names, entry, path, last)
    ensures path == Prefix(names) && Matched(stack, names) && stack != []
    ensures var next := if entry.sub.Leaf? then NameRemove else Descend;
            && Shape(next, stack, names, entry, path + entry.name, |entry.name|)
            && Future(NameAdd, stack, names, entry, skip) ==
                 Future(next, stack, names, entry, skip).After(Entry(path + entry.name, entry))
  {
    hide Unwind, Ascended, Prefix;
    assert (path + entry.name)[..|path|] == path;
  }

  lemma AfterThen(e: Event, a: Run, b: Run)
    ensures a.After(e).Then(b) == a.Then(b).After(e)
  {
  }

  lemma AtRoot(root: Listing, skip: Skip)
    ensures Matched([Level(root, 0)], []) && Unwind([Level(root, 0)], [], skip) == Walk(root, [], skip)
  {
    var levels := [Level(root, 0)];
    assert Ascended(levels, [], skip) == Run([], true);
    assert Unwind(levels, [], skip) == Walk(root, [], skip).Then(Run([], true));
    assert Walk(root, [], skip).events + [] == Walk(root, [], skip).events;
  }

  lemma AscendedSame(stack: seq<Level>, stack': seq<Level>, names: seq<seq<byte>>, skip: Skip)
    requires Matched(stack, names) && stack != [] && |stack'| == |stack|
             && stack'[..|stack| - 1] == stack[..|stack| - 1]
    requires stack'[|stack| - 1].nameSize == stack[|stack| - 1].nameSize
    ensures Matched(stack', names) && Ascended(stack', names, skip) == Ascended(stack, names, skip)
  {
    assert forall i :: 0 <= i < |stack| - 1 ==>
           stack'[i] == stack'[..|stack| - 1][i] == stack[..|stack| - 1][i] == stack[i];
  }

  lemma ThenAssociates(a: Run, b: Run, c: Run)
    ensures a.Then(b).Then(c) == a.Then(b.Then(c))
  {
  }

  class Traversal {
    var state: State
    var stack: seq<Level>
    var entry: Node
    var dirEnd: bool
    var path: array<byte>
    var pathSize: nat      // with the terminating NUL
    var pathLastSize: nat  // of the last component

    ghost var names: seq<seq<byte>>  // of the open directories but the root

    ghost predicate BufferValid()
      reads this, path
    {
      1 <= pathSize <= path.Length && PATH_CAP <= path.Length && path[pathSize - 1] == 0
    }

    /** The path up to its terminator. */
    function Path(): seq<byte>
      requires 1 <= pathSize <= path.Length
      reads this, path
    {
      path[..pathSize - 1]
    }

    ghost predicate Valid()
      reads this, path
    {
      BufferValid() && Shape(state, stack, names, entry, Path(), pathLastSize)
    }

    /** What the caller has still to see. */
    ghost function ToCome(skip: Skip): Run
      requires Valid()
      reads this, path
    {
      Future(state, stack, names, entry, skip)
    }

    /** The caller has pruned the directory it was just shown, if it skips it. */
    ghost predicate Follows(skip: Skip)
      requires Valid()
      reads this, path
    {
      state == Descend ==> !skip(Path())
    }

    /** What a caller sees after a successful call. */
    function Seen(): Event
      requires 1 <= pathSize <= path.Length
      reads this, path
    {
      if dirEnd then DirEnd(Path()) else Entry(Path(), entry)
    }

    /** sqfs_traverse_open_inode, for a directory that can be opened */
    constructor (root: Listing, ghost skip: Skip)
      ensures Valid() && fresh(path) && Follows(skip)
      ensures ToCome(skip) == Walk(root, [], skip)
    {
      path := new byte[PATH_CAP](_ => 0);
      pathSize, pathLastSize := 1, 0;
      stack, names := [Level(root, 0)], [];
      entry, dirEnd := Node([], Leaf), false;
      state := NameRemove;
      new;
      AtRoot(root, skip);
    }

    /** sqfs_traverse_path_add */
    method PathAdd(s: seq<byte>)
      requires BufferValid()
      modifies this`path, this`pathSize, path
      ensures BufferValid() && (path == old(path) || fresh(path))
      ensures Path() == old(Path()) + s
    {
      var need := pathSize + |s|;
      if need > path.Length {
        var cap := path.Length;
        while need > cap
          invariant cap >= PATH_CAP
          decreases need - cap
        {
          cap := cap * 2;
        }
        var next := new byte[cap](i requires 0 <= i < cap reads this, path => if i < path.Length then path[i] else 0);
        path := next;
      }
      forall i | 0 <= i < |s| {
        path[pathSize - 1 + i] := s[i];
      }
      pathSize := need;
      path[pathSize - 1] := 0;
    }

    /** sqfs_traverse_path_remove */
    method PathRemove(size: nat)
      requires BufferValid()
      modifies this`pathSize, path
      ensures BufferValid()
      ensures Path() == if size <= |old(Path())| then old(Path())[..|old(Path())| - size] else []
    {
      pathSize := if pathSize > size then pathSize - size else 1;
      path[pathSize - 1] := 0;
    }

    /** sqfs_traverse_descend: into the current entry */
    method GoDown() returns (ok: bool)
      requires Valid() && state == Descend
      modifies this`stack, this`names, this`path, this`pathSize, path
      ensures path == old(path) || fresh(path)
      ensures BufferValid() && (ok <==> entry.sub.Dir?)
      ensures !ok ==> stack == old(stack) && names == old(names)
      ensures ok ==>
                && stack == old(stack) + [Level(entry.sub.entries, |entry.name|)]
                && names == old(names) + [entry.name]
      ensures ok ==> Path() == Prefix(names)
    {
      if entry.sub.Unreadable? {
        return false;
      }
      stack := stack + [Level(entry.sub.entries, |entry.name|)];
      ghost var was := names;
      names := names + [entry.name];
      assert names[..|was|] == was;
      PathAdd(SEPARATOR);
      ok := true;
    }

    /** sqfs_traverse_ascend */
    method GoUp()
      requires Valid() && state == Ascend
      modifies this`stack, this`names, this`pathSize, this`pathLastSize, path
      ensures BufferValid() && stack == old(stack)[..|old(stack)| - 1]
      ensures Matched(stack, names) && pathLastSize <= |Path()| && Path()[..|Path()| - pathLastSize] == Prefix(names)
      ensures stack == [] ==> Path() == [] && pathLastSize == 0 && names == []
      ensures stack != [] ==> old(names) != [] && names == old(names)[..|old(names)| - 1]
      ensures stack != [] ==> Path() == Prefix(names) + old(names)[|names|]
    {
      PathRemove(|SEPARATOR|);
      pathLastSize := stack[|stack| - 1].nameSize;
      stack := stack[..|stack| - 1];
      names := if names == [] then [] else names[..|names| - 1];
    }

    /** sqfs_traverse_next: the next event that is to come, if there is one. */
    method Next(ghost skip: Skip) returns (more: bool, ok: bool)
      requires Valid() && Follows(skip)
      modifies this, path
      ensures Valid() && (path == old(path) || fresh(path))
      ensures more <==> old(ToCome(skip)).events != []
      ensures more ==> ok && Seen() == old(ToCome(skip)).events[0]
      ensures more ==> ToCome(skip) == Run(old(ToCome(skip)).events[1..], old(ToCome(skip)).ok)
      ensures !more ==>
                && ok == old(ToCome(skip)).ok && ToCome(skip) == old(ToCome(skip))
                && (state == Finished || state == Failed)
      ensures more && !dirEnd ==> Path() == Prefix(names) + entry.name
      ensures more ==> (state == Descend <==> !dirEnd && !entry.sub.Leaf?) && (state == Descend || state == NameRemove)
    {
      hide Valid, BufferValid, ToCome, Seen, Path, Prefix, Follows;
      EndStates(skip);
      ok := true;
      ghost var was := ToCome(skip);
      while true
        invariant Valid() && ToCome(skip) == was && ok && (path == old(path) || fresh(path))
        invariant state == Descend ==> Follows(skip)
        invariant state == Finished ==> was == Run([], true)
        invariant state == Failed ==> was == Run([], false)
        decreases Rank(state)
      {
        match state
        case GetEntry =>
          ok := GetNext(skip);
          if !ok {
            return false, false;
          }
        case NameAdd =>
          ShowEntry(skip);
          return true, true;
        case NameRemove =>
          DropName(skip);
        case Descend =>
          ok := Enter(skip);
          if !ok {
            return false, false;
          }
        case Ascend =>
          more := Leave(skip);
          if more {
            return true, true;
          }
        case Finished =>
          return false, true;
        case Failed =>
          return false, false;
      }
    }

    method ShowEntry(ghost skip: Skip)
      requires Valid() && state == NameAdd
      modifies this, path
      ensures Valid() && (path == old(path) || fresh(path))
      ensures old(ToCome(skip)) == ToCome(skip).After(Seen())
      ensures !dirEnd && Path() == Prefix(names) + entry.name
      ensures state == if entry.sub.Leaf? then NameRemove else Descend
    {
      hide Shape, Future, Prefix;
      ShownShape(stack, names, entry, Path(), pathLastSize, skip);
      PathAdd(entry.name);
      pathLastSize := |entry.name|;
      state := if entry.sub.Leaf? then NameRemove else Descend;
      dirEnd := false;
    }

    method DropName(ghost skip: Skip)
      requires Valid() && state == NameRemove
      modifies this`state, this`pathSize, path
      ensures Valid() && ToCome(skip) == old(ToCome(skip)) && state == GetEntry
    {
      PathRemove(pathLastSize);
      state := GetEntry;
    }

    method Enter(ghost skip: Skip) returns (ok: bool)
      requires Valid() && state == Descend && Follows(skip)
      modifies this, path
      ensures Valid() && (path == old(path) || fresh(path))
      ensures ToCome(skip) == old(ToCome(skip)) && state == if ok then GetEntry else Failed
      ensures !ok ==> ToCome(skip) == Run([], false)
    {
      ok := GoDown();
      state := if ok then GetEntry else Failed;
    }

    method Leave(ghost skip: Skip) returns (more: bool)
      requires Valid() && state == Ascend
      modifies this, path
      ensures Valid() && path == old(path)
      ensures more ==> dirEnd && state == NameRemove && old(ToCome(skip)) == ToCome(skip).After(Seen())
      ensures !more ==> state == Finished && ToCome(skip) == old(ToCome(skip)) == Run([], true)
    {
      GoUp();
      more := |stack| > 0;
      if more {
        dirEnd := true;
        state := NameRemove;
      } else {
        state := Finished;
      }
    }

    lemma EndStates(skip: Skip)
      requires Valid()
      ensures 1 <= pathSize <= path.Length
      ensures state == Finished ==> ToCome(skip) == Run([], true)
      ensures state == Failed ==> ToCome(skip) == Run([], false)
    {
    }

    /** The next entry of the directory on top. */
    method GetNext(ghost skip: Skip) returns (ok: bool)
      requires Valid() && state == GetEntry
      modifies this`state, this`stack, this`entry
      ensures Valid() && ToCome(skip) == old(ToCome(skip))
      ensures if ok then state == NameAdd || state == Ascend else state == Failed && ToCome(skip) == Run([], false)
    {
      if stack == [] {
        state := Failed;
        return false;
      }
      var i := |stack| - 1;
      var level := stack[i];
      match level.dir
      case Fault =>
        state := Failed;
        ok := false;
      case End =>
        state := Ascend;
        ok := true;
      case More(head, tail) =>
        EntryTaken(stack, names, skip);
        entry := head;
        stack := stack[i := level.(dir := tail)];
        state := NameAdd;
        ok := true;
    }

    /** sqfs_traverse_prune: after a directory entry, what is in the directory and its end marker are
        left out, whether or not they could be read; at any other event there is nothing to leave out. */
    method Prune(ghost skip: Skip)
      requires Valid() && (state == Descend || state == NameRemove || state == Finished)
      modifies this`state
      ensures Valid() && state == NameRemove
      ensures old(state) != Finished ==> ToCome(skip) == Unwind(stack, names, skip)
      ensures old(state) == Descend ==>
                old(ToCome(skip)) == if skip(Path()) then ToCome(skip)
                  else Below(entry, Prefix(names), skip).Then(ToCome(skip))
      ensures old(state) == NameRemove ==> ToCome(skip) == old(ToCome(skip))
      ensures old(state) == Finished ==> ToCome(skip) == Run([], false)
    {
      if state == Descend {
        AfterEntry(stack, names, entry, skip);
      }
      state := NameRemove;
    }
  }

  /** A caller that prunes what it wants to skip. */
  method PruneSkipped(t: Traversal, skip: Skip)
    requires t.Valid() && (t.state == Descend || t.state == NameRemove)
    modifies t`state
    ensures t.Valid() && t.Follows(skip) && t.Seen() == old(t.Seen())
    ensures t.ToCome(skip) == old(t.ToCome(skip))
  {
    hide Traversal.ToCome, Prefix, Unwind;
    if t.state == Descend && skip(t.Path()) {
      t.Prune(skip);
    }
  }

  /** The loop of ls.c, one line for each entry, for a caller that prunes what it wants to skip. */
  method List(root: Listing, skip: Skip) returns (lines: seq<seq<byte>>, ok: bool)
    ensures lines == Paths(Walk(root, [], skip).events) && ok == Walk(root, [], skip).ok
  {
    hide Traversal.ToCome, Traversal.Path, Walk, Prefix, Shape, Unwind, Traversal.Follows, Paths;
    var t := new Traversal(root, skip);
    lines := [];
    NoPaths();
    var more;
    ghost var all := Walk(root, [], skip);
    more, ok := t.Next(skip);
    assert more ==> all.events == [t.Seen()] + t.ToCome(skip).events;
    while more
      invariant t.Valid() && fresh(t) && fresh(t.path)
      invariant more ==> t.state == Descend || t.state == NameRemove
      invariant more ==>
                  && lines + Paths([t.Seen()] + t.ToCome(skip).events) == Paths(all.events)
                  && t.ToCome(skip).ok == all.ok
      invariant !more ==> lines == Paths(all.events) && ok == all.ok
      decreases |t.ToCome(skip).events|, more
    {
      ghost var was, seen := lines, t.Seen();
      PathsStep(seen, t.ToCome(skip).events);
      if !t.dirEnd {
        lines := lines + [t.Path()];
      }
      PruneSkipped(t, skip);
      assert lines + Paths(t.ToCome(skip).events) == was + Paths([seen] + t.ToCome(skip).events);
      ghost var left := t.ToCome(skip).events;
      more, ok := t.Next(skip);
      assert more ==> left == [t.Seen()] + t.ToCome(skip).events;
    }
  }
}
