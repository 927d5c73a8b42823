/** The thread-safe block caches (cache_mt.c, fs.c, common.h) as a protocol.

Any number of threads look up blocks in hash-addressed slots, one mutex per slot; a collision
evicts. Blocks are reference counted and outlive eviction. One step below is one lock operation,
one atomic counter operation, one free, or one access to a slot under its lock; threads interleave
arbitrarily. Whatever would be undefined behaviour or a failed assertion in C raises `fault`. */
module SharedCache {
  import opened Bytes

  type Tid = nat
  type Handle = nat   // a thread's local variable pointing to a block
  type BlockId = nat  // an address returned by malloc

  /** `Index` holds block indexes, which are freed outright; the others hold counted blocks. */
  datatype CacheId = Md | Data | Frag | Index

  datatype Key = Key(cache: CacheId, pos: nat)
  datatype SlotId = SlotId(cache: CacheId, i: nat)

  datatype Content = Content(data: seq<byte>, diskSize: nat)

  /** `disk` is what reading the disk at a key, with a given data header, yields. */
  datatype Env = Env(hash: nat -> nat, count: CacheId -> nat, disk: (Key, nat) -> Option<Content>, headerOf: Key -> nat)
  {
    ghost predicate Valid() { forall c :: count(c) > 0 }

    function SlotFor(k: Key): SlotId
      requires Valid()
    {
      SlotId(k.cache, hash(k.pos) % count(k.cache))
    }

    /** What the image holds at a key: a data header is a function of its position. */
    function Truth(k: Key): Option<Content> { disk(k, headerOf(k)) }
  }

  datatype Slot = Slot(full: bool, idx: nat, lock: Option<Tid>, block: Option<BlockId>, diskSize: nat)

  /** A block on the heap, with the key it was read for. */
  datatype Block = Block(key: Key, content: Content, refs: int)

  datatype Request = Request(key: Key, header: nat, dest: Handle)

  datatype Pc =
    | Idle
    | Want(req: Request)                  // about to lock the slot
    | Look(req: Request)                  // holds the lock; about to examine the slot
    | Evict(req: Request, victim: BlockId) // dropped the last reference; about to free
    | Miss(req: Request)                  // about to read the disk
    | Filled(req: Request, loaded: BlockId) // entry filled in; about to mark it valid
    | Hit(req: Request)                   // about to take a reference for the caller
    | Release(req: Request)               // about to unlock
    | Dispose(victim: BlockId)            // a holder dropped the last reference; about to free

  /** `filling` is a block index being built: its slot stays locked while metadata is fetched. */
  datatype Thread = Thread(pc: Pc, filling: Option<Request>, held: map<Handle, BlockId>)

  /** A completed lookup: the contents seen and the on-disk size reported. */
  datatype Fetched = Fetched(key: Key, content: Content, diskSize: nat)

  datatype State = State(slots: map<SlotId, Slot>, threads: map<Tid, Thread>, blocks: map<BlockId, Block>,
                         freed: multiset<BlockId>, log: seq<Fetched>, fault: bool)

  datatype Action =
    | Begin(t: Tid, req: Request)
    | Acquire(t: Tid)
    | Examine(t: Tid)
    | Load(t: Tid, b: BlockId)
    | Fail(t: Tid, clear: bool)
    | Pause(t: Tid)
    | Resume(t: Tid)
    | MarkValid(t: Tid)
    | TakeRef(t: Tid)
    | Unlock(t: Tid)
    | Drop(t: Tid, h: Handle)
    | Touch(t: Tid, h: Handle)
    | Free(t: Tid)

  // ----- the steps

  predicate HasReq(pc: Pc) { !pc.Idle? && !pc.Dispose? }

  predicate Enabled(env: Env, s: State, a: Action)
    requires env.Valid()
  {
    && a.t in s.threads
    && var th := s.threads[a.t];
       && (HasReq(th.pc) ==> env.SlotFor(th.pc.req.key) in s.slots)
       && match a
          case Begin(_, req) =>
            // while an index is being built only metadata is fetched
            && th.pc.Idle? && req.dest !in th.held
            && req.header == env.headerOf(req.key)
            && (th.filling.Some? ==> req.key.cache == Md)
          case Acquire(_) => th.pc.Want? && s.slots[env.SlotFor(th.pc.req.key)].lock.None?
          case Examine(_) => th.pc.Look?
          case Load(_, b) =>
            && th.pc.Miss? && env.disk(th.pc.req.key, th.pc.req.header).Some?
            && b !in s.blocks && b !in s.freed
          case Fail(_, _) => th.pc.Miss?
          case Pause(_) => th.pc.Miss? && th.pc.req.key.cache == Index && th.filling.None?
          case Resume(_) => th.pc.Idle? && th.filling.Some?
          case MarkValid(_) => th.pc.Filled?
          case TakeRef(_) => th.pc.Hit?
          case Unlock(_) => th.pc.Release?
          case Drop(_, h) => th.pc.Idle? && h in th.held
          case Touch(_, h) => h in th.held
          case Free(_) => th.pc.Evict? || th.pc.Dispose?
  }

  /** t moves on without touching anything shared. */
  function Move(s: State, t: Tid, th: Thread): State { s.(threads := s.threads[t := th]) }

  function Faulted(s: State): State { s.(fault := true) }

  /** t, which must hold the lock, writes slot i and moves on. */
  function WriteSlot(s: State, t: Tid, th: Thread, i: SlotId, slot: Slot): State
    requires i in s.slots
  {
    State(s.slots[i := slot], s.threads[t := th], s.blocks, s.freed, s.log, s.fault || s.slots[i].lock != Some(t))
  }

  /** pthread_mutex_lock in sqfs_cache_get */
  function Lock(s: State, t: Tid, th: Thread, i: SlotId): State
    requires i in s.slots && HasReq(th.pc)
  {
    State(s.slots[i := s.slots[i].(lock := Some(t))], s.threads[t := th.(pc := Look(th.pc.req))], s.blocks, s.freed,
      s.log, s.fault)
  }

  /** sqfs_block_dispose up to the free: t drops a reference, and must free if it was the last. */
  function Deref(s: State, t: Tid, th: Thread, h: Handle): State
    requires h in th.held
  {
    var b := th.held[h];
    if b !in s.blocks then Faulted(s) else
    var left := s.blocks[b].refs - 1;
    State(s.slots, s.threads[t := th.(pc := if left == 0 then Dispose(b) else Idle, held := th.held - {h})],
          s.blocks[b := s.blocks[b].(refs := left)], s.freed, s.log, s.fault)
  }

  /** sqfs_cache_get once the lock is held, up to the return or the free of an evicted block. */
  function ExamineSlot(s: State, t: Tid, th: Thread, i: SlotId): State
    requires i in s.slots && th.pc.Look?
  {
    var req, slot := th.pc.req, s.slots[i];
    var emptied := slot.(full := false, idx := req.key.pos);
    if !slot.full then WriteSlot(s, t, th.(pc := Miss(req)), i, emptied)
    else if slot.idx == req.key.pos then WriteSlot(s, t, th.(pc := Hit(req)), i, slot)
    else if slot.block.None? then Faulted(s)
    else Collide(s, t, th, i, slot.block.value)
  }

  /** Collision: the slot is emptied and the cache's reference dropped; an index is freed outright. */
  function Collide(s: State, t: Tid, th: Thread, i: SlotId, b: BlockId): State
    requires i in s.slots && th.pc.Look?
  {
    if b !in s.blocks then Faulted(s) else
    var req := th.pc.req;
    var left := s.blocks[b].refs - 1;
    State(s.slots[i := s.slots[i].(full := false, idx := req.key.pos)],
          s.threads[t := th.(pc := if left == 0 || req.key.cache == Index then Evict(req, b) else Miss(req))],
          s.blocks[b := s.blocks[b].(refs := left)], s.freed, s.log, s.fault || s.slots[i].lock != Some(t))
  }

  /** A successful read from disk: a new block with one reference, stored in the entry. */
  function LoadBlock(s: State, t: Tid, th: Thread, i: SlotId, b: BlockId, content: Content): State
    requires i in s.slots && th.pc.Miss?
  {
    State(s.slots[i := s.slots[i].(block := Some(b), diskSize := content.diskSize)],
          s.threads[t := th.(pc := Filled(th.pc.req, b))],
          s.blocks[b := Block(th.pc.req.key, content, 1)],
          s.freed, s.log, s.fault || s.slots[i].lock != Some(t))
  }

  /** sqfs_block_ref for the caller; an index is only used until the lock is released. */
  function Reference(s: State, t: Tid, th: Thread, i: SlotId): State
    requires i in s.slots && th.pc.Hit?
  {
    var req, slot := th.pc.req, s.slots[i];
    if slot.block.None? || slot.block.value !in s.blocks then Faulted(s) else
    var b := slot.block.value;
    var index := req.key.cache == Index;
    State(s.slots,
          s.threads[t := if index then th.(pc := Release(req))
            else th.(pc := Release(req), held := th.held[req.dest := b])],
          if index then s.blocks else s.blocks[b := s.blocks[b].(refs := s.blocks[b].refs + 1)],
          s.freed, s.log + [Fetched(req.key, s.blocks[b].content, slot.diskSize)], s.fault || slot.lock != Some(t))
  }

  function FreeBlock(s: State, t: Tid, th: Thread): State
    requires th.pc.Evict? || th.pc.Dispose?
  {
    var b := th.pc.victim;
    State(s.slots, s.threads[t := th.(pc := if th.pc.Evict? then Miss(th.pc.req) else Idle)],
          s.blocks - {b}, s.freed + multiset{b}, s.log, s.fault || b !in s.blocks)
  }

  function Apply(env: Env, s: State, a: Action): State
    requires env.Valid() && Enabled(env, s, a)
  {
    var t := a.t;
    var th := s.threads[t];
    match a
    case Begin(_, req) => Move(s, t, th.(pc := Want(req)))
    case Acquire(_) => Lock(s, t, th, env.SlotFor(th.pc.req.key))
    case Examine(_) => ExamineSlot(s, t, th, env.SlotFor(th.pc.req.key))
    case Load(_, b) => LoadBlock(s, t, th, env.SlotFor(th.pc.req.key), b,
      env.disk(th.pc.req.key, th.pc.req.header).value)
    case Fail(_, clear) =>
      var i := env.SlotFor(th.pc.req.key);
      WriteSlot(s, t, th.(pc := Release(th.pc.req)), i, if clear then s.slots[i].(block := None) else s.slots[i])
    case Pause(_) => Move(s, t, th.(pc := Idle, filling := Some(th.pc.req)))
    case Resume(_) => Move(s, t, th.(pc := Miss(th.filling.value), filling := None))
    case MarkValid(_) =>
      var i := env.SlotFor(th.pc.req.key);
      if s.slots[i].full then Faulted(s) else WriteSlot(s, t, th.(pc := Hit(th.pc.req)), i, s.slots[i].(full := true))
    case TakeRef(_) => Reference(s, t, th, env.SlotFor(th.pc.req.key))
    case Unlock(_) =>
      var i := env.SlotFor(th.pc.req.key);
      WriteSlot(s, t, th.(pc := Idle), i, s.slots[i].(lock := None))
    case Drop(_, h) => Deref(s, t, th, h)
    case Touch(_, h) => if th.held[h] in s.blocks then s else Faulted(s)
    case Free(_) => FreeBlock(s, t, th)
  }

  function Initial(slots: set<SlotId>, threads: set<Tid>): State {
    State(map i | i in slots :: Slot(false, 0, None, None, 0), map t | t in threads :: Thread(Idle, None, map[]),
          map[], multiset{}, [], false)
  }

  ghost predicate AllSlots(env: Env, slots: set<SlotId>) {
    forall i :: i in slots <==> i.i < env.count(i.cache)
  }

  /** The state after a sequence of steps, if each is enabled in its turn. */
  function Run(env: Env, s: State, acts: seq<Action>): Option<State>
    requires env.Valid()
    decreases |acts|
  {
    if acts == [] then Some(s) else
    match Run(env, s, acts[..|acts| - 1])
    case None => None
    case Some(m) => if Enabled(env, m, acts[|acts| - 1]) then Some(Apply(env, m, acts[|acts| - 1])) else None
  }

  // ----- who owns a reference

  datatype Owner = InSlot(i: SlotId) | Filler(t: Tid) | Holder(t: Tid, h: Handle)

  predicate Owns(s: State, o: Owner) {
    match o
    case InSlot(i) => i in s.slots && s.slots[i].full && s.slots[i].block.Some?
    case Filler(t) => t in s.threads && s.threads[t].pc.Filled?
    case Holder(t, h) => t in s.threads && h in s.threads[t].held
  }

  function Target(s: State, o: Owner): BlockId
    requires Owns(s, o)
  {
    match o
    case InSlot(i) => s.slots[i].block.value
    case Filler(t) => s.threads[t].pc.loaded
    case Holder(t, h) => s.threads[t].held[h]
  }

  /** Every outstanding reference, and the block it refers to. */
  function Refs(s: State): (m: map<Owner, BlockId>)
    ensures forall o :: o in m <==> Owns(s, o)
    ensures forall o :: o in m ==> m[o] == Target(s, o)
  {
    var names :=
      (set i | i in s.slots && s.slots[i].full && s.slots[i].block.Some? :: InSlot(i))
      + (set t | t in s.threads && s.threads[t].pc.Filled? :: Filler(t))
      + (set t, h | t in s.threads && h in s.threads[t].held :: Holder(t, h));
    map o | o in names :: Target(s, o)
  }

  function Owners(m: map<Owner, BlockId>, b: BlockId): set<Owner> { set o | o in m && m[o] == b }

  lemma OwnersAdd(m: map<Owner, BlockId>, o: Owner, b: BlockId)
    requires o !in m
    ensures |Owners(m[o := b], b)| == |Owners(m, b)| + 1
    ensures forall c :: c != b ==> Owners(m[o := b], c) == Owners(m, c)
  {
    assert Owners(m[o := b], b) == Owners(m, b) + {o};
  }

  lemma OwnersDrop(m: map<Owner, BlockId>, o: Owner)
    requires o in m
    ensures |Owners(m - {o}, m[o])| == |Owners(m, m[o])| - 1
    ensures forall c :: c != m[o] ==> Owners(m - {o}, c) == Owners(m, c)
  {
    assert Owners(m, m[o]) == Owners(m - {o}, m[o]) + {o};
  }

  // ----- the invariant

  /** The slot a thread works on, locked unless it is still waiting for it. */
  function SlotOf(env: Env, req: Request): SlotId
    requires env.Valid()
  {
    env.SlotFor(req.key)
  }

  /** Slots a thread has locked. */
  predicate Locks(env: Env, th: Thread, i: SlotId)
    requires env.Valid()
  {
    || (HasReq(th.pc) && !th.pc.Want? && SlotOf(env, th.pc.req) == i)
    || (th.filling.Some? && SlotOf(env, th.filling.value) == i)
  }

  /** The mutexes t holds are those of its critical sections. It holds two only while it fetches
      metadata to build an index, so never two of one cache. */
  ghost predicate LocksOk(env: Env, s: State, t: Tid)
    requires env.Valid() && t in s.threads
  {
    var th := s.threads[t];
    && (forall i :: i in s.slots ==> (s.slots[i].lock == Some(t) <==> Locks(env, th, i)))
    && (th.filling.Some? ==> th.filling.value.key.cache == Index && (HasReq(th.pc) ==> th.pc.req.key.cache == Md))
  }

  /** What a thread inside its critical section knows about the slot. */
  ghost predicate SectionOk(env: Env, s: State, pc: Pc)
    requires env.Valid()
  {
    HasReq(pc) ==>
      && pc.req.header == env.headerOf(pc.req.key)
      && SlotOf(env, pc.req) in s.slots
      && var slot := s.slots[SlotOf(env, pc.req)];
         && (pc.Evict? || pc.Miss? || pc.Filled? ==> !slot.full && slot.idx == pc.req.key.pos)
         && (pc.Hit? ==> slot.full && slot.idx == pc.req.key.pos)
         && (pc.Filled? ==>
               && slot.block == Some(pc.loaded) && pc.loaded in s.blocks
               && s.blocks[pc.loaded].key == pc.req.key && slot.diskSize == s.blocks[pc.loaded].content.diskSize)
  }

  ghost predicate ThreadOk(env: Env, s: State, t: Tid)
    requires env.Valid() && t in s.threads
  {
    var th := s.threads[t];
    && SectionOk(env, s, th.pc)
    && (th.filling.Some? ==> SectionOk(env, s, Miss(th.filling.value)))
    // the variable a lookup will assign does not hold a reference that would be lost
    && (HasReq(th.pc) && !th.pc.Release? && th.pc.req.key.cache != Index ==> th.pc.req.dest !in th.held)
    // a pointer held is to a live, counted block
    && (forall h :: h in th.held ==> th.held[h] in s.blocks && s.blocks[th.held[h]].key.cache != Index)
  }

  /** A FULL slot holds a live block read for its key, and that key hashes to the slot. */
  ghost predicate SlotOk(env: Env, s: State, i: SlotId)
    requires env.Valid() && i in s.slots
  {
    s.slots[i].full ==>
      && s.slots[i].block.Some? && s.slots[i].block.value in s.blocks
      && var b := s.blocks[s.slots[i].block.value];
         && b.key == Key(i.cache, s.slots[i].idx)
         && env.SlotFor(b.key) == i
         && s.slots[i].diskSize == b.content.diskSize
  }

  ghost predicate BlockOk(env: Env, s: State, b: BlockId)
    requires b in s.blocks
  {
    env.Truth(s.blocks[b].key) == Some(s.blocks[b].content)
  }

  /** Every lookup so far returned what the disk holds, and advanced by its on-disk size. */
  ghost predicate LogOk(env: Env, s: State) {
    forall j :: 0 <= j < |s.log| ==>
      env.Truth(s.log[j].key) == Some(s.log[j].content) && s.log[j].diskSize == s.log[j].content.diskSize
  }

  predicate Frees(pc: Pc, b: BlockId) { (pc.Evict? || pc.Dispose?) && pc.victim == b }

  /** Reference counts are exact, and no block is freed twice. */
  ghost predicate CountsOk(s: State) {
    && (forall b :: b in s.blocks ==> s.blocks[b].refs == |Owners(Refs(s), b)|)
    && (forall b :: s.freed[b] <= 1)
    && (forall b :: b in s.blocks ==> b !in s.freed)
  }

  /** A block whose count is zero is in the hands of exactly one thread, about to free it. */
  ghost predicate ReapersOk(s: State) {
    && (forall b :: b in s.blocks && s.blocks[b].refs == 0 ==> Reaped(s, b))
    && (forall t, b :: t in s.threads && Frees(s.threads[t].pc, b) ==> b in s.blocks && s.blocks[b].refs == 0)
    && (forall t, u, b :: t in s.threads && u in s.threads && Frees(s.threads[t].pc, b) && Frees(s.threads[u].pc, b) ==>
         t == u)
  }

  ghost predicate Reaped(s: State, b: BlockId) { exists t :: t in s.threads && Frees(s.threads[t].pc, b) }

  ghost predicate HeapOk(s: State) { CountsOk(s) && ReapersOk(s) }

  ghost predicate Consistent(env: Env, s: State)
    requires env.Valid()
  {
    && !s.fault
    && (forall k: Key :: env.SlotFor(k) in s.slots)
    && (forall i :: i in s.slots && s.slots[i].lock.Some? ==> s.slots[i].lock.value in s.threads)
    && (forall t :: t in s.threads ==> LocksOk(env, s, t) && ThreadOk(env, s, t))
    && (forall i :: i in s.slots ==> SlotOk(env, s, i))
    && (forall b :: b in s.blocks ==> BlockOk(env, s, b))
    && LogOk(env, s)
  }

  ghost predicate Inv(env: Env, s: State)
    requires env.Valid()
  {
    Consistent(env, s) && HeapOk(s)
  }

  // ----- what a step by thread t leaves alone

  /** Only t moves; only slot i changes, and only t has anything to do with its lock; blocks keep
      their contents, and only one that t has in hand to free goes away. */
  ghost predicate Local(s: State, s': State, t: Tid, i: Option<SlotId>) {
    && t in s.threads
    && s'.threads.Keys == s.threads.Keys
    && (forall u :: u in s.threads && u != t ==> s'.threads[u] == s.threads[u])
    && s'.slots.Keys == s.slots.Keys
    && (forall j :: j in s.slots && Some(j) != i ==> s'.slots[j] == s.slots[j])
    && (i.Some? && i.value in s.slots ==>
          && (s.slots[i.value].lock == None || s.slots[i.value].lock == Some(t))
          && (s'.slots[i.value].lock == None || s'.slots[i.value].lock == Some(t)))
    && (forall b :: b in s.blocks && !Frees(s.threads[t].pc, b) ==> SameContent(s, s', b))
  }

  ghost predicate SameContent(s: State, s': State, b: BlockId)
    requires b in s.blocks
  {
    b in s'.blocks && s'.blocks[b].key == s.blocks[b].key && s'.blocks[b].content == s.blocks[b].content
  }

  /** A block somebody owns is not about to be freed. */
  lemma OwnedNotFreed(s: State, o: Owner, t: Tid)
    requires HeapOk(s) && o in Refs(s) && t in s.threads
    ensures !Frees(s.threads[t].pc, Refs(s)[o])
  {
    hide Refs;
    var b := Refs(s)[o];
    assert o in Owners(Refs(s), b);
    assert Owners(Refs(s), b) != {};
  }

  lemma RefsAre(s: State)
    ensures forall i :: i in s.slots && s.slots[i].full && s.slots[i].block.Some? ==>
              InSlot(i) in Refs(s) && Refs(s)[InSlot(i)] == s.slots[i].block.value
    ensures forall t :: t in s.threads && s.threads[t].pc.Filled? ==>
              Filler(t) in Refs(s) && Refs(s)[Filler(t)] == s.threads[t].pc.loaded
    ensures forall t, h :: t in s.threads && h in s.threads[t].held ==>
              Holder(t, h) in Refs(s) && Refs(s)[Holder(t, h)] == s.threads[t].held[h]
  {
    hide Refs;
    assert forall i :: Owns(s, InSlot(i)) <==> i in s.slots && s.slots[i].full && s.slots[i].block.Some?;
    assert forall t :: Owns(s, Filler(t)) <==> t in s.threads && s.threads[t].pc.Filled?;
    assert forall t, h :: Owns(s, Holder(t, h)) <==> t in s.threads && h in s.threads[t].held;
  }

  lemma OwnBlocksStay(s: State, s': State, t: Tid, i: Option<SlotId>, u: Tid)
    requires Local(s, s', t, i) && HeapOk(s) && u in s.threads
    ensures s.threads[u].pc.Filled? && s.threads[u].pc.loaded in s.blocks ==> SameContent(s, s', s.threads[u].pc.loaded)
    ensures forall h :: h in s.threads[u].held && s.threads[u].held[h] in s.blocks ==>
            SameContent(s, s', s.threads[u].held[h])
  {
    hide HeapOk, Owners, Refs, SameContent;
    RefsAre(s);
    if s.threads[u].pc.Filled? {
      OwnedNotFreed(s, Filler(u), t);
    }
    forall h | h in s.threads[u].held
      ensures !Frees(s.threads[t].pc, s.threads[u].held[h])
    {
      OwnedNotFreed(s, Holder(u, h), t);
    }
  }

  lemma OtherLocks(env: Env, s: State, s': State, t: Tid, i: Option<SlotId>, u: Tid)
    requires env.Valid() && Local(s, s', t, i)
    requires u in s.threads && u != t && LocksOk(env, s, u)
    ensures LocksOk(env, s', u)
  {
    hide SameContent, Frees;
  }

  lemma OtherThread(env: Env, s: State, s': State, t: Tid, i: Option<SlotId>, u: Tid)
    requires env.Valid() && Local(s, s', t, i) && HeapOk(s)
    requires u in s.threads && u != t && LocksOk(env, s, u) && ThreadOk(env, s, u)
    ensures LocksOk(env, s', u) && ThreadOk(env, s', u)
  {
    OwnBlocksStay(s, s', t, i, u);
    OtherLocks(env, s, s', t, i, u);
    var th := s.threads[u];
    if HasReq(th.pc) && !th.pc.Want? {
      assert Locks(env, th, SlotOf(env, th.pc.req));
    }
    if th.filling.Some? {
      assert Locks(env, th, SlotOf(env, th.filling.value));
      OtherSection(env, s, s', t, i, u, Miss(th.filling.value));
    }
    OtherSection(env, s, s', t, i, u, th.pc);
    hide HeapOk, Owners, Refs, Frees, LocksOk, Locks, SectionOk;
  }

  /** What a thread knows about a slot it has locked stays true. */
  lemma OtherSection(env: Env, s: State, s': State, t: Tid, i: Option<SlotId>, u: Tid, pc: Pc)
    requires env.Valid() && Local(s, s', t, i) && u != t && SectionOk(env, s, pc)
    requires HasReq(pc) && !pc.Want? ==> s.slots[SlotOf(env, pc.req)].lock == Some(u)
    requires pc.Filled? && pc.loaded in s.blocks ==> SameContent(s, s', pc.loaded)
    ensures SectionOk(env, s', pc)
  {
    hide Frees;
  }

  lemma OtherSlot(env: Env, s: State, s': State, t: Tid, i: Option<SlotId>, j: SlotId)
    requires env.Valid() && Local(s, s', t, i) && HeapOk(s)
    requires j in s.slots && Some(j) != i && SlotOk(env, s, j)
    ensures SlotOk(env, s', j)
  {
    hide HeapOk, Owners, Refs;
    RefsAre(s);
    if s.slots[j].full {
      OwnedNotFreed(s, InSlot(j), t);
    }
  }

  // ----- what it does itself

  /** The part of the invariant a step by t that works on slot i must restore itself. */
  ghost predicate Restored(env: Env, s: State, s': State, t: Tid, i: Option<SlotId>)
    requires env.Valid()
  {
    && Local(s, s', t, i)
    && !s'.fault
    && LocksOk(env, s', t) && ThreadOk(env, s', t)
    && (i.Some? ==> i.value in s'.slots && SlotOk(env, s', i.value))
    && (forall b :: b in s'.blocks ==> (b in s.blocks && SameContent(s, s', b)) || BlockOk(env, s', b))
    && LogOk(env, s')
  }

  lemma Restores(env: Env, s: State, s': State, t: Tid, i: Option<SlotId>)
    requires env.Valid() && Consistent(env, s) && HeapOk(s)
    requires Restored(env, s, s', t, i)
    ensures Consistent(env, s')
  {
    hide HeapOk, Refs, Owners, LocksOk, ThreadOk, SlotOk, LogOk;
    forall u | u in s'.threads
      ensures LocksOk(env, s', u) && ThreadOk(env, s', u)
    {
      if u != t {
        OtherThread(env, s, s', t, i, u);
      }
    }
    forall j | j in s'.slots
      ensures SlotOk(env, s', j)
    {
      if Some(j) != i {
        OtherSlot(env, s, s', t, i, j);
      }
    }
  }

  /** What thread t knows on its own when it takes a step. */
  ghost predicate Ready(env: Env, s: State, a: Action)
    requires env.Valid()
  {
    && Enabled(env, s, a)
    && !s.fault && LogOk(env, s)
    && LocksOk(env, s, a.t) && ThreadOk(env, s, a.t)
    && var pc := s.threads[a.t].pc;
       HasReq(pc) ==>
         && SlotOk(env, s, SlotOf(env, pc.req))
         && (pc.Hit? ==> BlockOk(env, s, s.slots[SlotOf(env, pc.req)].block.value))
  }

  /** The slot a step works on, for the steps between lock and unlock. */
  function Works(env: Env, s: State, a: Action): Option<SlotId>
    requires env.Valid() && Enabled(env, s, a)
  {
    if a.Acquire? || a.Examine? || a.Load? || a.Fail? || a.MarkValid? || a.TakeRef? || a.Unlock?
    then Some(SlotOf(env, s.threads[a.t].pc.req)) else None
  }

  lemma BeginStep(env: Env, s: State, a: Action)
    requires a.Begin? && env.Valid() && Ready(env, s, a)
    requires SlotOf(env, a.req) in s.slots
    ensures Restored(env, s, Apply(env, s, a), a.t, Works(env, s, a))
  {
  }

  lemma AcquireStep(env: Env, s: State, a: Action)
    requires a.Acquire? && env.Valid() && Ready(env, s, a)
    ensures Restored(env, s, Apply(env, s, a), a.t, Works(env, s, a))
  {
  }

  /** Between lock and unlock a step keeps the locks the thread holds. */
  lemma LocksKept(env: Env, s: State, a: Action)
    requires (a.Load? || a.TakeRef? || a.MarkValid?) && env.Valid() && Ready(env, s, a)
    ensures s.slots[SlotOf(env, s.threads[a.t].pc.req)].lock == Some(a.t)
    ensures a.t in Apply(env, s, a).threads && LocksOk(env, Apply(env, s, a), a.t)
  {
    hide LogOk;
  }

  lemma LoadStep(env: Env, s: State, a: Action)
    requires a.Load? && env.Valid() && Ready(env, s, a)
    ensures Restored(env, s, Apply(env, s, a), a.t, Works(env, s, a))
  {
    LocksKept(env, s, a);
    hide LocksOk, Locks;
  }

  lemma FailStep(env: Env, s: State, a: Action)
    requires a.Fail? && env.Valid() && Ready(env, s, a)
    ensures Restored(env, s, Apply(env, s, a), a.t, Works(env, s, a))
  {
  }

  lemma PauseStep(env: Env, s: State, a: Action)
    requires a.Pause? && env.Valid() && Ready(env, s, a)
    ensures Restored(env, s, Apply(env, s, a), a.t, Works(env, s, a))
  {
  }

  lemma ResumeStep(env: Env, s: State, a: Action)
    requires a.Resume? && env.Valid() && Ready(env, s, a)
    ensures Restored(env, s, Apply(env, s, a), a.t, Works(env, s, a))
  {
  }

  lemma MarkValidStep(env: Env, s: State, a: Action)
    requires a.MarkValid? && env.Valid() && Ready(env, s, a)
    ensures Restored(env, s, Apply(env, s, a), a.t, Works(env, s, a))
  {
    LocksKept(env, s, a);
    hide LocksOk, Locks;
  }

  lemma TakeRefStep(env: Env, s: State, a: Action)
    requires a.TakeRef? && env.Valid() && Ready(env, s, a)
    ensures Restored(env, s, Apply(env, s, a), a.t, Works(env, s, a))
  {
    LocksKept(env, s, a);
    hide LocksOk, Locks;
  }

  lemma UnlockStep(env: Env, s: State, a: Action)
    requires a.Unlock? && env.Valid() && Ready(env, s, a)
    ensures Restored(env, s, Apply(env, s, a), a.t, Works(env, s, a))
  {
  }

  lemma DropStep(env: Env, s: State, a: Action)
    requires a.Drop? && env.Valid() && Ready(env, s, a)
    ensures Restored(env, s, Apply(env, s, a), a.t, Works(env, s, a))
  {
  }

  lemma TouchStep(env: Env, s: State, a: Action)
    requires a.Touch? && env.Valid() && Ready(env, s, a)
    ensures Restored(env, s, Apply(env, s, a), a.t, Works(env, s, a))
  {
  }

  lemma ExamineStep(env: Env, s: State, a: Action)
    requires a.Examine? && env.Valid() && Ready(env, s, a)
    ensures Restored(env, s, Apply(env, s, a), a.t, Works(env, s, a))
  {
    var th := s.threads[a.t];
    var i := SlotOf(env, th.pc.req);
    var slot := s.slots[i];
    if slot.full && slot.idx != th.pc.req.key.pos {
      CollideStep(env, s, a);
      hide Restored, Ready, ThreadOk, LocksOk, SlotOk, Collide, WriteSlot;
    } else {
      LookStep(env, s, a);
      hide Restored, Ready, ThreadOk, LocksOk, SlotOk, Collide, WriteSlot;
    }
  }

  lemma LookStep(env: Env, s: State, a: Action)
    requires a.Examine? && env.Valid() && Ready(env, s, a)
    requires var req := s.threads[a.t].pc.req;
             s.slots[SlotOf(env, req)].full ==> s.slots[SlotOf(env, req)].idx == req.key.pos
    ensures Restored(env, s, Apply(env, s, a), a.t, Works(env, s, a))
  {
    hide Collide;
  }

  lemma CollideStep(env: Env, s: State, a: Action)
    requires a.Examine? && env.Valid() && Ready(env, s, a)
    requires var req := s.threads[a.t].pc.req;
             s.slots[SlotOf(env, req)].full && s.slots[SlotOf(env, req)].idx != req.key.pos
    ensures
      var th := s.threads[a.t];
      var i := SlotOf(env, th.pc.req);
      && s.slots[i].block.Some?
      && Restored(env, s, Collide(s, a.t, th, i, s.slots[i].block.value), a.t, Some(i))
  {
  }

  lemma FreeIsLocal(s: State, t: Tid, th: Thread)
    requires t in s.threads && th == s.threads[t] && (th.pc.Evict? || th.pc.Dispose?)
    ensures Local(s, FreeBlock(s, t, th), t, None)
  {
  }

  lemma FreeStep(env: Env, s: State, a: Action)
    requires a.Free? && env.Valid() && Ready(env, s, a) && HeapOk(s)
    ensures Restored(env, s, Apply(env, s, a), a.t, Works(env, s, a))
  {
    var th := s.threads[a.t];
    assert Frees(th.pc, th.pc.victim);
    assert th.pc.victim in s.blocks;
    FreeIsLocal(s, a.t, th);
    OwnBlocksStay(s, FreeBlock(s, a.t, th), a.t, None, a.t);
    hide HeapOk;
    FreeKeepsThread(env, s, a.t, th);
    hide Local, Refs, Owners, LocksOk, ThreadOk, SlotOk;
  }

  lemma FreeKeepsThread(env: Env, s: State, t: Tid, th: Thread)
    requires env.Valid() && t in s.threads && th == s.threads[t] && (th.pc.Evict? || th.pc.Dispose?)
    requires LocksOk(env, s, t) && ThreadOk(env, s, t)
    requires forall h :: h in th.held && th.held[h] in s.blocks ==> SameContent(s, FreeBlock(s, t, th), th.held[h])
    ensures t in FreeBlock(s, t, th).threads
    ensures LocksOk(env, FreeBlock(s, t, th), t) && ThreadOk(env, FreeBlock(s, t, th), t)
  {
  }

  lemma StepRestores(env: Env, s: State, a: Action)
    requires env.Valid() && Enabled(env, s, a) && Consistent(env, s) && HeapOk(s)
    ensures Restored(env, s, Apply(env, s, a), a.t, Works(env, s, a))
  {
    ReadyInv(env, s, a);
    hide Restored, Ready, Apply, Consistent, HeapOk, Works, Enabled;
    match a
    case Begin(_, req) => SlotsExist(env, s, req); BeginStep(env, s, a);
    case Acquire(_) => AcquireStep(env, s, a);
    case Examine(_) => ExamineStep(env, s, a);
    case Load(_, _) => LoadStep(env, s, a);
    case Fail(_, _) => FailStep(env, s, a);
    case Pause(_) => PauseStep(env, s, a);
    case Resume(_) => ResumeStep(env, s, a);
    case MarkValid(_) => MarkValidStep(env, s, a);
    case TakeRef(_) => TakeRefStep(env, s, a);
    case Unlock(_) => UnlockStep(env, s, a);
    case Drop(_, _) => DropStep(env, s, a);
    case Touch(_, _) => TouchStep(env, s, a);
    case Free(_) => FreeStep(env, s, a);
  }

  lemma SlotsExist(env: Env, s: State, req: Request)
    requires env.Valid() && Consistent(env, s)
    ensures SlotOf(env, req) in s.slots
  {
  }

  lemma ReadyInv(env: Env, s: State, a: Action)
    requires env.Valid() && Enabled(env, s, a) && Consistent(env, s)
    ensures Ready(env, s, a)
  {
    hide LogOk, BlockOk, LocksOk;
  }

  // ----- reference counts

  lemma RefsLive(env: Env, s: State)
    requires env.Valid() && Consistent(env, s)
    ensures forall o :: o in Refs(s) ==> Refs(s)[o] in s.blocks
  {
    forall o | o in Refs(s)
      ensures Refs(s)[o] in s.blocks
    {
      match o
      case InSlot(i) => assert SlotOk(env, s, i);
      case Filler(t) => assert ThreadOk(env, s, t);
      case Holder(t, h) => assert ThreadOk(env, s, t);
    }
  }

  /** Threads free the same blocks as before, and counts of zero did not change. */
  lemma ReapersSame(s: State, s': State)
    requires ReapersOk(s) && s'.threads.Keys == s.threads.Keys
    requires forall t, b :: t in s.threads ==> (Frees(s'.threads[t].pc, b) <==> Frees(s.threads[t].pc, b))
    requires forall b :: b in s.blocks && s.blocks[b].refs == 0 ==> b in s'.blocks && s'.blocks[b].refs == 0
    requires forall b :: b in s'.blocks && s'.blocks[b].refs == 0 ==> b in s.blocks && s.blocks[b].refs == 0
    ensures ReapersOk(s')
  {
    hide Frees;
    forall b | b in s'.blocks && s'.blocks[b].refs == 0
      ensures Reaped(s', b)
    {
      assert Reaped(s, b);
      var t :| t in s.threads && Frees(s.threads[t].pc, b);
      assert Frees(s'.threads[t].pc, b);
    }
  }

  /** Thread t took over freeing b, whose count fell to zero, if it did. */
  lemma ReapersGain(s: State, s': State, t: Tid, b: BlockId)
    requires ReapersOk(s) && s'.threads.Keys == s.threads.Keys && t in s.threads
    requires s'.blocks.Keys == s.blocks.Keys && b in s.blocks && s.blocks[b].refs > 0
    requires forall c :: c in s.blocks && c != b ==> s'.blocks[c].refs == s.blocks[c].refs
    requires forall u, c :: u in s.threads && u != t ==> (Frees(s'.threads[u].pc, c) <==> Frees(s.threads[u].pc, c))
    requires forall c :: !Frees(s.threads[t].pc, c)
    requires forall c :: Frees(s'.threads[t].pc, c) <==> c == b && s'.blocks[c].refs == 0
    ensures ReapersOk(s')
  {
    hide Frees, Reaped, ReapersOk;
    forall c | c in s'.blocks && s'.blocks[c].refs == 0
      ensures Reaped(s', c)
    {
      GainReaped(s, s', t, b, c);
    }
    forall u, c | u in s'.threads && Frees(s'.threads[u].pc, c)
      ensures c in s'.blocks && s'.blocks[c].refs == 0
      ensures u != t ==> c != b
    {
      if u != t {
        DeadReaped(s, u, c);
      }
    }
    forall u, v, c | u in s'.threads && v in s'.threads && Frees(s'.threads[u].pc, c) && Frees(s'.threads[v].pc, c)
      ensures u == v
    {
      if u != t && v != t {
        OneReaper(s, u, v, c);
      }
    }
    ReapersAre(s');
  }

  lemma ReapersAre(s: State)
    requires forall b :: b in s.blocks && s.blocks[b].refs == 0 ==> Reaped(s, b)
    requires forall t, b :: t in s.threads && Frees(s.threads[t].pc, b) ==> b in s.blocks && s.blocks[b].refs == 0
    requires forall t, u, b ::
               t in s.threads && u in s.threads && Frees(s.threads[t].pc, b) && Frees(s.threads[u].pc, b) ==> t == u
    ensures ReapersOk(s)
  {
    hide Frees, Reaped;
  }

  lemma DeadReaped(s: State, t: Tid, b: BlockId)
    requires ReapersOk(s) && t in s.threads && Frees(s.threads[t].pc, b)
    ensures b in s.blocks && s.blocks[b].refs == 0
  {
    hide Frees, Reaped;
  }

  lemma OneReaper(s: State, t: Tid, u: Tid, b: BlockId)
    requires ReapersOk(s) && t in s.threads && u in s.threads
    requires Frees(s.threads[t].pc, b) && Frees(s.threads[u].pc, b)
    ensures t == u
  {
    hide Frees, Reaped;
  }

  lemma GainReaped(s: State, s': State, t: Tid, b: BlockId, c: BlockId)
    requires ReapersOk(s) && s'.threads.Keys == s.threads.Keys && t in s.threads
    requires c in s'.blocks && s'.blocks[c].refs == 0
    requires if c == b then Frees(s'.threads[t].pc, c) else c in s.blocks && s.blocks[c].refs == 0
    requires forall u :: u in s.threads && u != t ==> (Frees(s'.threads[u].pc, c) <==> Frees(s.threads[u].pc, c))
    requires !Frees(s.threads[t].pc, c)
    ensures Reaped(s', c)
  {
    hide Frees;
    if c == b {
      assert Frees(s'.threads[t].pc, c);
    } else {
      assert Reaped(s, c);
      var u :| u in s.threads && Frees(s.threads[u].pc, c);
      assert Frees(s'.threads[u].pc, c);
    }
  }

  lemma ReapersFreed(s: State, t: Tid, th: Thread)
    requires ReapersOk(s) && t in s.threads && th == s.threads[t] && (th.pc.Evict? || th.pc.Dispose?)
    ensures ReapersOk(FreeBlock(s, t, th))
    ensures th.pc.victim in s.blocks
  {
    var s' := FreeBlock(s, t, th);
    assert Frees(th.pc, th.pc.victim);
    assert forall c :: !Frees(s'.threads[t].pc, c);
    hide Frees;
    forall c | c in s'.blocks && s'.blocks[c].refs == 0
      ensures Reaped(s', c)
    {
      assert Reaped(s, c);
      var u :| u in s.threads && Frees(s.threads[u].pc, c);
      assert Frees(s'.threads[u].pc, c);
    }
  }

  lemma CountsSame(s: State, s': State)
    requires CountsOk(s) && Refs(s') == Refs(s) && s'.freed == s.freed && s'.blocks == s.blocks
    ensures CountsOk(s')
  {
    hide Refs, Owners;
  }

  /** A new reference to block b, which is new or live. */
  lemma CountsGain(s: State, s': State, o: Owner, b: BlockId)
    requires CountsOk(s) && o !in Refs(s) && Refs(s') == Refs(s)[o := b]
    requires s'.freed == s.freed && s'.blocks.Keys == s.blocks.Keys + {b} && b !in s.freed
    requires forall c :: c in s.blocks && c != b ==> s'.blocks[c].refs == s.blocks[c].refs
    requires s'.blocks[b].refs == (if b in s.blocks then s.blocks[b].refs else 0) + 1
    requires b !in s.blocks ==> Owners(Refs(s), b) == {}
    ensures CountsOk(s')
  {
    hide Refs;
    OwnersAdd(Refs(s), o, b);
    hide Owners;
  }

  /** Reference o is given up. */
  lemma CountsLose(s: State, s': State, o: Owner)
    requires CountsOk(s) && o in Refs(s) && Refs(s') == Refs(s) - {o}
    requires s'.freed == s.freed && s'.blocks.Keys == s.blocks.Keys && Refs(s)[o] in s.blocks
    requires forall c :: c in s.blocks ==> s'.blocks[c].refs == s.blocks[c].refs - if c == Refs(s)[o] then 1 else 0
    ensures CountsOk(s') && s.blocks[Refs(s)[o]].refs > 0
  {
    hide Refs;
    OwnersDrop(Refs(s), o);
    hide Owners;
  }

  lemma CountsFreed(s: State, t: Tid, th: Thread)
    requires CountsOk(s) && t in s.threads && th == s.threads[t] && (th.pc.Evict? || th.pc.Dispose?)
    requires Refs(FreeBlock(s, t, th)) == Refs(s) && th.pc.victim in s.blocks
    ensures CountsOk(FreeBlock(s, t, th))
  {
    hide Refs, Owners;
  }

  /** A cached block index belongs to its slot alone, so evicting it may free it at once. */
  lemma IndexSoleOwner(env: Env, s: State, i: SlotId)
    requires env.Valid() && Consistent(env, s) && CountsOk(s)
    requires i in s.slots && s.slots[i].full && i.cache == Index && s.slots[i].block.Some?
    ensures s.slots[i].block.value in s.blocks && s.blocks[s.slots[i].block.value].refs == 1
  {
    var b := s.slots[i].block.value;
    assert SlotOk(env, s, i);
    forall o | o in Owners(Refs(s), b)
      ensures o == InSlot(i)
    {
      IndexOwner(env, s, i, o);
    }
    RefsAre(s);
    hide Refs;
    assert Owners(Refs(s), b) == {InSlot(i)};
  }

  lemma IndexOwner(env: Env, s: State, i: SlotId, o: Owner)
    requires env.Valid() && Consistent(env, s)
    requires i in s.slots && s.slots[i].full && i.cache == Index && s.slots[i].block.Some?
    requires o in Refs(s) && Refs(s)[o] == s.slots[i].block.value
    ensures o == InSlot(i)
  {
    hide LocksOk, BlockOk, LogOk;
    assert SlotOk(env, s, i);
    assert o.InSlot? ==> SlotOk(env, s, o.i);
    assert !o.InSlot? ==> ThreadOk(env, s, o.t);
  }

  lemma RefsMove(s: State, t: Tid, th: Thread)
    requires t in s.threads && th.held == s.threads[t].held && !th.pc.Filled? && !s.threads[t].pc.Filled?
    ensures Refs(Move(s, t, th)) == Refs(s)
  {
    hide Refs;
  }

  lemma RefsLock(s: State, t: Tid, th: Thread, i: SlotId)
    requires t in s.threads && th == s.threads[t] && i in s.slots && HasReq(th.pc) && !th.pc.Filled?
    ensures Refs(Lock(s, t, th, i)) == Refs(s)
  {
    hide Refs;
  }

  lemma RefsWrite(s: State, t: Tid, th: Thread, i: SlotId, slot: Slot)
    requires t in s.threads && th.held == s.threads[t].held && !th.pc.Filled? && !s.threads[t].pc.Filled?
    requires i in s.slots && slot.full == s.slots[i].full && (slot.full ==> slot.block == s.slots[i].block)
    ensures Refs(WriteSlot(s, t, th, i, slot)) == Refs(s)
  {
    hide Refs;
  }

  lemma RefsValid(s: State, t: Tid, th: Thread, i: SlotId)
    requires t in s.threads && th.held == s.threads[t].held && !th.pc.Filled? && s.threads[t].pc.Filled?
    requires i in s.slots && !s.slots[i].full && s.slots[i].block == Some(s.threads[t].pc.loaded)
    ensures Filler(t) in Refs(s) && InSlot(i) !in Refs(s)
    ensures Refs(WriteSlot(s, t, th, i, s.slots[i].(full := true))) ==
            (Refs(s) - {Filler(t)})[InSlot(i) := Refs(s)[Filler(t)]]
  {
    hide Refs;
  }

  lemma RefsCollide(s: State, t: Tid, th: Thread, i: SlotId, b: BlockId)
    requires t in s.threads && th == s.threads[t] && th.pc.Look?
    requires i in s.slots && s.slots[i].full && s.slots[i].block == Some(b) && b in s.blocks
    ensures InSlot(i) in Refs(s) && Refs(s)[InSlot(i)] == b
    ensures Refs(Collide(s, t, th, i, b)) == Refs(s) - {InSlot(i)}
  {
    hide Refs;
  }

  lemma RefsLoad(s: State, t: Tid, th: Thread, i: SlotId, b: BlockId, content: Content)
    requires t in s.threads && th == s.threads[t] && th.pc.Miss? && i in s.slots && !s.slots[i].full
    ensures Filler(t) !in Refs(s)
    ensures Refs(LoadBlock(s, t, th, i, b, content)) == Refs(s)[Filler(t) := b]
  {
    hide Refs;
  }

  lemma RefsReference(s: State, t: Tid, th: Thread, i: SlotId)
    requires t in s.threads && th == s.threads[t] && th.pc.Hit? && i in s.slots
    requires s.slots[i].block.Some? && s.slots[i].block.value in s.blocks
    requires th.pc.req.key.cache != Index ==> th.pc.req.dest !in th.held
    ensures th.pc.req.key.cache == Index ==> Refs(Reference(s, t, th, i)) == Refs(s)
    ensures th.pc.req.key.cache != Index ==>
              && Holder(t, th.pc.req.dest) !in Refs(s)
              && Refs(Reference(s, t, th, i)) == Refs(s)[Holder(t, th.pc.req.dest) := s.slots[i].block.value]
  {
    hide Refs;
  }

  lemma RefsDeref(s: State, t: Tid, th: Thread, h: Handle)
    requires t in s.threads && th == s.threads[t] && h in th.held && th.held[h] in s.blocks && th.pc.Idle?
    ensures Holder(t, h) in Refs(s) && Refs(s)[Holder(t, h)] == th.held[h]
    ensures Refs(Deref(s, t, th, h)) == Refs(s) - {Holder(t, h)}
  {
    hide Refs;
  }

  lemma RefsFree(s: State, t: Tid, th: Thread)
    requires t in s.threads && th == s.threads[t] && (th.pc.Evict? || th.pc.Dispose?)
    ensures Refs(FreeBlock(s, t, th)) == Refs(s)
  {
    hide Refs;
  }

  lemma HeapStill(s: State, s': State, t: Tid)
    requires HeapOk(s) && t in s.threads && s'.threads.Keys == s.threads.Keys
    requires forall u :: u in s.threads && u != t ==> s'.threads[u] == s.threads[u]
    requires s'.blocks == s.blocks && s'.freed == s.freed && Refs(s') == Refs(s)
    requires forall b :: Frees(s.threads[t].pc, b) <==> Frees(s'.threads[t].pc, b)
    ensures HeapOk(s')
  {
    hide Refs, Owners, Frees, CountsOk, ReapersOk;
    CountsSame(s, s');
    ReapersSame(s, s');
  }

  /** Steps that leave all references alone. */
  lemma QuietStep(env: Env, s: State, a: Action)
    requires env.Valid() && Ready(env, s, a) && HeapOk(s)
    requires a.Begin? || a.Acquire? || a.Pause? || a.Resume? || a.Touch?
    ensures HeapOk(Apply(env, s, a))
  {
    hide HeapOk, Refs, LogOk, LocksOk, SlotOk;
    var th := s.threads[a.t];
    if a.Acquire? {
      RefsLock(s, a.t, th, SlotOf(env, th.pc.req));
      HeapStill(s, Apply(env, s, a), a.t);
    } else if !a.Touch? {
      RefsMove(s, a.t, Apply(env, s, a).threads[a.t]);
      HeapStill(s, Apply(env, s, a), a.t);
    }
  }

  lemma QuietSlotStep(env: Env, s: State, a: Action)
    requires env.Valid() && Ready(env, s, a) && HeapOk(s)
    requires a.Fail? || a.Unlock? || (a.Examine? && var req := s.threads[a.t].pc.req;
               s.slots[SlotOf(env, req)].full ==> s.slots[SlotOf(env, req)].idx == req.key.pos)
    ensures HeapOk(Apply(env, s, a))
  {
    hide HeapOk, Refs, LogOk, LocksOk, Collide;
    var th := s.threads[a.t];
    var i := SlotOf(env, th.pc.req);
    var s' := Apply(env, s, a);
    RefsWrite(s, a.t, s'.threads[a.t], i, s'.slots[i]);
    HeapStill(s, s', a.t);
  }

  lemma FreedLater(env: Env, s: State, t: Tid, i: SlotId, b: BlockId)
    requires env.Valid() && Consistent(env, s) && CountsOk(s) && t in s.threads
    requires s.threads[t].pc.Look? && i == SlotOf(env, s.threads[t].pc.req)
    requires i in s.slots && s.slots[i].full && s.slots[i].block == Some(b) && b in s.blocks
    ensures s.threads[t].pc.req.key.cache == Index ==> s.blocks[b].refs == 1
  {
    if i.cache == Index {
      IndexSoleOwner(env, s, i);
    }
  }

  lemma CollideHeap(env: Env, s: State, t: Tid, i: SlotId, b: BlockId)
    requires env.Valid() && Consistent(env, s) && HeapOk(s) && t in s.threads
    requires s.threads[t].pc.Look? && i == SlotOf(env, s.threads[t].pc.req)
    requires i in s.slots && s.slots[i].full && s.slots[i].block == Some(b) && b in s.blocks
    ensures HeapOk(Collide(s, t, s.threads[t], i, b))
  {
    hide Refs, Owners, CountsOk, ReapersOk, Consistent;
    var s' := Collide(s, t, s.threads[t], i, b);
    RefsCollide(s, t, s.threads[t], i, b);
    FreedLater(env, s, t, i, b);
    CountsLose(s, s', InSlot(i));
    ReapersGain(s, s', t, b);
  }

  lemma NoOwner(env: Env, s: State, b: BlockId)
    requires env.Valid() && Consistent(env, s) && b !in s.blocks
    ensures Owners(Refs(s), b) == {}
  {
    RefsLive(env, s);
    hide Refs, Consistent;
  }

  lemma LoadHeap(env: Env, s: State, t: Tid, i: SlotId, b: BlockId, content: Content)
    requires env.Valid() && Consistent(env, s) && HeapOk(s) && t in s.threads
    requires s.threads[t].pc.Miss? && i in s.slots && !s.slots[i].full && b !in s.blocks && b !in s.freed
    ensures HeapOk(LoadBlock(s, t, s.threads[t], i, b, content))
  {
    hide Refs, CountsOk, ReapersOk, Consistent;
    var s' := LoadBlock(s, t, s.threads[t], i, b, content);
    NoOwner(env, s, b);
    RefsLoad(s, t, s.threads[t], i, b, content);
    CountsGain(s, s', Filler(t), b);
    ReapersSame(s, s');
  }

  lemma ValidHeap(s: State, t: Tid, th: Thread, i: SlotId)
    requires HeapOk(s) && t in s.threads && th.held == s.threads[t].held && th.pc.Hit? && s.threads[t].pc.Filled?
    requires i in s.slots && !s.slots[i].full && s.slots[i].block == Some(s.threads[t].pc.loaded)
    ensures HeapOk(WriteSlot(s, t, th, i, s.slots[i].(full := true)))
  {
    var s' := WriteSlot(s, t, th, i, s.slots[i].(full := true));
    RefsValid(s, t, th, i);
    hide Refs, Owners, CountsOk, ReapersOk;
    CountsHand(s, s', Filler(t), InSlot(i));
    ReapersSame(s, s');
  }

  /** A reference changes hands. */
  lemma CountsHand(s: State, s': State, o: Owner, o': Owner)
    requires CountsOk(s) && o in Refs(s) && o' !in Refs(s) && Refs(s') == (Refs(s) - {o})[o' := Refs(s)[o]]
    requires s'.freed == s.freed && s'.blocks == s.blocks
    ensures CountsOk(s')
  {
    hide Refs;
    OwnersDrop(Refs(s), o);
    OwnersAdd(Refs(s) - {o}, o', Refs(s)[o]);
    hide Owners;
  }

  lemma ReferenceHeap(s: State, t: Tid, i: SlotId)
    requires HeapOk(s) && t in s.threads && s.threads[t].pc.Hit? && i in s.slots && s.slots[i].full
    requires s.slots[i].block.Some? && s.slots[i].block.value in s.blocks
    requires s.threads[t].pc.req.key.cache != Index ==> s.threads[t].pc.req.dest !in s.threads[t].held
    ensures HeapOk(Reference(s, t, s.threads[t], i))
  {
    var b := s.slots[i].block.value;
    var s' := Reference(s, t, s.threads[t], i);
    RefsReference(s, t, s.threads[t], i);
    RefsAre(s);
    hide Refs;
    if s.threads[t].pc.req.key.cache == Index {
      HeapStill(s, s', t);
    } else {
      OwnedCounts(s, InSlot(i));
      BlockNotFreed(s, b);
      hide Owners, CountsOk, ReapersOk;
      CountsGain(s, s', Holder(t, s.threads[t].pc.req.dest), b);
      ReapersSame(s, s');
    }
  }

  lemma BlockNotFreed(s: State, b: BlockId)
    requires CountsOk(s) && b in s.blocks
    ensures b !in s.freed
  {
    hide Refs, Owners;
  }

  lemma OwnedCounts(s: State, o: Owner)
    requires CountsOk(s) && o in Refs(s) && Refs(s)[o] in s.blocks
    ensures s.blocks[Refs(s)[o]].refs > 0
  {
    hide Refs;
    OwnersDrop(Refs(s), o);
    hide Owners;
  }

  lemma DerefHeap(s: State, t: Tid, h: Handle)
    requires HeapOk(s) && t in s.threads && s.threads[t].pc.Idle?
    requires h in s.threads[t].held && s.threads[t].held[h] in s.blocks
    ensures HeapOk(Deref(s, t, s.threads[t], h))
  {
    hide Refs, Owners, CountsOk, ReapersOk;
    var s' := Deref(s, t, s.threads[t], h);
    RefsDeref(s, t, s.threads[t], h);
    CountsLose(s, s', Holder(t, h));
    ReapersGain(s, s', t, s.threads[t].held[h]);
  }

  lemma FreeHeap(s: State, t: Tid)
    requires HeapOk(s) && t in s.threads && (s.threads[t].pc.Evict? || s.threads[t].pc.Dispose?)
    ensures HeapOk(FreeBlock(s, t, s.threads[t]))
  {
    RefsFree(s, t, s.threads[t]);
    hide Refs, Owners, CountsOk, ReapersOk;
    ReapersFreed(s, t, s.threads[t]);
    CountsFreed(s, t, s.threads[t]);
  }

  lemma StepHeap(env: Env, s: State, a: Action)
    requires env.Valid() && Enabled(env, s, a) && Consistent(env, s) && HeapOk(s)
    ensures HeapOk(Apply(env, s, a))
  {
    ReadyInv(env, s, a);
    hide Consistent, HeapOk, LogOk, LocksOk, BlockOk, Refs;
    var t := a.t;
    var th := s.threads[t];
    match a
    case Begin(_, _) => QuietStep(env, s, a);
    case Acquire(_) => QuietStep(env, s, a);
    case Pause(_) => QuietStep(env, s, a);
    case Resume(_) => QuietStep(env, s, a);
    case Touch(_, _) => QuietStep(env, s, a);
    case Fail(_, _) => QuietSlotStep(env, s, a);
    case Unlock(_) => QuietSlotStep(env, s, a);
    case Examine(_) =>
      var i := SlotOf(env, th.pc.req);
      if s.slots[i].full && s.slots[i].idx != th.pc.req.key.pos {
        CollideHeap(env, s, t, i, s.slots[i].block.value);
      } else {
        QuietSlotStep(env, s, a);
      }
    case Load(_, b) => LoadHeap(env, s, t, SlotOf(env, th.pc.req), b, env.disk(th.pc.req.key, th.pc.req.header).value);
    case MarkValid(_) => ValidHeap(s, t, th.(pc := Hit(th.pc.req)), SlotOf(env, th.pc.req));
    case TakeRef(_) => ReferenceHeap(s, t, SlotOf(env, th.pc.req));
    case Drop(_, h) => DerefHeap(s, t, h);
    case Free(_) => FreeHeap(s, t);
  }

  lemma InvStep(env: Env, s: State, a: Action)
    requires env.Valid() && Enabled(env, s, a) && Inv(env, s)
    ensures Inv(env, Apply(env, s, a))
  {
    hide Consistent, HeapOk, Apply, Restored, Enabled;
    StepRestores(env, s, a);
    StepHeap(env, s, a);
    Restores(env, s, Apply(env, s, a), a.t, Works(env, s, a));
  }

  // ----- all runs

  lemma InitialInv(env: Env, slots: set<SlotId>, threads: set<Tid>)
    requires env.Valid() && AllSlots(env, slots)
    ensures Inv(env, Initial(slots, threads))
  {
    hide Refs;
    var s := Initial(slots, threads);
    forall k: Key
      ensures env.SlotFor(k) in s.slots
    {
      assert env.SlotFor(k).i < env.count(k.cache);
    }
  }

  /** In every reachable state of any number of threads nothing has gone wrong: no freed block was
      touched, referenced, released or freed again, no slot was accessed without its lock, no
      assertion failed; counts are exact, and every lookup agreed with the disk. */
  lemma {:induction false} RunsAreSafe(env: Env, slots: set<SlotId>, threads: set<Tid>, acts: seq<Action>)
    requires env.Valid() && AllSlots(env, slots)
    requires Run(env, Initial(slots, threads), acts).Some?
    ensures Inv(env, Run(env, Initial(slots, threads), acts).value)
    decreases |acts|
  {
    hide Inv, Apply, Enabled, Initial;
    var s := Initial(slots, threads);
    if acts == [] {
      InitialInv(env, slots, threads);
    } else {
      var m := Run(env, s, acts[..|acts| - 1]).value;
      RunsAreSafe(env, slots, threads, acts[..|acts| - 1]);
      InvStep(env, m, acts[|acts| - 1]);
    }
  }

  /** s is reached by some interleaving of the threads' steps. */
  ghost predicate Reached(env: Env, slots: set<SlotId>, threads: set<Tid>, acts: seq<Action>, s: State)
    requires env.Valid()
  {
    AllSlots(env, slots) && Run(env, Initial(slots, threads), acts) == Some(s)
  }

  lemma ReachedInv(env: Env, slots: set<SlotId>, threads: set<Tid>, acts: seq<Action>, s: State)
    requires env.Valid() && Reached(env, slots, threads, acts, s)
    ensures Inv(env, s)
  {
    hide Inv;
    RunsAreSafe(env, slots, threads, acts);
  }

  /** What that means for memory in every reachable state: whoever holds a pointer may use it, every
      live block is counted exactly, and nothing is freed twice or while it is live. */
  lemma MemorySafe(env: Env, slots: set<SlotId>, threads: set<Tid>, acts: seq<Action>, s: State)
    requires env.Valid() && Reached(env, slots, threads, acts, s)
    ensures !s.fault
    ensures forall t, h :: t in s.threads && h in s.threads[t].held ==> s.threads[t].held[h] in s.blocks
    ensures forall b :: b in s.blocks ==> s.blocks[b].refs == |Owners(Refs(s), b)| && b !in s.freed
    ensures forall b :: s.freed[b] <= 1
  {
    hide Refs, Owners, LogOk, LocksOk, SlotOk, BlockOk, Reached;
    ReachedInv(env, slots, threads, acts, s);
    forall t, h | t in s.threads && h in s.threads[t].held
      ensures s.threads[t].held[h] in s.blocks
    {
      assert ThreadOk(env, s, t);
    }
  }

  /** Every lookup that completed, in any interleaving, returned what a fresh read of the disk gives
      and moved the position by that block's size on disk. */
  lemma LookupsAreTransparent(env: Env, slots: set<SlotId>, threads: set<Tid>, acts: seq<Action>, j: nat)
    requires env.Valid() && AllSlots(env, slots)
    requires Run(env, Initial(slots, threads), acts).Some?
    requires j < |Run(env, Initial(slots, threads), acts).value.log|
    ensures var e := Run(env, Initial(slots, threads), acts).value.log[j];
            env.disk(e.key, env.headerOf(e.key)) == Some(e.content) && e.diskSize == e.content.diskSize
  {
    RunsAreSafe(env, slots, threads, acts);
    hide Run, Initial, HeapOk, Refs, Owners;
  }

  /** In every reachable state a FULL slot's key hashes to that slot, and its live block is what the
      disk holds there. */
  lemma FullSlotsAreTrue(env: Env, slots: set<SlotId>, threads: set<Tid>, acts: seq<Action>, i: SlotId)
    requires env.Valid() && AllSlots(env, slots)
    requires Run(env, Initial(slots, threads), acts).Some?
    requires var s := Run(env, Initial(slots, threads), acts).value; i in s.slots && s.slots[i].full
    ensures var s := Run(env, Initial(slots, threads), acts).value;
            var key := Key(i.cache, s.slots[i].idx);
            && env.SlotFor(key) == i && i.i == env.hash(key.pos) % env.count(i.cache)
            && s.slots[i].block.Some? && s.slots[i].block.value in s.blocks
            && env.Truth(key) == Some(s.blocks[s.slots[i].block.value].content)
            && s.slots[i].diskSize == s.blocks[s.slots[i].block.value].content.diskSize
  {
    hide Run, Initial, AllSlots, HeapOk;
    RunsAreSafe(env, slots, threads, acts);
    var s := Run(env, Initial(slots, threads), acts).value;
    assert SlotOk(env, s, i) && BlockOk(env, s, s.slots[i].block.value);
  }

  predicate Finished(th: Thread) { th.pc.Idle? && th.filling.None? }

  /** The next step of the lookup a thread is in the middle of. A read from disk succeeds if the disk
      holds the block, and then puts it at the unused address `unused`. */
  function NextAction(env: Env, t: Tid, th: Thread, unused: BlockId): Action
    requires !Finished(th)
  {
    match th.pc
    case Idle => Resume(t)
    case Want(_) => Acquire(t)
    case Look(_) => Examine(t)
    case Evict(_, _) => Free(t)
    case Miss(req) => if env.disk(req.key, req.header).Some? then Load(t, unused) else Fail(t, true)
    case Filled(_, _) => MarkValid(t)
    case Hit(_) => TakeRef(t)
    case Release(_) => Unlock(t)
    case Dispose(_) => Free(t)
  }

  /** Some address is unused. */
  lemma Unused(s: State) returns (b: BlockId)
    ensures b !in s.blocks && b !in s.freed
  {
    var used := s.blocks.Keys + (set c | c in s.freed);
    b := Above(used);
  }

  lemma Above(used: set<nat>) returns (b: nat)
    ensures b !in used && forall c :: c in used ==> c < b
  {
    if used == {} {
      b := 0;
    } else {
      var c :| c in used;
      var d := Above(used - {c});
      b := if c < d then d else c + 1;
      assert used == (used - {c}) + {c};
    }
  }

  /** Thread u is in the middle of a lookup and can take its next step. */
  ghost predicate CanStep(env: Env, s: State, u: Tid, b: BlockId)
    requires env.Valid()
  {
    u in s.threads && !Finished(s.threads[u]) && Enabled(env, s, NextAction(env, u, s.threads[u], b))
  }

  lemma OnlyWaitingBlocks(env: Env, s: State, t: Tid, b: BlockId)
    requires env.Valid() && Consistent(env, s) && t in s.threads && !Finished(s.threads[t]) && !s.threads[t].pc.Want?
    requires b !in s.blocks && b !in s.freed
    ensures CanStep(env, s, t, b)
  {
    hide LogOk, LocksOk, ThreadOk, SlotOk, BlockOk;
  }

  /** Whoever holds the lock another thread waits for. */
  lemma HolderOf(env: Env, s: State, t: Tid) returns (u: Tid)
    requires env.Valid() && Consistent(env, s) && t in s.threads && s.threads[t].pc.Want?
    requires !Enabled(env, s, Acquire(t))
    ensures u in s.threads && Locks(env, s.threads[u], SlotOf(env, s.threads[t].pc.req))
    ensures !Finished(s.threads[u])
    ensures s.threads[u].filling.Some? ==> s.threads[u].filling.value.key.cache == Index
    ensures s.threads[u].pc.Want? ==> s.threads[u].filling.Some? && s.threads[u].pc.req.key.cache == Md
    ensures s.threads[u].pc.Want? ==> s.threads[t].pc.req.key.cache == Index
  {
    hide LogOk, ThreadOk, SlotOk, BlockOk;
    var i := SlotOf(env, s.threads[t].pc.req);
    assert i in s.slots;
    u := s.slots[i].lock.value;
    assert LocksOk(env, s, u);
  }

  /** No deadlock: in every reachable state, while any thread is in the middle of a lookup, some such
      thread can take its next step, a successful read where the disk holds the block. Locks are
      ordered: an index slot may be held while waiting for a metadata slot, never the reverse, and
      never two slots of one cache. */
  lemma NoDeadlock(env: Env, slots: set<SlotId>, threads: set<Tid>, acts: seq<Action>, s: State, t: Tid)
    requires env.Valid() && Reached(env, slots, threads, acts, s) && t in s.threads && !Finished(s.threads[t])
    ensures exists u, b :: CanStep(env, s, u, b)
  {
    hide Consistent, HeapOk, Enabled, Locks, Reached;
    ReachedInv(env, slots, threads, acts, s);
    var b := Unused(s);
    if !CanStep(env, s, t, b) {
      if !s.threads[t].pc.Want? {
        OnlyWaitingBlocks(env, s, t, b);
      }
      var u := HolderOf(env, s, t);
      if !CanStep(env, s, u, b) {
        if !s.threads[u].pc.Want? {
          OnlyWaitingBlocks(env, s, u, b);
        }
        var v := HolderOf(env, s, u);
        OnlyWaitingBlocks(env, s, v, b);
      }
    }
  }

  /** Nothing leaks: once no thread is in a lookup or holds a pointer, what is live is exactly what
      FULL slots hold, one reference each, so destroying the caches frees everything. */
  lemma QuiescentHeap(env: Env, slots: set<SlotId>, threads: set<Tid>, acts: seq<Action>, s: State, b: BlockId)
    requires env.Valid() && Reached(env, slots, threads, acts, s) && b in s.blocks
    requires forall t :: t in s.threads ==> Finished(s.threads[t]) && s.threads[t].held == map[]
    ensures exists i :: i in s.slots && s.slots[i].full && s.slots[i].block == Some(b)
    ensures s.blocks[b].refs == 1
  {
    ReachedInv(env, slots, threads, acts, s);
    hide Reached;
    var i := SomeSlot(s, b);
    hide HeapOk, LogOk, LocksOk, ThreadOk, BlockOk;
    assert CountsOk(s) by { HeapParts(s); }
    forall o | o in Owners(Refs(s), b)
      ensures o == InSlot(i)
    {
      assert o.InSlot?;
      assert SlotOk(env, s, o.i) && SlotOk(env, s, i);
    }
    hide Refs;
    assert Owners(Refs(s), b) == {InSlot(i)};
  }

  lemma HeapParts(s: State)
    requires HeapOk(s)
    ensures CountsOk(s) && ReapersOk(s)
  {
  }

  lemma SomeSlot(s: State, b: BlockId) returns (i: SlotId)
    requires HeapOk(s) && b in s.blocks
    requires forall t :: t in s.threads ==> Finished(s.threads[t]) && s.threads[t].held == map[]
    ensures i in s.slots && s.slots[i].full && s.slots[i].block == Some(b)
    ensures InSlot(i) in Owners(Refs(s), b)
  {
    hide Refs;
    assert !Reaped(s, b);
    assert Owners(Refs(s), b) != {};
    var o :| o in Owners(Refs(s), b);
    assert Owns(s, o) && o.InSlot?;
    i := o.i;
  }
}
