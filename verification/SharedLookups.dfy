/** What callers of the shared caches get (cache_mt.c, fs.c), told from the steps the threads took: a
lookup answers the request it was begun for, and a pointer held is to the block asked for. */
module SharedLookups {
  import opened Bytes
  import opened SharedCache

  // ----- what the steps so far say

  /** The lookups t has begun and not finished, innermost last. */
  function Open(acts: seq<Action>, t: Tid): seq<Request> {
    if acts == [] then [] else
    var n := |acts| - 1;
    OpenNext(Open(acts[..n], t), acts[n], t)
  }

  function OpenNext(open: seq<Request>, a: Action, t: Tid): seq<Request> {
    match a
    case Begin(u, req) => if u == t then open + [req] else open
    case Unlock(u) => if u == t && open != [] then open[..|open| - 1] else open
    case _ => open
  }

  /** The keys of the lookups that have been answered, in the order of the answers. */
  function Asked(acts: seq<Action>): seq<Key> {
    if acts == [] then [] else
    var n := |acts| - 1;
    Asked(acts[..n]) + Answering(acts[..n], acts[n])
  }

  function Answering(before: seq<Action>, a: Action): seq<Key> {
    if !a.TakeRef? then [] else
    var open := Open(before, a.t);
    if open == [] then [] else [open[|open| - 1].key]
  }

  /** For each variable of t that holds a pointer, the key it was looked up with. Block indexes are used
      only during the lookup. */
  function Given(acts: seq<Action>, t: Tid): map<Handle, Key> {
    if acts == [] then map[] else
    var n := |acts| - 1;
    GivenNext(Given(acts[..n], t), Open(acts[..n], t), acts[n], t)
  }

  function GivenNext(given: map<Handle, Key>, open: seq<Request>, a: Action, t: Tid): map<Handle, Key> {
    match a
    case TakeRef(u) =>
      if u != t || open == [] || open[|open| - 1].key.cache == Index then given
      else given[open[|open| - 1].dest := open[|open| - 1].key]
    case Drop(u, h) => if u == t then given - {h} else given
    case _ => given
  }

  // ----- requests are kept

  function InHand(th: Thread): seq<Request> {
    (if th.filling.Some? then [th.filling.value] else []) + (if HasReq(th.pc) then [th.pc.req] else [])
  }

  /** No step loses, changes or invents a request. */
  lemma RequestsStep(env: Env, s: State, a: Action, t: Tid)
    requires env.Valid() && Enabled(env, s, a) && t in s.threads
    ensures t in Apply(env, s, a).threads
    ensures InHand(Apply(env, s, a).threads[t]) == OpenNext(InHand(s.threads[t]), a, t)
  {
    if a.Examine? {
      ExamineRequests(env, s, a, t);
    } else if a.Begin? || a.Acquire? || a.Pause? || a.Resume? || a.Drop? || a.Touch? || a.Free? {
      LightRequests(env, s, a, t);
    } else if a.TakeRef? || a.Unlock? {
      EndRequests(env, s, a, t);
    } else {
      SlotRequests(env, s, a, t);
    }
  }

  lemma EndRequests(env: Env, s: State, a: Action, t: Tid)
    requires env.Valid() && Enabled(env, s, a) && t in s.threads && (a.TakeRef? || a.Unlock?)
    ensures t in Apply(env, s, a).threads
    ensures InHand(Apply(env, s, a).threads[t]) == OpenNext(InHand(s.threads[t]), a, t)
  {
  }

  lemma ExamineRequests(env: Env, s: State, a: Action, t: Tid)
    requires env.Valid() && Enabled(env, s, a) && t in s.threads && a.Examine?
    ensures t in Apply(env, s, a).threads
    ensures InHand(Apply(env, s, a).threads[t]) == OpenNext(InHand(s.threads[t]), a, t)
  {
  }

  lemma LightRequests(env: Env, s: State, a: Action, t: Tid)
    requires env.Valid() && Enabled(env, s, a) && t in s.threads
    requires a.Begin? || a.Acquire? || a.Pause? || a.Resume? || a.Drop? || a.Touch? || a.Free?
    ensures t in Apply(env, s, a).threads
    ensures InHand(Apply(env, s, a).threads[t]) == OpenNext(InHand(s.threads[t]), a, t)
  {
  }

  lemma SlotRequests(env: Env, s: State, a: Action, t: Tid)
    requires env.Valid() && Enabled(env, s, a) && t in s.threads
    requires a.Load? || a.Fail? || a.MarkValid?
    ensures t in Apply(env, s, a).threads
    ensures InHand(Apply(env, s, a).threads[t]) == OpenNext(InHand(s.threads[t]), a, t)
  {
  }

  lemma ThreadsStay(env: Env, s: State, a: Action)
    requires env.Valid() && Enabled(env, s, a)
    ensures Apply(env, s, a).threads.Keys == s.threads.Keys
  {
  }

  /** In every run the request a thread works on is the one it began last and has not finished. */
  lemma {:induction false} RequestsAreKept(env: Env, slots: set<SlotId>, threads: set<Tid>, acts: seq<Action>, s: State,
                                           t: Tid)
    requires env.Valid() && Reached(env, slots, threads, acts, s) && t in s.threads
    ensures InHand(s.threads[t]) == Open(acts, t)
    decreases |acts|
  {
    hide Apply, Enabled, InHand, OpenNext;
    if acts == [] {
      assert InHand(s.threads[t]) == [] by { StartsIdle(slots, threads, t); }
    } else {
      var m, a := Before(env, slots, threads, acts, s);
      ThreadsStay(env, m, a);
      RequestsAreKept(env, slots, threads, acts[..|acts| - 1], m, t);
      RequestsStep(env, m, a, t);
    }
  }

  lemma StartsIdle(slots: set<SlotId>, threads: set<Tid>, t: Tid)
    requires t in threads
    ensures InHand(Initial(slots, threads).threads[t]) == []
  {
  }

  /** The state before the last step. */
  lemma Before(env: Env, slots: set<SlotId>, threads: set<Tid>, acts: seq<Action>, s: State)
    returns (m: State, a: Action)
    requires env.Valid() && Reached(env, slots, threads, acts, s) && acts != []
    ensures a == acts[|acts| - 1] && Reached(env, slots, threads, acts[..|acts| - 1], m)
    ensures Enabled(env, m, a) && s == Apply(env, m, a)
  {
    hide Enabled, Apply, Initial, AllSlots;
    a := acts[|acts| - 1];
    m := Run(env, Initial(slots, threads), acts[..|acts| - 1]).value;
  }

  // ----- answers

  /** The answer to a lookup: what a fresh read at the key gives, and its size on disk. */
  ghost predicate Answers(env: Env, e: Fetched, key: Key) {
    && e.key == key
    && env.disk(key, env.headerOf(key)) == Some(e.content)
    && e.diskSize == e.content.diskSize
  }

  /** A pointer to a live block with the contents of the key. */
  ghost predicate PointsTo(env: Env, s: State, b: BlockId, key: Key) {
    && b in s.blocks && s.blocks[b].key == key && s.blocks[b].refs > 0
    && env.disk(key, env.headerOf(key)) == Some(s.blocks[b].content)
  }

  /** A lookup is answered once, for the request in hand, and the caller's variable points to that
      block. */
  lemma LookupAnswered(env: Env, s: State, t: Tid)
    requires env.Valid() && Inv(env, s) && Enabled(env, s, TakeRef(t))
    ensures var s', req := Apply(env, s, TakeRef(t)), s.threads[t].pc.req;
            && |s'.log| == |s.log| + 1 && s'.log[..|s.log|] == s.log && Answers(env, s'.log[|s.log|], req.key)
            && t in s'.threads && s'.threads[t].pc == Release(req)
            && (req.key.cache != Index ==>
                  && s'.threads[t].held.Keys == s.threads[t].held.Keys + {req.dest}
                  && PointsTo(env, s', s'.threads[t].held[req.dest], req.key))
  {
    hide HeapOk, LocksOk, Refs;
    var req := s.threads[t].pc.req;
    var i := env.SlotFor(req.key);
    assert SlotOk(env, s, i) && ThreadOk(env, s, t);
    var b := s.slots[i].block.value;
    assert BlockOk(env, s, b);
    Counted(env, s, i);
  }

  /** The block in a full slot is counted. */
  lemma Counted(env: Env, s: State, i: SlotId)
    requires env.Valid() && Inv(env, s) && i in s.slots && s.slots[i].full
    ensures s.slots[i].block.Some? && s.slots[i].block.value in s.blocks && s.blocks[s.slots[i].block.value].refs > 0
  {
    assert SlotOk(env, s, i);
    RefsAre(s);
    hide Refs;
    OwnedCounts(s, InSlot(i));
  }

  lemma OtherSteps(env: Env, s: State, a: Action)
    requires env.Valid() && Enabled(env, s, a) && !a.TakeRef?
    ensures Apply(env, s, a).log == s.log
  {
  }

  /** The whole log, in every interleaving: answer j is for the j-th lookup answered, as the thread that
      got it had begun it, and is what a fresh read gives. */
  lemma {:induction false} LookupsAnswerRequests(env: Env, slots: set<SlotId>, threads: set<Tid>, acts: seq<Action>,
                                                 s: State)
    requires env.Valid() && Reached(env, slots, threads, acts, s)
    ensures |s.log| == |Asked(acts)|
    ensures forall j :: 0 <= j < |s.log| ==> Answers(env, s.log[j], Asked(acts)[j])
    decreases |acts|
  {
    hide Apply, Enabled, Inv, Answers, Open, PointsTo;
    if acts == [] {
      assert s.log == [];
    } else {
      var m, a := Before(env, slots, threads, acts, s);
      var n := |acts| - 1;
      LookupsAnswerRequests(env, slots, threads, acts[..n], m);
      if a.TakeRef? {
        LastAnswer(env, slots, threads, acts[..n], m, a.t);
      } else {
        OtherSteps(env, m, a);
      }
    }
  }

  /** The step that answers a lookup answers the one begun last. */
  lemma LastAnswer(env: Env, slots: set<SlotId>, threads: set<Tid>, acts: seq<Action>, s: State, t: Tid)
    requires env.Valid() && Reached(env, slots, threads, acts, s) && Enabled(env, s, TakeRef(t))
    ensures var s', open := Apply(env, s, TakeRef(t)), Open(acts, t);
            && t in s.threads && open != [] && s.threads[t].pc == Hit(open[|open| - 1])
            && |s'.log| == |s.log| + 1 && s'.log[..|s.log|] == s.log
            && Answers(env, s'.log[|s.log|], open[|open| - 1].key)
  {
    hide Inv, Answers, Reached, Apply;
    ReachedInv(env, slots, threads, acts, s);
    RequestsAreKept(env, slots, threads, acts, s, t);
    LookupAnswered(env, s, t);
  }

  // ----- lookups come to an end

  /** The step that answers a lookup which has the lock is at most so many steps off. */
  function StepsLeft(th: Thread): nat {
    match th.pc
    case Idle => 5
    case Look(_) => 5
    case Evict(_, _) => 4
    case Miss(_) => 3
    case Filled(_, _) => 2
    case _ => 1
  }

  /** t has the lock for a lookup that has not been answered. */
  predicate Working(th: Thread) {
    if th.pc.Idle? then th.filling.Some? else HasReq(th.pc) && !th.pc.Want? && !th.pc.Release?
  }

  function Current(th: Thread): Request
    requires Working(th)
  {
    if th.pc.Idle? then th.filling.value else th.pc.req
  }

  lemma {:induction false} RunCons(env: Env, s: State, a: Action, rest: seq<Action>)
    requires env.Valid() && Enabled(env, s, a)
    ensures Run(env, s, [a] + rest) == Run(env, Apply(env, s, a), rest)
    decreases |rest|
  {
    hide Enabled, Apply;
    var all := [a] + rest;
    if rest == [] {
      assert all[..0] == [] && all[0] == a;
    } else {
      RunCons(env, s, a, rest[..|rest| - 1]);
      assert all[..|all| - 1] == [a] + rest[..|rest| - 1] && all[|all| - 1] == rest[|rest| - 1];
    }
  }

  /** The next step of a lookup that has the lock and whose block can be read: it can be taken, and either
      answers the lookup or gets it further. */
  lemma NextHelps(env: Env, s: State, t: Tid, unused: BlockId) returns (a: Action)
    requires env.Valid() && Inv(env, s) && t in s.threads && Working(s.threads[t])
    requires var req := Current(s.threads[t]); env.disk(req.key, req.header).Some?
    requires unused !in s.blocks && unused !in s.freed
    ensures !Finished(s.threads[t]) && a == NextAction(env, t, s.threads[t], unused) && a.t == t && Enabled(env, s, a)
    ensures var th, s' := s.threads[t], Apply(env, s, a);
            t in s'.threads && (a != TakeRef(t) ==>
              Working(s'.threads[t]) && Current(s'.threads[t]) == Current(th)
                && StepsLeft(s'.threads[t]) < StepsLeft(th) && s'.log == s.log)
  {
    var th := s.threads[t];
    a := NextAction(env, t, th, unused);
    OnlyWaits(env, s, t, unused);
    OwnThread(env, s, t);
    hide Inv;
    if a.Examine? {
      ExamineHelps(env, s, t);
    } else {
      hide Collide, ExamineSlot;
      if a.Load? || a.MarkValid? {
        FillHelps(env, s, a);
      }
    }
  }

  lemma OnlyWaits(env: Env, s: State, t: Tid, unused: BlockId)
    requires env.Valid() && Inv(env, s) && t in s.threads && Working(s.threads[t])
    requires unused !in s.blocks && unused !in s.freed
    ensures CanStep(env, s, t, unused)
  {
    hide HeapOk, Consistent;
    OnlyWaitingBlocks(env, s, t, unused);
  }

  lemma ExamineHelps(env: Env, s: State, t: Tid)
    requires env.Valid() && Enabled(env, s, Examine(t)) && SlotOk(env, s, env.SlotFor(s.threads[t].pc.req.key))
    ensures var th, s' := s.threads[t], Apply(env, s, Examine(t));
            && t in s'.threads && Working(s'.threads[t]) && Current(s'.threads[t]) == Current(th)
            && StepsLeft(s'.threads[t]) < StepsLeft(th) && s'.log == s.log
  {
  }

  lemma FillHelps(env: Env, s: State, a: Action)
    requires env.Valid() && Enabled(env, s, a) && (a.Load? || a.MarkValid?) && ThreadOk(env, s, a.t)
    ensures var th, s' := s.threads[a.t], Apply(env, s, a);
            && a.t in s'.threads && Working(s'.threads[a.t]) && Current(s'.threads[a.t]) == Current(th)
            && StepsLeft(s'.threads[a.t]) < StepsLeft(th) && s'.log == s.log
  {
  }

  /** A lookup that has the lock, whether it is just starting or building an index, gets its answer by its
      thread's steps alone, if the disk holds the block; no other thread needs to do anything. */
  lemma {:induction false} LookupFinishes(env: Env, s: State, t: Tid) returns (acts: seq<Action>, s': State)
    requires env.Valid() && Inv(env, s) && t in s.threads && Working(s.threads[t])
    requires var req := Current(s.threads[t]); env.disk(req.key, req.header).Some?
    ensures |acts| <= StepsLeft(s.threads[t]) && forall a <- acts :: a.t == t
    ensures Run(env, s, acts) == Some(s') && t in s'.threads && s'.threads[t].pc == Release(Current(s.threads[t]))
    ensures |s'.log| == |s.log| + 1 && s'.log[..|s.log|] == s.log
    ensures Answers(env, s'.log[|s.log|], Current(s.threads[t]).key)
    decreases StepsLeft(s.threads[t])
  {
    hide Inv, Enabled, Apply, Run, Answers;
    var unused := Unused(s);
    var a := NextHelps(env, s, t, unused);
    var m := Apply(env, s, a);
    if a == TakeRef(t) {
      LookupAnswered(env, s, t);
      acts, s' := [a], m;
      RunCons(env, s, a, []);
      assert [a] == [a] + [];
      assert Run(env, m, []) == Some(m) by { RunNothing(env, m); }
    } else {
      InvStep(env, s, a);
      var rest;
      rest, s' := LookupFinishes(env, m, t);
      acts := [a] + rest;
      RunCons(env, s, a, rest);
    }
  }

  lemma RunNothing(env: Env, s: State)
    requires env.Valid()
    ensures Run(env, s, []) == Some(s)
  {
  }

  // ----- pointers

  /** t holds pointers in exactly the variables given, each to the block of its key. */
  ghost predicate Holding(env: Env, s: State, t: Tid, given: map<Handle, Key>) {
    && t in s.threads && s.threads[t].held.Keys == given.Keys
    && forall h :: h in given ==> PointsTo(env, s, s.threads[t].held[h], given[h])
  }

  /** A pointer held stays good through any step but its own release. */
  lemma PointerStays(env: Env, s: State, a: Action, t: Tid, h: Handle, key: Key)
    requires env.Valid() && Inv(env, s) && Enabled(env, s, a)
    requires t in s.threads && h in s.threads[t].held && PointsTo(env, s, s.threads[t].held[h], key)
    requires a != Drop(t, h)
    ensures var s' := Apply(env, s, a);
            t in s'.threads && h in s'.threads[t].held && s'.threads[t].held[h] == s.threads[t].held[h]
              && PointsTo(env, s', s'.threads[t].held[h], key)
  {
    hide Consistent, HeapOk, Refs;
    var s' := Apply(env, s, a);
    StepRestores(env, s, a);
    OwnBlocksStay(s, s', a.t, Works(env, s, a), t);
    InvStep(env, s, a);
    HeldStays(env, s, a, t, h);
    StillCounted(s', t, h);
  }

  lemma StillCounted(s: State, t: Tid, h: Handle)
    requires HeapOk(s) && t in s.threads && h in s.threads[t].held && s.threads[t].held[h] in s.blocks
    ensures s.blocks[s.threads[t].held[h]].refs > 0
  {
    RefsAre(s);
    hide Refs;
    OwnedCounts(s, Holder(t, h));
  }

  lemma HeldStays(env: Env, s: State, a: Action, t: Tid, h: Handle)
    requires env.Valid() && Inv(env, s) && Enabled(env, s, a) && t in s.threads && h in s.threads[t].held
    requires a != Drop(t, h)
    ensures var s' := Apply(env, s, a);
            t in s'.threads && h in s'.threads[t].held && s'.threads[t].held[h] == s.threads[t].held[h]
  {
    hide Inv, Apply;
    if t == a.t {
      HeldAfter(env, s, a);
      if a.TakeRef? {
        NewHandle(env, s, t);
      }
    } else {
      ThreadsAlone(env, s, a, t);
    }
  }

  /** Only the thread that takes a step changes. */
  lemma ThreadsAlone(env: Env, s: State, a: Action, t: Tid)
    requires env.Valid() && Inv(env, s) && Enabled(env, s, a) && t in s.threads && t != a.t
    ensures t in Apply(env, s, a).threads && Apply(env, s, a).threads[t] == s.threads[t]
  {
    hide Consistent, HeapOk, Apply, Enabled;
    StepRestores(env, s, a);
  }

  lemma OwnThread(env: Env, s: State, t: Tid)
    requires env.Valid() && Inv(env, s) && t in s.threads
    ensures ThreadOk(env, s, t) && !s.fault
    ensures HasReq(s.threads[t].pc) ==> env.SlotFor(s.threads[t].pc.req.key) in s.slots
    ensures HasReq(s.threads[t].pc) ==> SlotOk(env, s, env.SlotFor(s.threads[t].pc.req.key))
  {
    hide HeapOk, SlotOk, ThreadOk, LocksOk, BlockOk, LogOk;
  }

  /** What a step does to the pointers its thread holds. */
  lemma HeldAfter(env: Env, s: State, a: Action)
    requires env.Valid() && Inv(env, s) && Enabled(env, s, a)
    ensures var s', th := Apply(env, s, a), s.threads[a.t];
            && a.t in s'.threads
            && s'.threads[a.t].held ==
               match a
               case TakeRef(_) =>
                 if th.pc.req.key.cache == Index then th.held
                 else th.held[th.pc.req.dest := s'.threads[a.t].held[th.pc.req.dest]]
               case Drop(_, h) => th.held - {h}
               case _ => th.held
  {
    OwnThread(env, s, a.t);
    hide Inv, Apply, ThreadOk, SlotOk;
    match a
    case TakeRef(_) => HeldTaken(env, s, a);
    case Drop(_, _) => HeldDropped(env, s, a);
    case Examine(_) => HeldExamined(env, s, a);
    case _ => HeldSame(env, s, a);
  }

  lemma HeldTaken(env: Env, s: State, a: Action)
    requires env.Valid() && Enabled(env, s, a) && a.TakeRef? && SlotOk(env, s, env.SlotFor(s.threads[a.t].pc.req.key))
    requires ThreadOk(env, s, a.t)
    ensures var s', th := Apply(env, s, a), s.threads[a.t];
            && a.t in s'.threads
            && s'.threads[a.t].held == if th.pc.req.key.cache == Index then th.held
                                       else th.held[th.pc.req.dest := s'.threads[a.t].held[th.pc.req.dest]]
  {
  }

  lemma HeldDropped(env: Env, s: State, a: Action)
    requires env.Valid() && Enabled(env, s, a) && a.Drop? && ThreadOk(env, s, a.t)
    ensures var s', th := Apply(env, s, a), s.threads[a.t]; a.t in s'.threads && s'.threads[a.t].held == th.held - {a.h}
  {
  }

  lemma HeldExamined(env: Env, s: State, a: Action)
    requires env.Valid() && Enabled(env, s, a) && a.Examine?
    ensures a.t in Apply(env, s, a).threads && Apply(env, s, a).threads[a.t].held == s.threads[a.t].held
  {
  }

  lemma HeldSame(env: Env, s: State, a: Action)
    requires env.Valid() && Enabled(env, s, a) && !a.TakeRef? && !a.Drop? && !a.Examine?
    ensures a.t in Apply(env, s, a).threads && Apply(env, s, a).threads[a.t].held == s.threads[a.t].held
  {
  }

  /** A step changes which variables t holds pointers in only as `Given` says. */
  lemma HeldStep(env: Env, s: State, a: Action, t: Tid)
    requires env.Valid() && Inv(env, s) && Enabled(env, s, a) && t in s.threads
    ensures var s', th := Apply(env, s, a), s.threads[t];
            t in s'.threads && s'.threads[t].held.Keys ==
            if a == TakeRef(t) && th.pc.req.key.cache != Index then th.held.Keys + {th.pc.req.dest}
            else if a.Drop? && a.t == t then th.held.Keys - {a.h} else th.held.Keys
  {
    hide Inv;
    if t == a.t {
      HeldAfter(env, s, a);
    } else {
      ThreadsAlone(env, s, a, t);
    }
    hide Apply;
  }

  /** In every reachable state a thread holds pointers in exactly the variables its finished lookups
      assigned and it has not released, each to the block it asked for, live, with the contents on disk. */
  lemma {:induction false} PointersAnswerRequests(env: Env, slots: set<SlotId>, threads: set<Tid>, acts: seq<Action>,
                                                  s: State, t: Tid)
    requires env.Valid() && Reached(env, slots, threads, acts, s) && t in s.threads
    ensures Holding(env, s, t, Given(acts, t))
    decreases |acts|
  {
    hide Apply, Enabled, Inv, PointsTo, Open, Answers;
    if acts == [] {
      assert s.threads[t].held == map[];
    } else {
      var m, a := Before(env, slots, threads, acts, s);
      var n := |acts| - 1;
      ThreadsStay(env, m, a);
      PointersAnswerRequests(env, slots, threads, acts[..n], m, t);
      ReachedInv(env, slots, threads, acts[..n], m);
      HeldStep(env, m, a, t);
      var given, given' := Given(acts[..n], t), Given(acts, t);
      if a == TakeRef(t) {
        LastAnswer(env, slots, threads, acts[..n], m, t);
        LookupAnswered(env, m, t);
        NewHandle(env, m, t);
      }
      forall h | h in given'
        ensures h in s.threads[t].held && PointsTo(env, s, s.threads[t].held[h], given'[h])
      {
        if h in given && given'[h] == given[h] && a != Drop(t, h) {
          PointerStays(env, m, a, t, h, given[h]);
        }
      }
    }
  }

  lemma NewHandle(env: Env, s: State, t: Tid)
    requires env.Valid() && Inv(env, s) && Enabled(env, s, TakeRef(t))
    ensures s.threads[t].pc.req.key.cache != Index ==> s.threads[t].pc.req.dest !in s.threads[t].held
  {
    hide HeapOk;
    assert ThreadOk(env, s, t);
  }

  // ----- what is cached is not read again

  /** The key is in the cache, with its block. */
  predicate Resident(env: Env, s: State, key: Key, b: BlockId)
    requires env.Valid()
  {
    var i := env.SlotFor(key);
    i in s.slots && s.slots[i].full && s.slots[i].idx == key.pos && s.slots[i].block == Some(b)
  }

  /** Whoever has the lock and finds its key resident takes the block without reading or freeing anything. */
  lemma ResidentHits(env: Env, s: State, t: Tid, b: BlockId)
    requires env.Valid() && Enabled(env, s, Examine(t)) && Inv(env, s)
    requires Resident(env, s, s.threads[t].pc.req.key, b)
    ensures Apply(env, s, Examine(t)) == s.(threads := s.threads[t := s.threads[t].(pc := Hit(s.threads[t].pc.req))])
  {
    hide HeapOk, LogOk, ThreadOk, SlotOk, BlockOk;
    var i := env.SlotFor(s.threads[t].pc.req.key);
    assert LocksOk(env, s, t);
    assert s.slots[i := s.slots[i]] == s.slots;
  }

  /** A key stays resident, with its block, until a thread that looks up another key of its slot examines
      the slot. */
  lemma ResidentStays(env: Env, s: State, a: Action, key: Key, b: BlockId)
    requires env.Valid() && Inv(env, s) && Enabled(env, s, a) && Resident(env, s, key, b)
    requires a.Examine? ==> env.SlotFor(s.threads[a.t].pc.req.key) == env.SlotFor(key) ==>
               s.threads[a.t].pc.req.key == key
    ensures Resident(env, Apply(env, s, a), key, b)
  {
    hide HeapOk, Consistent, ThreadOk;
    if Works(env, s, a) != Some(env.SlotFor(key)) {
      OtherSlots(env, s, a);
    } else {
      OwnThread(env, s, a.t);
      if a.Examine? {
        ExamineStays(env, s, a, key, b);
      } else {
        WorkStays(env, s, a, key, b);
      }
    }
  }

  lemma OtherSlots(env: Env, s: State, a: Action)
    requires env.Valid() && Inv(env, s) && Enabled(env, s, a)
    ensures forall j :: j in s.slots && Some(j) != Works(env, s, a) ==>
              j in Apply(env, s, a).slots && Apply(env, s, a).slots[j] == s.slots[j]
  {
    hide Consistent, HeapOk, Apply, Enabled;
    StepRestores(env, s, a);
  }

  lemma ExamineStays(env: Env, s: State, a: Action, key: Key, b: BlockId)
    requires env.Valid() && Enabled(env, s, a) && Resident(env, s, key, b) && a.Examine?
    requires s.threads[a.t].pc.req.key == key
    ensures Resident(env, Apply(env, s, a), key, b)
  {
    hide Collide;
  }

  lemma WorkStays(env: Env, s: State, a: Action, key: Key, b: BlockId)
    requires env.Valid() && Enabled(env, s, a) && Resident(env, s, key, b) && ThreadOk(env, s, a.t) && !a.Examine?
    requires Works(env, s, a) == Some(env.SlotFor(key))
    ensures Resident(env, Apply(env, s, a), key, b)
  {
    hide ExamineSlot;
  }

  /** A successful read leaves its key resident. */
  lemma AnsweredIsResident(env: Env, s: State, t: Tid)
    requires env.Valid() && Inv(env, s) && Enabled(env, s, TakeRef(t))
    ensures exists b :: Resident(env, s, s.threads[t].pc.req.key, b)
                        && Resident(env, Apply(env, s, TakeRef(t)), s.threads[t].pc.req.key, b)
  {
    hide Inv, Apply;
    var key := s.threads[t].pc.req.key;
    OwnThread(env, s, t);
    var b := s.slots[env.SlotFor(key)].block.value;
    assert Resident(env, s, key, b);
    ResidentStays(env, s, TakeRef(t), key, b);
  }
}
