/** The single-threaded cache (cache.c): a few slots, searched in turn and reused in rotation.

Seen from outside it is a queue of the most recent misses. A key stays a hit until as many further
misses as there are slots. */
module FifoCache {
  import opened Bytes

  datatype Slot<V> = Slot(valid: bool, idx: nat, entry: V)

  datatype State<V> = State(slots: seq<Slot<V>>, next: nat)
  {
    ghost predicate Valid() { next < |slots| }
  }

  /** What a lookup returns: the slot, whether it was there, and the key evicted to make room. A
      slot that carries the key without being valid fails the assertion in the search. */
  datatype Got = Hit(i: nat) | Miss(i: nat, evicted: Option<nat>) | AssertionFailed

  /** The first slot from i on that carries a key. */
  function Find<V>(slots: seq<Slot<V>>, key: nat, i: nat): (r: nat)
    requires i <= |slots|
    ensures i <= r <= |slots|
    ensures r < |slots| ==> slots[r].idx == key
    ensures forall j :: i <= j < r ==> slots[j].idx != key
    decreases |slots| - i
  {
    if i == |slots| || slots[i].idx == key then i else Find(slots, key, i + 1)
  }

  function Search<V>(c: State<V>, key: nat): (State<V>, Got)
    requires c.Valid()
  {
    var i := Find(c.slots, key, 0);
    if i < |c.slots| then (c, if c.slots[i].valid then Hit(i) else AssertionFailed)
    else
      var slot := c.slots[c.next];
      (State(c.slots[c.next := Slot(false, key, slot.entry)], (c.next + 1) % |c.slots|),
       Miss(c.next, if slot.valid then Some(slot.idx) else None))
  }

  function Fill<V>(c: State<V>, i: nat, v: V): State<V>
    requires i < |c.slots|
  {
    c.(slots := c.slots[i := Slot(true, c.slots[i].idx, v)])
  }

  /** A lookup and, on a miss, the attempt to fill the entry. */
  function Serve<V>(c: State<V>, key: nat, read: Option<V>): (r: (State<V>, Got))
    requires c.Valid()
    ensures r.0.Valid()
  {
    var (c', g) := Search(c, key);
    (if g.Miss? && read.Some? then Fill(c', g.i, read.value) else c', g)
  }

  // ----- the queue

  /** A remembered miss: its key, and whether the entry was filled. */
  datatype Entry = Entry(key: nat, filled: bool)

  datatype Outcome = QHit | QMiss(evicted: Option<nat>) | QFailed

  /** The most recent misses, oldest first, never more than there are slots. */
  type Queue = seq<Entry>

  predicate Holds(q: Queue, key: nat) { exists j :: 0 <= j < |q| && q[j].key == key }
  predicate HoldsFilled(q: Queue, key: nat) { exists j :: 0 <= j < |q| && q[j] == Entry(key, true) }

  /** The specification: a hit if the key is queued, else it is queued and the oldest may go. The
      assertion fails on a key whose fill failed, and on key zero while a slot is unused. */
  function Ask(q: Queue, count: nat, key: nat, ok: bool): (Queue, Outcome)
    requires |q| <= count && count > 0
  {
    if HoldsFilled(q, key) then (q, QHit)
    else if Holds(q, key) || (key == 0 && |q| < count) then (q, QFailed)
    else if |q| < count then (q + [Entry(key, ok)], QMiss(None))
    else (q[1..] + [Entry(key, ok)], QMiss(if q[0].filled then Some(q[0].key) else None))
  }

  predicate Distinct(q: Queue) { forall i, j :: 0 <= i < j < |q| ==> q[i].key != q[j].key }

  /** Slot s of the cache is where the j-th oldest miss went. */
  function Place(next: nat, size: nat, count: nat, j: nat): int
    requires j < size <= count
  {
    if size < count then j else (if next + j < count then next + j else next + j - count)
  }

  ghost predicate SlotHolds<V>(c: State<V>, s: int, e: Entry) {
    0 <= s < |c.slots| && c.slots[s].idx == e.key && c.slots[s].valid == e.filled
  }

  /** The cache is a picture of the queue: misses fill the slots in rotation, the others are as
      allocated. */
  ghost predicate Pictures<V>(c: State<V>, q: Queue) {
    && c.Valid() && |q| <= |c.slots|
    && (|q| < |c.slots| ==> c.next == |q|)
    && (forall j :: 0 <= j < |q| ==> SlotHolds(c, Place(c.next, |q|, |c.slots|, j), q[j]))
    && (forall s :: |q| <= s < |c.slots| ==> c.slots[s].idx == 0 && !c.slots[s].valid)
    && Distinct(q)
  }

  /** The position in the queue of what slot s holds. */
  function Age(next: nat, size: nat, count: nat, s: nat): (j: nat)
    requires s < size <= count && next < count
    ensures j < size && Place(next, size, count, j) == s
  {
    if size < count then s else if s >= next then s - next else s + count - next
  }

  lemma FindPictures<V>(c: State<V>, q: Queue, key: nat)
    requires Pictures(c, q)
    ensures var i := Find(c.slots, key, 0);
            && (i < |q| ==> q[Age(c.next, |q|, |c.slots|, i)] == Entry(key, c.slots[i].valid))
            && (i < |c.slots| && i >= |q| ==> key == 0 && !c.slots[i].valid)
            && (i < |q| <==> Holds(q, key))
            && (i < |q| && c.slots[i].valid <==> HoldsFilled(q, key))
            && (i < |c.slots| <==> Holds(q, key) || (key == 0 && |q| < |c.slots|))
  {
    var i := Find(c.slots, key, 0);
    if i < |q| {
      var j := Age(c.next, |q|, |c.slots|, i);
      assert SlotHolds(c, i, q[j]);
    }
    if Holds(q, key) {
      var j :| 0 <= j < |q| && q[j].key == key;
      var s := Place(c.next, |q|, |c.slots|, j);
      assert SlotHolds(c, s, q[j]) && s < |q|;
    }
    if key == 0 && |q| < |c.slots| {
      assert c.slots[|q|].idx == 0;
    }
  }

  /** The cache behaves as the queue, on every key and whether or not fills succeed. */
  lemma FetchRefines<V>(c: State<V>, q: Queue, key: nat, read: Option<V>)
    requires Pictures(c, q)
    ensures var (c', g) := Serve(c, key, read);
            var (q', o) := Ask(q, |c.slots|, key, read.Some?);
            && |c'.slots| == |c.slots|
            && Pictures(c', q')
            && (g.Hit? <==> o.QHit?) && (g.AssertionFailed? <==> o.QFailed?)
            && (g.Miss? <==> o.QMiss?) && (g.Miss? ==> g.evicted == o.evicted)
            && (g.Hit? ==> g.i < |c.slots| && c.slots[g.i].valid && c.slots[g.i].idx == key)
  {
    FindPictures(c, q, key);
    hide Find, Holds, HoldsFilled, Pictures;
    var n := |c.slots|;
    PictureBounds(c, q);
    if Find(c.slots, key, 0) == n {
      MissState(c, key, read);
      NewSlot(c, q, key, read);
    }
  }

  lemma PictureBounds<V>(c: State<V>, q: Queue)
    requires Pictures(c, q)
    ensures c.Valid() && |q| <= |c.slots|
  {
  }

  /** A miss rewrites one slot. */
  function Replaced<V>(c: State<V>, key: nat, read: Option<V>): State<V>
    requires c.Valid()
  {
    State(c.slots[c.next := Slot(read.Some?, key, if read.Some? then read.value else c.slots[c.next].entry)],
          if c.next + 1 == |c.slots| then 0 else c.next + 1)
  }

  lemma MissState<V>(c: State<V>, key: nat, read: Option<V>)
    requires c.Valid() && Find(c.slots, key, 0) == |c.slots|
    ensures Serve(c, key, read).0 == Replaced(c, key, read)
  {
    hide Find;
    NextWraps(c.next, |c.slots|);
    var slot := c.slots[c.next];
    var v := if read.Some? then read.value else slot.entry;
    assert c.slots[c.next := Slot(false, key, slot.entry)][c.next := Slot(true, key, v)] ==
           c.slots[c.next := Slot(true, key, v)];
  }

  lemma NextWraps(i: nat, n: nat)
    requires i < n
    ensures (i + 1) % n == if i + 1 == n then 0 else i + 1
  {
  }

  lemma NewSlot<V>(c: State<V>, q: Queue, key: nat, read: Option<V>)
    requires Pictures(c, q) && !Holds(q, key)
    ensures |q| < |c.slots| ==> Pictures(Replaced(c, key, read), q + [Entry(key, read.Some?)])
    ensures |q| == |c.slots| ==> Pictures(Replaced(c, key, read), q[1..] + [Entry(key, read.Some?)])
    ensures |q| == |c.slots| ==> c.slots[c.next].idx == q[0].key && c.slots[c.next].valid == q[0].filled
  {
    var n := |c.slots|;
    var c' := Replaced(c, key, read);
    if |q| < n {
      Appended(c, q, key, read);
    } else {
      assert Place(c.next, n, n, 0) == c.next;
      assert SlotHolds(c, c.next, q[0]);
      Rotated(c, q, key, read);
    }
  }

  lemma Appended<V>(c: State<V>, q: Queue, key: nat, read: Option<V>)
    requires Pictures(c, q) && |q| < |c.slots| && !Holds(q, key)
    ensures Pictures(Replaced(c, key, read), q + [Entry(key, read.Some?)])
  {
    var n := |c.slots|;
    var c', q' := Replaced(c, key, read), q + [Entry(key, read.Some?)];
    forall j | 0 <= j < |q'|
      ensures SlotHolds(c', Place(c'.next, |q'|, n, j), q'[j])
    {
      assert Place(c'.next, |q'|, n, j) == j;
      if j < |q| {
        assert Place(c.next, |q|, n, j) == j;
        assert SlotHolds(c, j, q[j]);
      }
    }
  }

  lemma Rotated<V>(c: State<V>, q: Queue, key: nat, read: Option<V>)
    requires Pictures(c, q) && |q| == |c.slots| && !Holds(q, key)
    ensures Pictures(Replaced(c, key, read), q[1..] + [Entry(key, read.Some?)])
  {
    var n := |c.slots|;
    var c', q' := Replaced(c, key, read), q[1..] + [Entry(key, read.Some?)];
    forall j | 0 <= j < n
      ensures SlotHolds(c', Place(c'.next, n, n, j), q'[j])
    {
      if j < n - 1 {
        assert Place(c'.next, n, n, j) == Place(c.next, n, n, j + 1);
        assert SlotHolds(c, Place(c.next, n, n, j + 1), q[j + 1]);
      } else {
        assert Place(c'.next, n, n, j) == c.next;
      }
    }
  }

  // ----- runs

  datatype Request = Request(key: nat, ok: bool)

  /** A run of lookups: the queue, everything that missed, the keys disposed of in order, and
      whether an assertion failed. */
  datatype Trace = Trace(q: Queue, missed: seq<Entry>, disposed: seq<nat>, failed: bool)

  function Start(): Trace { Trace([], [], [], false) }

  function Step(m: Trace, count: nat, req: Request): Trace
    requires |m.q| <= count && count > 0
  {
    var (q', o) := Ask(m.q, count, req.key, req.ok);
    match o
    case QHit => m
    case QFailed => m.(failed := true)
    case QMiss(e) =>
      Trace(q', m.missed + [Entry(req.key, req.ok)],
            if e.Some? then m.disposed + [e.value] else m.disposed, m.failed)
  }

  function Run(t: Trace, count: nat, reqs: seq<Request>): (r: Trace)
    requires |t.q| <= count && count > 0
    ensures |r.q| <= count
    decreases |reqs|
  {
    if reqs == [] then t else
    var m := Run(t, count, reqs[..|reqs| - 1]);
    Step(m, count, reqs[|reqs| - 1])
  }

  predicate AllFilled(q: Queue) { forall j :: 0 <= j < |q| ==> q[j].filled }

  /** No key is ever held twice; and as long as keys are not zero and fills succeed, no assertion
      fails. */
  lemma {:induction false} RunsKeepDistinct(count: nat, reqs: seq<Request>)
    requires count > 0
    ensures Distinct(Run(Start(), count, reqs).q)
    ensures (forall j :: 0 <= j < |reqs| ==> reqs[j].key != 0 && reqs[j].ok) ==>
              !Run(Start(), count, reqs).failed && AllFilled(Run(Start(), count, reqs).q)
    decreases |reqs|
  {
    if reqs != [] {
      RunsKeepDistinct(count, reqs[..|reqs| - 1]);
    }
  }

  /** The keys of the entries that were filled, in order. */
  function FilledKeys(q: seq<Entry>): seq<nat> {
    if q == [] then [] else FilledKeys(q[..|q| - 1]) + if q[|q| - 1].filled then [q[|q| - 1].key] else []
  }

  lemma FilledKeysAppend(q: seq<Entry>, e: Entry)
    ensures FilledKeys(q + [e]) == FilledKeys(q) + if e.filled then [e.key] else []
  {
    assert (q + [e])[..|q|] == q;
  }

  lemma FilledKeysOne(e: Entry)
    ensures FilledKeys([e]) == (if e.filled then [e.key] else []) + FilledKeys([])
  {
    assert [e][..0] == [];
  }

  lemma {:induction false} FilledKeysSplit(q: seq<Entry>)
    requires q != []
    ensures FilledKeys(q) == (if q[0].filled then [q[0].key] else []) + FilledKeys(q[1..])
  {
    hide FilledKeys;
    var n := |q| - 1;
    if n == 0 {
      assert q == [q[0]] && q[1..] == [];
      FilledKeysOne(q[0]);
    } else {
      FilledKeysSplit(q[..n]);
      assert q[..n][1..] == q[1..n] && q == q[..n] + [q[n]] && q[1..] == q[1..n] + [q[n]];
      FilledKeysAppend(q[..n], q[n]);
      FilledKeysAppend(q[1..n], q[n]);
      Regroup([], if q[0].filled then [q[0].key] else [], FilledKeys(q[1..n]), if q[n].filled then [q[n].key] else []);
    }
  }

  /** The queue is the last of what missed, and everything that was ever filled has been disposed of, in
      the order it came, or is still there. */
  ghost predicate Conserved(q: Queue, missed: seq<Entry>, disposed: seq<nat>, count: nat) {
    && |q| == Min(count, |missed|) && q == missed[|missed| - |q|..]
    && FilledKeys(missed) == disposed + FilledKeys(q)
  }

  lemma {:induction false} NothingLost(count: nat, reqs: seq<Request>)
    requires count > 0
    ensures var r := Run(Start(), count, reqs);
            && |r.q| == Min(count, |r.missed|) && r.q == r.missed[|r.missed| - |r.q|..]
            && FilledKeys(r.missed) == r.disposed + FilledKeys(r.q)
    decreases |reqs|
  {
    hide Ask, FilledKeys, Step;
    if reqs != [] {
      NothingLost(count, reqs[..|reqs| - 1]);
      var m, req := Run(Start(), count, reqs[..|reqs| - 1]), reqs[|reqs| - 1];
      StepConserves(m, count, req);
    } else {
      assert FilledKeys([]) == [] + FilledKeys([]);
    }
  }

  lemma StepConserves(m: Trace, count: nat, req: Request)
    requires count > 0 && |m.q| <= count && Conserved(m.q, m.missed, m.disposed, count)
    ensures var r := Step(m, count, req); Conserved(r.q, r.missed, r.disposed, count)
  {
    hide FilledKeys, Ask, Conserved;
    if Ask(m.q, count, req.key, req.ok).1.QMiss? {
      AskMisses(m.q, count, req.key, req.ok);
      if |m.q| < count {
        Pushed(m.q, m.missed, m.disposed, count, Entry(req.key, req.ok));
      } else {
        Popped(m.q, m.missed, m.disposed, count, Entry(req.key, req.ok));
      }
    }
  }

  lemma AskMisses(q: Queue, count: nat, key: nat, ok: bool)
    requires |q| <= count && count > 0 && Ask(q, count, key, ok).1.QMiss?
    ensures var (q', o) := Ask(q, count, key, ok);
            if |q| < count then q' == q + [Entry(key, ok)] && o.evicted == None
            else q' == q[1..] + [Entry(key, ok)] && o.evicted == if q[0].filled then Some(q[0].key) else None
  {
  }

  lemma Pushed(q: Queue, missed: seq<Entry>, disposed: seq<nat>, count: nat, e: Entry)
    requires Conserved(q, missed, disposed, count) && |q| < count
    ensures Conserved(q + [e], missed + [e], disposed, count)
  {
    hide FilledKeys;
    assert q == missed;
    FilledKeysAppend(missed, e);
    Regroup(disposed, [], FilledKeys(q), if e.filled then [e.key] else []);
  }

  lemma Popped(q: Queue, missed: seq<Entry>, disposed: seq<nat>, count: nat, e: Entry)
    requires Conserved(q, missed, disposed, count) && |q| == count > 0
    ensures Conserved(q[1..] + [e], missed + [e], if q[0].filled then disposed + [q[0].key] else disposed, count)
  {
    hide FilledKeys;
    FilledKeysAppend(missed, e);
    FilledKeysSplit(q);
    FilledKeysAppend(q[1..], e);
    LastShifts(q, missed, e);
    Regroup(disposed, if q[0].filled then [q[0].key] else [], FilledKeys(q[1..]), if e.filled then [e.key] else []);
  }

  lemma LastShifts(q: Queue, missed: seq<Entry>, e: Entry)
    requires 0 < |q| <= |missed| && q == missed[|missed| - |q|..]
    ensures q[1..] + [e] == (missed + [e])[|missed| + 1 - |q|..]
  {
  }

  lemma Regroup<T>(a: seq<T>, b: seq<T>, c: seq<T>, d: seq<T>)
    ensures a + (b + c) + d == (a + b) + (c + d)
    ensures b == [] ==> a + b == a
  {
  }

  /** Among the last `count` misses is one for the key whose fill failed. */
  ghost predicate FailedOf(missed: seq<Entry>, count: nat, key: nat) {
    var recent := missed[|missed| - Min(count, |missed|)..];
    exists j :: 0 <= j < |recent| && recent[j] == Entry(key, false)
  }

  /** The assertion in the search fails exactly on a key among the last `count` misses whose fill
      failed, or on key zero while fewer than `count` lookups have missed. */
  lemma FailsExactly(count: nat, reqs: seq<Request>, key: nat, ok: bool)
    requires count > 0
    ensures var r := Run(Start(), count, reqs);
            Ask(r.q, count, key, ok).1.QFailed? <==> FailedOf(r.missed, count, key) || (key == 0 && |r.missed| < count)
  {
    hide Run, FilledKeys, Ask, Distinct, Holds;
    var q := Run(Start(), count, reqs).q;
    NothingLost(count, reqs);
    RunsKeepDistinct(count, reqs);
    ZeroNeverQueued(count, reqs);
    AskFails(q, count, key, ok);
    var missed := Run(Start(), count, reqs).missed;
    assert missed[|missed| - Min(count, |missed|)..] == q;
  }

  lemma AskFails(q: Queue, count: nat, key: nat, ok: bool)
    requires |q| <= count && count > 0 && Distinct(q) && (|q| < count ==> !Holds(q, 0))
    ensures Ask(q, count, key, ok).1.QFailed? <==>
              (exists j :: 0 <= j < |q| && q[j] == Entry(key, false)) || (key == 0 && |q| < count)
  {
    if Holds(q, key) && !HoldsFilled(q, key) {
      var j :| 0 <= j < |q| && q[j].key == key;
      assert q[j] == Entry(key, false);
    }
    if j :| 0 <= j < |q| && q[j] == Entry(key, false) {
      assert q[j].key == key;
    }
  }

  /** Key zero is not taken in while a slot is unused. */
  lemma {:induction false} ZeroNeverQueued(count: nat, reqs: seq<Request>)
    requires count > 0
    ensures var r := Run(Start(), count, reqs); |r.q| < count ==> !Holds(r.q, 0)
    decreases |reqs|
  {
    if reqs != [] {
      ZeroNeverQueued(count, reqs[..|reqs| - 1]);
    }
  }

  function Times(s: seq<nat>, key: nat): nat {
    if s == [] then 0 else Times(s[..|s| - 1], key) + if s[|s| - 1] == key then 1 else 0
  }

  /** Just inserted and filled: the newest entry. */
  predicate JustInserted(t: Trace, key: nat) { |t.q| > 0 && t.q[|t.q| - 1] == Entry(key, true) && Distinct(t.q) }

  /** After `age` further misses the entry inserted at t has moved that far from the end of the
      queue, is still a hit, and has not been disposed of. */
  ghost predicate Aged(t: Trace, count: nat, key: nat, r: Trace) {
    var age := |r.missed| - |t.missed|;
    && |r.q| <= count && Distinct(r.q) && age >= 0
    && (age < count ==>
          && age < |r.q| && r.q[|r.q| - 1 - age] == Entry(key, true)
          && (|r.q| < count ==> |r.q| == |t.q| + age)
          && Times(r.disposed, key) == Times(t.disposed, key))
  }

  lemma TimesAppend(s: seq<nat>, key: nat, x: nat)
    ensures Times(s + [x], key) == Times(s, key) + if x == key then 1 else 0
  {
    assert (s + [x])[..|s|] == s;
  }

  lemma OneMoreRequest(t: Trace, count: nat, key: nat, m: Trace, req: Request)
    requires count > 0 && Aged(t, count, key, m)
    ensures Aged(t, count, key, Step(m, count, req))
    ensures |m.missed| - |t.missed| < count ==> HoldsFilled(m.q, key)
    ensures |m.missed| - |t.missed| == count - 1 && |Step(m, count, req).missed| == |m.missed| + 1 ==>
              && Times(Step(m, count, req).disposed, key) == Times(t.disposed, key) + 1
              && !Holds(Step(m, count, req).q, key)
  {
    hide Times;
    var age := |m.missed| - |t.missed|;
    if age < count {
      assert m.q[|m.q| - 1 - age] == Entry(key, true);
      assert HoldsFilled(m.q, key);
      if |m.q| > 0 {
        TimesAppend(m.disposed, key, m.q[0].key);
      }
    }
  }

  /** An inserted entry is a hit until exactly the count-th further miss, which disposes of it, once. */
  lemma {:induction false} Lifetime(t: Trace, count: nat, key: nat, reqs: seq<Request>)
    requires count > 0 && |t.q| <= count && JustInserted(t, key)
    ensures var r := Run(t, count, reqs);
            && Aged(t, count, key, r)
            && (|r.missed| - |t.missed| < count ==>
                 HoldsFilled(r.q, key) && Times(r.disposed, key) == Times(t.disposed, key))
            && (|r.missed| - |t.missed| == count && |Run(t, count, reqs[..|reqs| - 1]).missed| != |r.missed| ==>
                  !Holds(r.q, key) && Times(r.disposed, key) == Times(t.disposed, key) + 1)
    decreases |reqs|
  {
    hide Times, Ask;
    if reqs == [] {
      OneMoreRequest(t, count, key, t, Request(0, true));
    } else {
      var reqs' := reqs[..|reqs| - 1];
      Lifetime(t, count, key, reqs');
      var m, req := Run(t, count, reqs'), reqs[|reqs| - 1];
      OneMoreRequest(t, count, key, m, req);
      OneMoreRequest(t, count, key, Step(m, count, req), Request(0, true));
    }
  }

  // ----- runs of the slots

  /** A lookup, with what reading the disk would yield on a miss. */
  datatype Call<V> = Call(key: nat, read: Option<V>)

  /** Cleared memory. */
  function Cleared<V>(count: nat, zero: V): (c: State<V>)
    requires count > 0
    ensures c.Valid() && |c.slots| == count && Pictures(c, [])
  {
    State(seq(count, _ => Slot(false, 0, zero)), 0)
  }

  function Requests<V>(calls: seq<Call<V>>): (reqs: seq<Request>)
    ensures |reqs| == |calls|
    ensures forall j :: 0 <= j < |calls| ==> reqs[j] == Request(calls[j].key, calls[j].read.Some?)
  {
    seq(|calls|, j requires 0 <= j < |calls| => Request(calls[j].key, calls[j].read.Some?))
  }

  /** What a run of lookups does to the slots: the state it leaves, what missed, the keys that were
      evicted, and whether an assertion failed. */
  datatype Effect<V> = Effect(c: State<V>, missed: seq<Entry>, evicted: seq<nat>, failed: bool)

  function Served<V>(c: State<V>, calls: seq<Call<V>>): (r: Effect<V>)
    requires c.Valid()
    ensures r.c.Valid()
    decreases |calls|
  {
    if calls == [] then Effect(c, [], [], false) else
    var m, call := Served(c, calls[..|calls| - 1]), calls[|calls| - 1];
    var (c', g) := Serve(m.c, call.key, call.read);
    match g
    case Hit(_) => m.(c := c')
    case AssertionFailed => m.(c := c', failed := true)
    case Miss(_, e) =>
      Effect(c', m.missed + [Entry(call.key, call.read.Some?)],
             if e.Some? then m.evicted + [e.value] else m.evicted, m.failed)
  }

  /** In every run the slots do what the queue does. */
  lemma {:induction false} RunRefines<V>(c: State<V>, t: Trace, calls: seq<Call<V>>)
    requires Pictures(c, t.q) && |t.q| <= |c.slots| && |c.slots| > 0
    ensures var e, r := Served(c, calls), Run(t, |c.slots|, Requests(calls));
            && |e.c.slots| == |c.slots| && Pictures(e.c, r.q)
            && r.missed == t.missed + e.missed
            && r.disposed == t.disposed + e.evicted
            && r.failed == (t.failed || e.failed)
    decreases |calls|
  {
    hide Pictures, Serve, Ask, FilledKeys;
    PictureBounds(c, t.q);
    if calls != [] {
      var n := |calls| - 1;
      assert Requests(calls)[..n] == Requests(calls[..n]);
      RunRefines(c, t, calls[..n]);
      var m, mt, call := Served(c, calls[..n]), Run(t, |c.slots|, Requests(calls[..n])), calls[n];
      FetchRefines(m.c, mt.q, call.key, call.read);
      AskKeeps(mt.q, |c.slots|, call.key, call.read.Some?);
    }
  }

  lemma AskKeeps(q: Queue, count: nat, key: nat, ok: bool)
    requires |q| <= count && count > 0
    ensures !Ask(q, count, key, ok).1.QMiss? ==> Ask(q, count, key, ok).0 == q
  {
  }

  /** The search for a key in a picture of the queue. */
  lemma SearchInPicture<V>(c: State<V>, q: Queue, key: nat)
    requires Pictures(c, q)
    ensures c.Valid() && |q| <= |c.slots| && |c.slots| > 0
    ensures Search(c, key).1.Hit? <==> HoldsFilled(q, key)
    ensures Search(c, key).1.AssertionFailed? <==> Ask(q, |c.slots|, key, true).1.QFailed?
  {
    PictureBounds(c, q);
    FetchRefines(c, q, key, None);
    hide Pictures, Search;
  }

  /** After any run from cleared memory no key is in two slots, save that unused slots all read zero. */
  lemma SlotsDistinct<V>(count: nat, zero: V, calls: seq<Call<V>>, i: nat, j: nat)
    requires count > 0 && i < j < count
    ensures var s := Served(Cleared(count, zero), calls).c.slots;
            |s| == count && (s[i].idx == s[j].idx ==> s[i].idx == 0 && !s[i].valid && !s[j].valid)
  {
    var c0 := Cleared(count, zero);
    var c, q := Served(c0, calls).c, Run(Start(), count, Requests(calls)).q;
    RunRefines(c0, Start(), calls);
    ZeroNeverQueued(count, Requests(calls));
    hide Run, Served, Cleared;
    if i < |q| {
      assert SlotHolds(c, i, q[Age(c.next, |q|, count, i)]);
      if j < |q| {
        assert SlotHolds(c, j, q[Age(c.next, |q|, count, j)]);
      }
    }
  }

  /** The assertion in the search fails after a run exactly on a key among the last `count` misses whose
      fill failed, or on key zero while fewer lookups than that have missed. */
  lemma SearchFailsExactly<V>(count: nat, zero: V, calls: seq<Call<V>>, key: nat)
    requires count > 0
    ensures var e := Served(Cleared(count, zero), calls);
            Search(e.c, key).1.AssertionFailed? <==> FailedOf(e.missed, count, key) || (key == 0 && |e.missed| < count)
  {
    hide Run, Served, Search, Ask, Cleared, Pictures, FilledKeys, Holds, FailedOf;
    var c0 := Cleared(count, zero);
    RunRefines(c0, Start(), calls);
    FailsExactly(count, Requests(calls), key, true);
    var e, r := Served(c0, calls), Run(Start(), count, Requests(calls));
    assert r.missed == [] + e.missed == e.missed;
    SearchInPicture(e.c, r.q, key);
  }

  /** It does so on the very first lookup, if that is for key zero. */
  lemma ZeroFails<V>(count: nat, zero: V)
    requires count > 0
    ensures Search(Cleared(count, zero), 0).1 == AssertionFailed
  {
    assert Cleared(count, zero).slots[0] == Slot(false, 0, zero);
  }

  /** And on the second lookup of a key whose one fill failed. */
  lemma FailedFillFails<V>(count: nat, zero: V, key: nat)
    requires count > 0 && key != 0
    ensures !Served(Cleared(count, zero), [Call(key, None)]).failed
    ensures Search(Served(Cleared(count, zero), [Call(key, None)]).c, key).1 == AssertionFailed
  {
    var c0, call := Cleared(count, zero), Call(key, None);
    assert [call][..0] == [];
    assert Served(c0, [call][..0]).c == c0;
    assert Find(c0.slots, key, 0) == count;
    assert Serve(c0, key, None).0.slots[0] == Slot(false, key, zero);
    assert Served(c0, [call]).c == Serve(c0, key, None).0;
    assert Find(Serve(c0, key, None).0.slots, key, 0) == 0;
  }

  /** With non-zero keys and successful fills it never does. */
  lemma NeverFails<V>(count: nat, zero: V, calls: seq<Call<V>>)
    requires count > 0 && forall j :: 0 <= j < |calls| ==> calls[j].key != 0 && calls[j].read.Some?
    ensures !Served(Cleared(count, zero), calls).failed
  {
    RunRefines(Cleared(count, zero), Start(), calls);
    RunsKeepDistinct(count, Requests(calls));
  }

  /** An entry filled in after a miss is a hit until exactly as many further misses as there are slots;
      the last of them evicts it, and none before does. */
  lemma SlotLifetime<V>(count: nat, zero: V, before: seq<Call<V>>, key: nat, v: V, after: seq<Call<V>>)
    requires count > 0 && Search(Served(Cleared(count, zero), before).c, key).1.Miss?
    ensures var c := Serve(Served(Cleared(count, zero), before).c, key, Some(v)).0;
            var e := Served(c, after);
            && (|e.missed| < count ==> Search(e.c, key).1.Hit? && Times(e.evicted, key) == 0)
            && (|e.missed| == count && |Served(c, after[..|after| - if after == [] then 0 else 1]).missed| != count ==>
                  !Search(e.c, key).1.Hit? && Times(e.evicted, key) == 1)
  {
    hide Served, Run, Step, Search, Serve, Times, Pictures, JustInserted, Distinct;
    var c0 := Cleared(count, zero);
    var m, t := Served(c0, before).c, Run(Start(), count, Requests(before));
    RunRefines(c0, Start(), before);
    RunsKeepDistinct(count, Requests(before));
    SearchMisses(m, t, count, key, v);
    LifetimeFrom(Serve(m, key, Some(v)).0, Step(t, count, Request(key, true)), key, after);
  }

  lemma LifetimeFrom<V>(c: State<V>, t: Trace, key: nat, after: seq<Call<V>>)
    requires c.Valid() && Pictures(c, t.q) && |t.q| <= |c.slots| && JustInserted(t, key)
    ensures var e := Served(c, after);
            && (|e.missed| < |c.slots| ==> Search(e.c, key).1.Hit? && Times(e.evicted, key) == 0)
            && (|e.missed| == |c.slots|
                 && |Served(c, after[..|after| - if after == [] then 0 else 1]).missed| != |c.slots| ==>
                  !Search(e.c, key).1.Hit? && Times(e.evicted, key) == 1)
  {
    hide Served, Run, Search, Times, Pictures, JustInserted, Aged, Ask;
    var n := |after| - if after == [] then 0 else 1;
    var e, r := Served(c, after), Run(t, |c.slots|, Requests(after));
    RunRefines(c, t, after);
    RunRefines(c, t, after[..n]);
    assert Requests(after)[..n] == Requests(after[..n]);
    Lifetime(t, |c.slots|, key, Requests(after));
    SearchInPicture(e.c, r.q, key);
    FilledHeld(r.q, key);
    TimesJoin(t.disposed, e.evicted, key);
    assert after == [] ==> after[..n] == after;
  }

  lemma FilledHeld(q: Queue, key: nat)
    ensures HoldsFilled(q, key) ==> Holds(q, key)
  {
    if HoldsFilled(q, key) {
      var j :| 0 <= j < |q| && q[j] == Entry(key, true);
      assert q[j].key == key;
    }
  }

  /** A miss that is filled makes the key the newest entry. */
  lemma SearchMisses<V>(c: State<V>, t: Trace, count: nat, key: nat, v: V)
    requires Pictures(c, t.q) && count == |c.slots| > 0 && |t.q| <= count && Distinct(t.q)
    requires c.Valid() && Search(c, key).1.Miss?
    ensures var t1 := Step(t, count, Request(key, true));
            JustInserted(t1, key) && |t1.q| <= count && Pictures(Serve(c, key, Some(v)).0, t1.q)
              && |Serve(c, key, Some(v)).0.slots| == count
  {
    FetchRefines(c, t.q, key, Some(v));
    hide Pictures, Search;
  }

  lemma {:induction false} TimesJoin(a: seq<nat>, b: seq<nat>, key: nat)
    ensures Times(a + b, key) == Times(a, key) + Times(b, key)
    decreases |b|
  {
    if b == [] {
      assert a + b == a;
    } else {
      assert (a + b)[..|a + b| - 1] == a + b[..|b| - 1];
      TimesJoin(a, b[..|b| - 1], key);
    }
  }

  /** Conservation: a key has been filled in as often as it has been evicted, and once more if it is in
      a valid slot. */
  lemma SlotsNothingLost<V>(count: nat, zero: V, calls: seq<Call<V>>, key: nat)
    requires count > 0
    ensures var e := Served(Cleared(count, zero), calls);
            Times(FilledKeys(e.missed), key) == Times(e.evicted, key) + if Search(e.c, key).1.Hit? then 1 else 0
  {
    var c0 := Cleared(count, zero);
    var e, r := Served(c0, calls), Run(Start(), count, Requests(calls));
    RunRefines(c0, Start(), calls);
    NothingLost(count, Requests(calls));
    RunsKeepDistinct(count, Requests(calls));
    SearchInPicture(e.c, r.q, key);
    TimesJoin(r.disposed, FilledKeys(r.q), key);
    FilledOnce(r.q, key);
    assert e.missed == r.missed && e.evicted == r.disposed;
  }

  lemma {:induction false} FilledOnce(q: Queue, key: nat)
    requires Distinct(q)
    ensures Times(FilledKeys(q), key) == if HoldsFilled(q, key) then 1 else 0
    decreases |q|
  {
    if q != [] {
      var n := |q| - 1;
      FilledOnce(q[..n], key);
      if q[n].filled {
        TimesAppend(FilledKeys(q[..n]), key, q[n].key);
      } else {
        assert FilledKeys(q) == FilledKeys(q[..n]);
      }
      if HoldsFilled(q, key) {
        var j :| 0 <= j < |q| && q[j] == Entry(key, true);
        assert j < n ==> q[..n][j] == Entry(key, true);
      }
      assert q[n] == Entry(key, true) ==> HoldsFilled(q, key);
      if HoldsFilled(q[..n], key) {
        var j :| 0 <= j < n && q[..n][j] == Entry(key, true);
        assert q[j] == Entry(key, true);
      }
    }
  }

  // ----- the cache object

  class Cache<V(0)> {
    const slots: array<Slot<V>>
    var next: nat

    function View(): State<V>
      reads this, slots
    {
      State(slots[..], next)
    }

    /** sqfs_cache_init: cleared memory. */
    constructor (count: nat, zero: V)
      requires count > 0
      ensures fresh(slots) && slots.Length == count && Pictures(View(), [])
    {
      slots := new Slot<V>[count](_ => Slot(false, 0, zero));
      next := 0;
    }

    /** sqfs_cache_get */
    method Get(key: nat) returns (g: Got)
      requires View().Valid()
      modifies this, slots
      ensures (View(), g) == Search(old(View()), key)
    {
      var i := 0;
      while i < slots.Length
        invariant 0 <= i <= slots.Length && View() == old(View())
        invariant Find(old(slots[..]), key, 0) == Find(old(slots[..]), key, i)
      {
        if slots[i].idx == key {
          return if slots[i].valid then Hit(i) else AssertionFailed;
        }
        i := i + 1;
      }
      i := next;
      next := next + 1;
      next := next % slots.Length;
      var evicted := None;
      if slots[i].valid {
        evicted := Some(slots[i].idx);
        slots[i] := slots[i].(valid := false);
      }
      slots[i] := slots[i].(idx := key);
      assert slots[..] == old(slots[..])[i := Slot(false, key, old(slots[..])[i].entry)];
      g := Miss(i, evicted);
    }

    /** sqfs_cache_entry_mark_valid, once the entry has been filled */
    method MarkValid(i: nat, v: V)
      requires i < slots.Length && !slots[i].valid
      modifies slots
      ensures View() == Fill(old(View()), i, v)
    {
      slots[i] := slots[i].(entry := v);
      slots[i] := slots[i].(valid := true);
    }

    /** Every valid entry is what the disk holds at its key. */
    ghost predicate Faithful(disk: nat -> Option<V>)
      reads this, slots
    {
      forall i :: 0 <= i < slots.Length && slots[i].valid ==> disk(slots[i].idx) == Some(slots[i].entry)
    }

    /** A block fetched through the cache (sqfs_md_cache, sqfs_data_cache): the block on disk, or
        None if it cannot be read. `broken` is a failed assertion. */
    method Fetch(key: nat, disk: nat -> Option<V>, ghost q: Queue) returns (r: Option<V>, broken: bool, ghost q': Queue)
      requires Pictures(View(), q) && Faithful(disk)
      modifies this, slots
      ensures Faithful(disk) && Pictures(View(), q')
      ensures q' == Ask(q, slots.Length, key, disk(key).Some?).0
      ensures broken <==> Ask(q, slots.Length, key, disk(key).Some?).1.QFailed?
      ensures !broken ==> r == disk(key)
    {
      hide Ask, Pictures, Find;
      FetchRefines(View(), q, key, disk(key));
      PictureBounds(View(), q);
      q' := Ask(q, slots.Length, key, disk(key).Some?).0;
      ghost var was := View();
      GetShape(was, key);
      var g := Get(key);
      broken := false;
      match g
      case AssertionFailed => return None, true, q';
      case Hit(i) => r := Some(slots[i].entry);
      case Miss(i, _) =>
        r := disk(key);
        if r.Some? {
          MarkValid(i, r.value);
        }
    }
  }

  lemma GetShape<V>(c: State<V>, key: nat)
    requires c.Valid()
    ensures var (c', g) := Search(c, key);
            && |c'.slots| == |c.slots|
            && (g.Miss? ==> g.i == c.next && c'.slots == c.slots[c.next := Slot(false, key, c.slots[c.next].entry)])
            && (g.Hit? ==> c' == c && g.i < |c.slots| && c.slots[g.i].idx == key && c.slots[g.i].valid)
            && (g.AssertionFailed? ==> c' == c)
  {
  }
}
