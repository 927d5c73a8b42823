/** Reading metadata through the block caches (fs.c): the flat stream, whichever cache lies beneath. */
module CachedRead {
  import opened Bytes
  import opened Metadata
  import FifoCache
  import Shared = SharedCache
  import Lookups = SharedLookups

  // ----- the single-threaded cache

  function MdDisk(img: Image): nat -> Option<MdBlock> { (pos: nat) => MdBlockRead(img, pos) }

  /** sqfs_md_read over sqfs_md_cache: the flat stream is read, or an assertion in the cache fails
      (`broken`). That cannot happen in a cache without failed fills, since no table starts at 0. */
  method MdRead(img: Image, cache: FifoCache.Cache<MdBlock>, cur: Cursor, size: nat, keep: bool,
                ghost q: FifoCache.Queue)
    returns (ok: bool, broken: bool, cur': Cursor, buf: seq<byte>, ghost q': FifoCache.Queue)
    requires ValidCursor(img, cur) && FifoCache.Pictures(cache.View(), q) && cache.Faithful(MdDisk(img))
    modifies cache, cache.slots
    ensures FifoCache.Pictures(cache.View(), q') && cache.Faithful(MdDisk(img))
    ensures FifoCache.AllFilled(q) && cur.block > 0 ==> !broken && (ok ==> FifoCache.AllFilled(q'))
    ensures !broken ==> (ok <==> size <= |Stream(img, cur)|)
    ensures ok ==> !broken && Advance(img, cur, size) == Some(cur')
    ensures ok ==> ValidCursor(img, cur') && Stream(img, cur') == Stream(img, cur)[size..]
    ensures ok ==> buf == if keep then Stream(img, cur)[..size] else []
  {
    hide MdBlockRead, Flat, FifoCache.Pictures, FifoCache.Ask, FifoCache.AllFilled, FifoCache.Cache.Faithful,
         FifoCache.Cache.View;
    var pos := cur.block;
    var left := size;
    ok, broken, cur', buf, q' := true, false, cur, [], q;
    while left > 0
      invariant ok && !broken && 0 <= left <= size && cur.block <= pos
      invariant left > 0 ==> pos == cur'.block
      invariant FifoCache.Pictures(cache.View(), q') && cache.Faithful(MdDisk(img))
      invariant FifoCache.AllFilled(q) && cur.block > 0 ==> FifoCache.AllFilled(q')
      invariant ValidCursor(img, cur') && Advance(img, cur, size) == Advance(img, cur', left)
      invariant size - left <= |Stream(img, cur)| && Stream(img, cur') == Stream(img, cur)[size - left..]
      invariant buf == if keep then Stream(img, cur)[..size - left] else []
      decreases left, |img.bytes| - pos
    {
      CacheBounds(cache, q');
      KeepsFilled(q', cache.slots.Length, pos, MdDisk(img)(pos).Some?);
      var r;
      r, broken, q' := cache.Fetch(pos, MdDisk(img), q');
      if broken || r.None? {
        return false, broken, cur', buf, q';
      }
      var data := r.value.data;
      var take := |data| - cur'.offset;
      if take > left {
        take := left;
      }
      if keep {
        buf := buf + data[cur'.offset..cur'.offset + take];
      }
      StepConsumes(img, cur, cur', size - left, take, left - take);
      pos := pos + r.value.diskSize;
      left := left - take;
      cur' := cur'.(offset := cur'.offset + take);
      if cur'.offset == |data| {
        cur' := Cursor(pos, 0);
      }
    }
    AdvanceConsumes(img, cur, size);
  }

  lemma CacheBounds(cache: FifoCache.Cache<MdBlock>, q: FifoCache.Queue)
    requires FifoCache.Pictures(cache.View(), q)
    ensures |q| <= cache.slots.Length && cache.slots.Length > 0
  {
    FifoCache.PictureBounds(cache.View(), q);
  }

  /** Without failed fills, a lookup of a position other than zero fails no assertion. */
  lemma KeepsFilled(q: FifoCache.Queue, count: nat, key: nat, ok: bool)
    requires |q| <= count && count > 0
    ensures FifoCache.AllFilled(q) && key > 0 ==>
              && !FifoCache.Ask(q, count, key, ok).1.QFailed?
              && (ok ==> FifoCache.AllFilled(FifoCache.Ask(q, count, key, ok).0))
  {
    if FifoCache.AllFilled(q) && FifoCache.Holds(q, key) {
      var j :| 0 <= j < |q| && q[j].key == key;
      assert q[j] == FifoCache.Entry(key, true);
    }
  }

  // ----- the shared caches

  /** The shared caches over an image. Block indexes are whatever `index` says. */
  function ImageEnv(img: Image, blockSize: nat, hash: nat -> nat, count: Shared.CacheId -> nat,
                    headerOf: Shared.Key -> nat,
                    index: nat -> Option<Shared.Content>): Shared.Env
  {
    Shared.Env(hash, count, (k: Shared.Key, h: nat) => FreshRead(img, blockSize, index, k, h), headerOf)
  }

  /** A fresh read of a block: sqfs_md_block_read or sqfs_data_block_read. */
  function FreshRead(img: Image, blockSize: nat, index: nat -> Option<Shared.Content>, k: Shared.Key,
                     h: nat): Option<Shared.Content> {
    match k.cache
    case Md =>
      (match MdBlockRead(img, k.pos)
       case None => None
       case Some(b) => Some(Shared.Content(b.data, b.diskSize)))
    case Index => index(k.pos)
    case _ =>
      if h >= 0x1_0000_0000 then None else
      match DataBlockRead(img, k.pos, h, blockSize)
      case None => None
      case Some(data) => Some(Shared.Content(data, 0))
  }

  /** In every interleaving, answer j is for the j-th lookup answered, as its thread had begun it: for
      metadata the block at the position asked and its size on disk, for data the block there. */
  lemma LookupsReadImage(img: Image, blockSize: nat, index: nat -> Option<Shared.Content>, env: Shared.Env,
                         slots: set<Shared.SlotId>, threads: set<Shared.Tid>, acts: seq<Shared.Action>,
                         s: Shared.State, j: nat)
    requires env == ImageEnv(img, blockSize, env.hash, env.count, env.headerOf, index) && env.Valid()
    requires Shared.Reached(env, slots, threads, acts, s) && j < |Lookups.Asked(acts)|
    ensures j < |s.log|
    ensures var e, key := s.log[j], Lookups.Asked(acts)[j];
            && e.key == key
            && (key.cache == Shared.Md ==> MdBlockRead(img, key.pos) == Some(MdBlock(e.content.data, e.diskSize)))
            && (key.cache == Shared.Data || key.cache == Shared.Frag ==>
                  && env.headerOf(key) < 0x1_0000_0000
                  && DataBlockRead(img, key.pos, env.headerOf(key), blockSize) == Some(e.content.data))
  {
    hide MdBlockRead, DataBlockRead, Shared.Reached, Lookups.Asked;
    Lookups.LookupsAnswerRequests(env, slots, threads, acts, s);
    var e, key := s.log[j], Lookups.Asked(acts)[j];
    assert Lookups.Answers(env, e, key);
    assert env.disk(key, env.headerOf(key)) == FreshRead(img, blockSize, index, key, env.headerOf(key));
  }

  /** Metadata lookups, each at the position the one before moved to. */
  predicate Consecutive(es: seq<Shared.Fetched>, pos: nat) {
    es != [] ==> es[0].key == Shared.Key(Shared.Md, pos) && Consecutive(es[1..], pos + es[0].diskSize)
  }

  function Joined(es: seq<Shared.Fetched>): seq<byte> { if es == [] then [] else es[0].content.data + Joined(es[1..]) }

  function EndPos(es: seq<Shared.Fetched>, pos: nat): nat {
    if es == [] then pos else EndPos(es[1..], pos + es[0].diskSize)
  }

  /** What a thread gets that reads on from block to block is the flat stream, whatever other threads do
      in between. */
  lemma {:induction false} LookupsAreFlat(img: Image, es: seq<Shared.Fetched>, pos: nat)
    requires Consecutive(es, pos)
    requires forall e <- es :: e.key.cache == Shared.Md ==>
               MdBlockRead(img, e.key.pos) == Some(MdBlock(e.content.data, e.diskSize))
    ensures Flat(img, pos) == Joined(es) + Flat(img, EndPos(es, pos))
    decreases |es|
  {
    hide MdBlockRead, Flat;
    if es != [] {
      var e := es[0];
      assert e in es;
      FlatStep(img, pos, MdBlock(e.content.data, e.diskSize));
      LookupsAreFlat(img, es[1..], pos + e.diskSize);
    }
  }

  /** Both together: lookups of a run, the first for the block at `pos` and each of the others for the
      position the answer before moved to, are answered with the flat stream. */
  lemma SharedReadsAreFlat(img: Image, blockSize: nat, index: nat -> Option<Shared.Content>, env: Shared.Env,
                           slots: set<Shared.SlotId>, threads: set<Shared.Tid>, acts: seq<Shared.Action>,
                           s: Shared.State, js: seq<nat>, pos: nat)
    requires env == ImageEnv(img, blockSize, env.hash, env.count, env.headerOf, index) && env.Valid()
    requires Shared.Reached(env, slots, threads, acts, s)
    requires ReadsOn(Lookups.Asked(acts), s.log, js, pos)
    ensures var es := Answered(s.log, js); Flat(img, pos) == Joined(es) + Flat(img, EndPos(es, pos))
  {
    hide MdBlockRead, Shared.Reached, Joined, EndPos, ImageEnv, Lookups.Asked;
    Lookups.LookupsAnswerRequests(env, slots, threads, acts, s);
    forall j | 0 <= j < |Lookups.Asked(acts)|
      ensures j < |s.log|
      ensures var e, key := s.log[j], Lookups.Asked(acts)[j];
              e.key == key && (key.cache == Shared.Md ==>
                MdBlockRead(img, key.pos) == Some(MdBlock(e.content.data, e.diskSize)))
    {
      LookupsReadImage(img, blockSize, index, env, slots, threads, acts, s, j);
    }
    AnswersFollow(img, Lookups.Asked(acts), s.log, js, pos);
    LookupsAreFlat(img, Answered(s.log, js), pos);
  }

  /** Lookups number js: the first is for the metadata block at `pos`, each of the others for where the
      answer to the one before said to go on. */
  predicate ReadsOn(asked: seq<Shared.Key>, log: seq<Shared.Fetched>, js: seq<nat>, pos: nat) {
    js != [] ==>
      && js[0] < |asked| && js[0] < |log| && asked[js[0]] == Shared.Key(Shared.Md, pos)
      && ReadsOn(asked, log, js[1..], pos + log[js[0]].diskSize)
  }

  function Answered(log: seq<Shared.Fetched>, js: seq<nat>): seq<Shared.Fetched> {
    if js == [] || js[0] >= |log| then [] else [log[js[0]]] + Answered(log, js[1..])
  }

  lemma {:induction false} AnswersFollow(img: Image, asked: seq<Shared.Key>, log: seq<Shared.Fetched>, js: seq<nat>,
                                         pos: nat)
    requires ReadsOn(asked, log, js, pos) && |asked| <= |log|
    requires forall j :: 0 <= j < |asked| ==> log[j].key == asked[j]
    requires forall j :: 0 <= j < |asked| && asked[j].cache == Shared.Md ==>
               MdBlockRead(img, asked[j].pos) == Some(MdBlock(log[j].content.data, log[j].diskSize))
    ensures Consecutive(Answered(log, js), pos)
    ensures forall e <- Answered(log, js) :: e.key.cache == Shared.Md ==>
              MdBlockRead(img, e.key.pos) == Some(MdBlock(e.content.data, e.diskSize))
    decreases |js|
  {
    hide MdBlockRead;
    if js != [] {
      AnswersFollow(img, asked, log, js[1..], pos + log[js[0]].diskSize);
    }
  }
}
