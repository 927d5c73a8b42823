/** The chained hash table (hash.c): linked buckets, a power-of-two number of chains, doubling when
there are as many entries as chains. */
module HashTable {
  import opened Bytes

  // ----- masks and powers of two

  function BitAnd(a: nat, b: nat): nat {
    if a == 0 || b == 0 then 0 else (a % 2) * (b % 2) + 2 * BitAnd(a / 2, b / 2)
  }

  predicate PowerOfTwo(n: nat) { n == 1 || (n > 1 && n % 2 == 0 && PowerOfTwo(n / 2)) }

  /** Masking with a power of two less one is the remainder. */
  lemma {:induction false} MaskIsMod(k: nat, c: nat)
    requires PowerOfTwo(c)
    ensures BitAnd(k, c - 1) == k % c
  {
    if c == 1 {
      AndZero(k);
    } else {
      HalfPower(c);
      hide PowerOfTwo, BitAnd;
      MaskIsMod(k / 2, c / 2);
      MaskStep(k, c, c / 2);
    }
  }

  lemma AndZero(k: nat)
    ensures BitAnd(k, 0) == 0 == BitAnd(0, k)
  {
  }

  lemma HalfPower(c: nat)
    requires PowerOfTwo(c) && c > 1
    ensures PowerOfTwo(c / 2) && c / 2 > 0 && c == 2 * (c / 2)
  {
  }

  lemma MaskStep(k: nat, c: nat, h: nat)
    requires h > 0 && c == 2 * h
    requires BitAnd(k / 2, h - 1) == k / 2 % h
    ensures BitAnd(k, c - 1) == k % c
  {
    LowBit(k, c - 1);
    HalfMod(k, h);
    hide BitAnd;
    assert (c - 1) / 2 == h - 1;
  }

  lemma LowBit(k: nat, m: nat)
    requires m % 2 == 1
    ensures BitAnd(k, m) == k % 2 + 2 * BitAnd(k / 2, m / 2)
  {
  }

  lemma HalfMod(k: nat, h: nat)
    requires h > 0
    ensures k % (2 * h) == k % 2 + 2 * (k / 2 % h)
  {
    var q, r := k / 2 / h, k / 2 % h;
    assert k / 2 == q * h + r;
    assert k == q * (2 * h) + (2 * r + k % 2);
    ModUnique(k, 2 * h, q, 2 * r + k % 2);
  }

  const SIZE_T := 0x1_0000_0000_0000_0000

  /** n - 1 in the unsigned arithmetic of sizes. */
  function LessOne(n: nat): nat
    requires n < SIZE_T
  {
    if n == 0 then SIZE_T - 1 else n - 1
  }

  /** The test in sqfs_hash_init accepts exactly the powers of two, and zero. */
  lemma {:induction false} PowerTest(n: nat)
    requires n < SIZE_T
    ensures BitAnd(n, LessOne(n)) == 0 <==> n == 0 || PowerOfTwo(n)
  {
    if n > 1 {
      if n % 2 == 0 {
        PowerTest(n / 2);
        assert (n - 1) / 2 == n / 2 - 1;
      } else {
        AndSelf(n / 2);
        assert (n - 1) / 2 == n / 2;
      }
    }
  }

  /** A table of capacity zero is let through; its mask keeps every key as it is, so there is no key
      whose bucket exists. */
  lemma ZeroCapacity(k: nat)
    requires k < SIZE_T
    ensures BitAnd(0, LessOne(0)) == 0 && BitAnd(k, LessOne(0)) == k
  {
    hide PowerOfTwo, BitAnd;
    AndZero(LessOne(0));
    SizeIsPower();
    MaskIsMod(k, SIZE_T);
  }

  lemma SizeIsPower()
    ensures PowerOfTwo(SIZE_T)
  {
    hide PowerOfTwo;
    Power16(1);
    Power16(0x1_0000);
    Power16(0x1_0000_0000);
    Power16(0x1_0000_0000_0000);
  }

  lemma Power16(c: nat)
    requires c == 1 || PowerOfTwo(c)
    ensures PowerOfTwo(0x1_0000 * c)
  {
    Power4(c);
    Power4(16 * c);
    Power4(16 * (16 * c));
    Power4(16 * (16 * (16 * c)));
  }

  lemma Power4(c: nat)
    requires PowerOfTwo(c)
    ensures PowerOfTwo(16 * c)
  {
    assert PowerOfTwo(2 * c) by { assert 2 * c / 2 == c; }
    assert PowerOfTwo(4 * c) by { assert 4 * c / 2 == 2 * c; }
    assert PowerOfTwo(8 * c) by { assert 8 * c / 2 == 4 * c; }
    assert 16 * c / 2 == 8 * c;
  }

  lemma {:induction false} AndSelf(n: nat)
    ensures BitAnd(n, n) == n
  {
    if n > 0 {
      AndSelf(n / 2);
      var bit := n % 2;
      assert bit == 0 || bit == 1;
      assert n == 2 * (n / 2) + bit;
    }
  }

  // ----- the table

  class Node<V> {
    var next: Node?<V>
    const key: nat
    var value: V

    constructor (key: nat, value: V, next: Node?<V>)
      ensures this.key == key && this.value == value && this.next == next
    {
      this.key := key;
      this.value := value;
      this.next := next;
    }
  }

  /** A chain holds nodes of bucket i, no key twice. */
  ghost predicate ChainOk<V>(c: seq<Node<V>>, i: nat, capacity: nat, nodes: map<nat, Node<V>>)
    requires capacity > 0
  {
    && (forall n :: n in c ==> n.key % capacity == i && n.key in nodes && nodes[n.key] == n)
    && (forall j, l :: 0 <= j < l < |c| ==> c[j].key != c[l].key)
  }

  /** Every key has one node, in the chain of its bucket. */
  ghost predicate Shape<V>(chains: seq<seq<Node<V>>>, nodes: map<nat, Node<V>>) {
    && |chains| > 0
    && (forall i :: 0 <= i < |chains| ==> ChainOk(chains[i], i, |chains|, nodes))
    && (forall k :: k in nodes ==> nodes[k].key == k && nodes[k] in chains[k % |chains|])
  }

  lemma ShapeAdd<V>(chains: seq<seq<Node<V>>>, nodes: map<nat, Node<V>>, b: Node<V>)
    requires Shape(chains, nodes) && b.key !in nodes
    ensures var i := b.key % |chains|; Shape(chains[i := [b] + chains[i]], nodes[b.key := b])
  {
    var i := b.key % |chains|;
    var chains', nodes' := chains[i := [b] + chains[i]], nodes[b.key := b];
    forall l | 0 <= l < |chains'|
      ensures ChainOk(chains'[l], l, |chains'|, nodes')
    {
      assert ChainOk(chains[l], l, |chains|, nodes);
    }
  }

  lemma ShapeRemove<V>(chains: seq<seq<Node<V>>>, nodes: map<nat, Node<V>>, i: nat, j: nat)
    requires Shape(chains, nodes) && i < |chains| && j < |chains[i]|
    ensures Shape(chains[i := chains[i][..j] + chains[i][j + 1..]], nodes - {chains[i][j].key})
    ensures chains[i][j].key in nodes && nodes[chains[i][j].key] == chains[i][j]
  {
    var b := chains[i][j];
    var c := chains[i][..j] + chains[i][j + 1..];
    var chains', nodes' := chains[i := c], nodes - {b.key};
    assert ChainOk(chains[i], i, |chains|, nodes);
    assert b in chains[i];
    forall l | 0 <= l < |chains'|
      ensures ChainOk(chains'[l], l, |chains'|, nodes')
    {
      assert ChainOk(chains[l], l, |chains|, nodes);
      if l == i {
        ChainRemove(chains[i], i, |chains|, nodes, j);
      } else {
        ChainOther(chains[l], l, |chains|, nodes, b);
      }
    }
    forall k | k in nodes'
      ensures nodes'[k] in chains'[k % |chains'|]
    {
      if k % |chains| == i {
        StaysInChain(chains[i], j, nodes[k]);
      }
    }
  }

  lemma ChainRemove<V>(c: seq<Node<V>>, i: nat, capacity: nat, nodes: map<nat, Node<V>>, j: nat)
    requires capacity > 0 && ChainOk(c, i, capacity, nodes) && j < |c|
    ensures ChainOk(c[..j] + c[j + 1..], i, capacity, nodes - {c[j].key})
  {
    var c' := c[..j] + c[j + 1..];
    forall n | n in c'
      ensures n in c && n.key != c[j].key
    {
      var m :| 0 <= m < |c'| && c'[m] == n;
      assert n == if m < j then c[m] else c[m + 1];
    }
  }

  lemma ChainOther<V>(c: seq<Node<V>>, i: nat, capacity: nat, nodes: map<nat, Node<V>>, b: Node<V>)
    requires capacity > 0 && ChainOk(c, i, capacity, nodes) && b.key % capacity != i
    ensures ChainOk(c, i, capacity, nodes - {b.key})
  {
  }

  lemma StaysInChain<V>(c: seq<Node<V>>, j: nat, n: Node<V>)
    requires j < |c| && n in c && n != c[j]
    ensures n in c[..j] + c[j + 1..]
  {
    var m :| 0 <= m < |c| && c[m] == n;
    var c' := c[..j] + c[j + 1..];
    assert c'[if m < j then m else m - 1] == n;
  }

  class Hash<V> {
    var buckets: array<Node?<V>>
    var size: nat

    ghost var chains: seq<seq<Node<V>>>
    ghost var nodes: map<nat, Node<V>>
    ghost var contents: map<nat, V>       // the finite map the table stands for
    ghost var Repr: set<object>

    /** Chain i is the linked list that hangs from bucket i. */
    ghost predicate Linked(i: nat)
      requires i < |chains| == buckets.Length
      reads this, buckets, chains[i]
    {
      var c := chains[i];
      && buckets[i] == (if |c| > 0 then c[0] else null)
      && (forall j {:trigger c[j].next} :: 0 <= j < |c| - 1 ==> c[j].next == c[j + 1])
      && (|c| > 0 ==> c[|c| - 1].next == null)
    }

    ghost predicate AllLinked()
      reads this, buckets, Repr
    {
      |chains| == buckets.Length && forall i :: 0 <= i < |chains| ==> Reachable(chains[i], Repr) && Linked(i)
    }

    ghost predicate Stored()
      reads this, Repr
    {
      contents.Keys == nodes.Keys && forall k :: k in nodes ==> nodes[k] in Repr && nodes[k].value == contents[k]
    }

    /** Capacity is a power of two; every key sits once, in bucket key mod capacity; the size is the
        number of keys; values are those of the map. */
    ghost predicate Valid()
      reads this, buckets, Repr
    {
      && PowerOfTwo(buckets.Length) && |chains| == buckets.Length
      && Shape(chains, nodes) && Stored() && AllLinked()
      && size == |nodes|
    }

    /** sqfs_hash_init, for a capacity it accepts (see PowerTest) */
    constructor (initial: nat)
      requires PowerOfTwo(initial)
      ensures Valid() && contents == map[] && size == 0 && buckets.Length == initial && fresh(buckets) && Repr == {}
    {
      buckets := new Node?<V>[initial](_ => null);
      size := 0;
      chains := seq(initial, _ => []);
      nodes, contents, Repr := map[], map[], {};
    }

    /** The bucket of a key. */
    function Bucket(k: nat): (i: nat)
      requires buckets.Length > 0 && PowerOfTwo(buckets.Length)
      reads this
      ensures i == k % buckets.Length && i < buckets.Length
    {
      MaskIsMod(k, buckets.Length);
      BitAnd(k, buckets.Length - 1)
    }

    lemma LinkedAll(i: nat)
      requires i < |chains| == buckets.Length && AllLinked()
      ensures buckets[i] == After(chains[i], 0)
      ensures forall j {:trigger chains[i][j].next} :: 0 <= j < |chains[i]| ==>
              chains[i][j].next == After(chains[i], j + 1)
    {
      assert Linked(i);
    }

    /** The search along a chain: the node of a key, and the one before it. */
    method Locate(k: nat) returns (n: Node?<V>, prev: Node?<V>, ghost j: nat)
      requires Valid()
      ensures k !in contents <==> n == null
      ensures var c := chains[k % buckets.Length];
              n != null ==>
                && j < |c| && c[j] == n && n.key == k && nodes[k] == n
                && prev == if j > 0 then c[j - 1] else null
    {
      hide Shape, PowerOfTwo, ChainOk, BitAnd, Linked, AllLinked;
      ShapeHas(chains, nodes, k);
      ShapeParts(chains, nodes);
      var i := Bucket(k);
      ghost var c := chains[i];
      j := 0;
      prev := null;
      LinkedAll(i);
      n := buckets[i];
      while n != null && n.key != k
        invariant 0 <= j <= |c| && n == After(c, j)
        invariant prev == (if j > 0 then c[j - 1] else null)
        invariant forall l :: 0 <= l < j ==> c[l].key != k
        decreases |c| - j
      {
        prev := n;
        n := n.next;
        j := j + 1;
      }
      assert n != null ==> n in c;
    }

    /** sqfs_hash_get */
    method Get(k: nat) returns (n: Node?<V>)
      requires Valid()
      ensures n == null <==> k !in contents
      ensures n != null ==> n in Repr && n.key == k && k in nodes && nodes[k] == n && n.value == contents[k]
    {
      var prev;
      ghost var j;
      n, prev, j := Locate(k);
      hide Shape, Linked, AllLinked;
    }

    /** Writing through the pointer that sqfs_hash_get returned. */
    method SetValue(n: Node<V>, v: V)
      requires Valid() && n.key in nodes && nodes[n.key] == n
      modifies n, this`contents
      ensures Valid() && contents == old(contents)[n.key := v]
    {
      hide Shape, PowerOfTwo, AllLinked, Stored;
      KeysApart(chains, nodes);
      n.value := v;
      contents := contents[n.key := v];
      StillLinked();
      StillStored(n);
    }

    twostate lemma StillStored(n: Node<V>)
      requires old(Stored()) && n.key in nodes && nodes[n.key] == n
      requires nodes == old(nodes) && Repr == old(Repr) && contents == old(contents)[n.key := n.value]
      requires forall k :: k in nodes ==> nodes[k].key == k
      requires forall m: Node<V> :: m in Repr && m != n ==> m.value == old(m.value)
      ensures Stored()
    {
    }

    /** The links do not depend on values. */
    twostate lemma StillLinked()
      requires old(AllLinked()) && chains == old(chains) && buckets == old(buckets) && Repr == old(Repr)
      requires unchanged(buckets) && forall m: Node<V> :: m in Repr ==> m.next == old(m.next)
      ensures AllLinked()
    {
      forall i | 0 <= i < |chains|
        ensures Linked(i)
      {
        assert old(Linked(i)) && Reachable(chains[i], Repr);
        LinkedSame(i);
      }
    }

    twostate lemma LinkedSame(l: nat)
      requires |old(chains)| == old(buckets.Length) && |chains| == buckets.Length && l < |chains| && l < |old(chains)|
      requires old(Linked(l)) && chains[l] == old(chains[l]) && buckets[l] == old(buckets[l])
      requires forall n :: n in old(chains[l]) ==> n.next == old(n.next)
      ensures Linked(l)
    {
      forall j | 0 <= j < |chains[l]|
        ensures chains[l][j].next == old(chains[l][j].next)
      {
        assert chains[l][j] in old(chains[l]);
      }
    }

    /** sqfs_hash_add_internal */
    method AddInternal(k: nat, v: V)
      requires Valid() && k !in contents
      modifies this`chains, this`nodes, this`contents, this`Repr, this`size, buckets
      ensures Valid() && buckets == old(buckets) && size == old(size) + 1
      ensures contents == old(contents)[k := v]
      ensures fresh(Repr - old(Repr))
    {
      hide Shape, PowerOfTwo, ChainOk, BitAnd, Linked, AllLinked, Stored;
      NewKey(k);
      ShapeParts(chains, nodes);
      var i := Bucket(k);
      var b := new Node(k, v, buckets[i]);
      ShapeAdd(chains, nodes, b);
      buckets[i] := b;
      size := size + 1;
      chains := chains[i := [b] + chains[i]];
      nodes := nodes[k := b];
      contents := contents[k := v];
      Repr := Repr + {b};
      Relinked(i, b);
      StoredMore(k, b);
    }

    lemma NewKey(k: nat)
      requires Stored() && k !in contents
      ensures k !in nodes
    {
    }

    twostate lemma StoredMore(k: nat, new b: Node<V>)
      requires old(Stored()) && nodes == old(nodes)[k := b] && contents == old(contents)[k := b.value]
               && Repr == old(Repr) + {b}
      requires forall m: Node<V> :: m in old(Repr) ==> m.value == old(m.value)
      ensures Stored()
    {
    }

    /** A node put before the first of chain i. */
    twostate lemma Relinked(i: nat, new b: Node<V>)
      requires old(AllLinked()) && |chains| == |old(chains)| == buckets.Length && i < |chains|
      requires chains == old(chains)[i := [b] + old(chains)[i]] && Repr == old(Repr) + {b}
      requires buckets[i] == b && b.next == old(buckets[i])
      requires forall l :: 0 <= l < |chains| && l != i ==> buckets[l] == old(buckets[l])
      requires forall m: Node<V> :: m in old(Repr) ==> m.next == old(m.next)
      ensures AllLinked()
    {
      hide Linked;
      forall l | 0 <= l < |chains|
        ensures Reachable(chains[l], Repr) && Linked(l)
      {
        assert old(Linked(l)) && Reachable(old(chains[l]), old(Repr));
        if l == i {
          LinkedAdd(i, b);
        } else {
          LinkedSame(l);
        }
      }
    }

    twostate lemma LinkedAdd(i: nat, new b: Node<V>)
      requires |old(chains)| == old(buckets.Length) && |chains| == buckets.Length && i < |chains| && i < |old(chains)|
      requires old(Linked(i)) && chains[i] == [b] + old(chains[i]) && buckets[i] == b && b.next == old(buckets[i])
      requires forall n :: n in old(chains[i]) ==> n.next == old(n.next)
      ensures Linked(i)
    {
      var c, o := chains[i], old(chains[i]);
      forall j | 0 <= j < |o|
        ensures o[j].next == old(o[j].next) && c[j + 1] == o[j]
      {
        assert o[j] in o;
      }
      assert forall j :: 0 < j < |c| - 1 ==> c[j].next == c[j + 1] by {
        forall j | 0 < j < |c| - 1
          ensures c[j].next == c[j + 1]
        {
          assert c[j] == o[j - 1] && c[j + 1] == o[j];
        }
      }
    }

    /** sqfs_hash_remove */
    method Remove(k: nat)
      requires Valid()
      modifies this`chains, this`nodes, this`contents, this`size, buckets, Repr
      ensures Valid() && buckets == old(buckets) && size <= old(size)
      ensures contents == old(contents) - {k} && Repr == old(Repr)
    {
      hide Valid;
      var n, prev, j := Locate(k);
      if n == null {
        assert contents == contents - {k};
      } else {
        Unlink(n, prev, j);
      }
    }

    /** Take node j of its chain out of the list. */
    method Unlink(n: Node<V>, prev: Node?<V>, ghost j: nat)
      requires Valid() && j < |chains[n.key % buckets.Length]| && chains[n.key % buckets.Length][j] == n
      requires prev == if j > 0 then chains[n.key % buckets.Length][j - 1] else null
      modifies this`chains, this`nodes, this`contents, this`size, buckets, Repr
      ensures Valid() && buckets == old(buckets) && size == old(size) - 1
      ensures contents == old(contents) - {n.key} && Repr == old(Repr)
    {
      hide Shape, PowerOfTwo, ChainOk, BitAnd, Linked, AllLinked, Stored, Reachable;
      ShapeParts(chains, nodes);
      ghost var k := n.key;
      var i := Bucket(n.key);
      ghost var c := chains[i];
      ShapeHas(chains, nodes, k);
      ShapeRemove(chains, nodes, i, j);
      LinkedAll(i);
      InRepr(i);
      assert prev != null ==> prev in c && nodes[prev.key] == prev;
      if prev == null {
        buckets[i] := n.next;
      } else {
        prev.next := n.next;
      }
      size := size - 1;
      chains := chains[i := c[..j] + c[j + 1..]];
      nodes := nodes - {k};
      contents := contents - {k};
      LinkedCut(i, j, c);
      SubChain(c, j, Repr);
      Uncoupled(i);
      StoredLess(k);
    }

    twostate lemma StoredLess(k: nat)
      requires old(Stored()) && nodes == old(nodes) - {k} && contents == old(contents) - {k} && Repr == old(Repr)
      requires forall m: Node<V> :: m in Repr ==> m.value == old(m.value)
      ensures Stored()
    {
    }

    lemma InRepr(i: nat)
      requires i < |chains| && AllLinked()
      ensures Reachable(chains[i], Repr)
    {
    }

    lemma SubChain(c: seq<Node<V>>, j: nat, ns: set<object>)
      requires j < |c| && Reachable(c, ns)
      ensures Reachable(c[..j] + c[j + 1..], ns)
    {
    }

    /** The other chains are as before. */
    twostate lemma Uncoupled(i: nat)
      requires old(AllLinked()) && |chains| == |old(chains)| == buckets.Length && i < |chains| && Repr == old(Repr)
      requires Linked(i) && Reachable(chains[i], Repr)
      requires forall l :: 0 <= l < |chains| && l != i ==> chains[l] == old(chains[l]) && buckets[l] == old(buckets[l])
      requires forall l, n :: 0 <= l < |chains| && l != i && n in old(chains[l]) ==> n.next == old(n.next)
      ensures AllLinked()
    {
      hide Linked;
      forall l | 0 <= l < |chains|
        ensures Reachable(chains[l], Repr) && Linked(l)
      {
        assert old(Linked(l)) && Reachable(old(chains[l]), old(Repr));
        if l != i {
          LinkedSame(l);
        }
      }
    }

    /** What remains of chain o once node j has been unlinked. */
    lemma LinkedCut(i: nat, j: nat, o: seq<Node<V>>)
      requires i < |chains| == buckets.Length && j < |o| && chains[i] == o[..j] + o[j + 1..]
      requires buckets[i] == if j == 0 then After(o, 1) else o[0]
      requires forall x {:trigger o[x].next} :: 0 <= x < |o| && x + 1 != j ==> o[x].next == After(o, x + 1)
      requires j > 0 ==> o[j - 1].next == After(o, j + 1)
      ensures Linked(i)
    {
      var c := chains[i];
      forall x | 0 <= x < |c| - 1
        ensures c[x].next == c[x + 1]
      {
        if x < j {
          assert c[x] == o[x];
        } else {
          assert c[x] == o[x + 1];
        }
        assert c[x + 1] == if x + 1 < j then o[x + 1] else o[x + 2];
      }
      if |c| > 0 {
        assert c[|c| - 1] == if |c| - 1 < j then o[|c| - 1] else o[|c|];
      }
    }

    /** The copying of one old chain into the new table: `had` is the old map, of which the keys in
        `done` have been copied. */
    method CopyChain(head: Node?<V>, ghost c: seq<Node<V>>, ghost had: map<nat, V>, ghost done: set<nat>)
      requires Valid() && contents == Restrict(had, done) && ChainReady(head, c, had)
      requires forall j :: 0 <= j < |c| ==> c[j].key !in done
      requires forall j, l :: 0 <= j < l < |c| ==> c[j].key != c[l].key
      modifies this`chains, this`nodes, this`contents, this`Repr, this`size, buckets
      ensures Valid() && buckets == old(buckets)
      ensures contents == Restrict(had, done + KeysOf(c, |c|))
      ensures fresh(Repr - old(Repr))
    {
      hide Valid, Restrict, KeysOf;
      var b := head;
      ghost var j := 0;
      NoKeys(c, done);
      while b != null
        invariant 0 <= j <= |c| && b == After(c, j)
        invariant Valid() && buckets == old(buckets)
        invariant contents == Restrict(had, done + KeysOf(c, j))
        invariant fresh(Repr - old(Repr))
        decreases |c| - j
      {
        assert b == c[j];
        NextKey(c, had, done, j);
        AddInternal(b.key, b.value);
        b := b.next;
        j := j + 1;
      }
    }

    /** The copying of all old chains into the empty new table. */
    method CopyAll(ob: array<Node?<V>>, ghost was: seq<seq<Node<V>>>, ghost ns: map<nat, Node<V>>,
                   ghost had: map<nat, V>)
      requires Valid() && contents == map[] && ob != buckets && ob.Length == |was| > 0
      requires Shape(was, ns) && had.Keys == ns.Keys
      requires forall i :: 0 <= i < ob.Length ==> ChainReady(ob[i], was[i], had)
      modifies this`chains, this`nodes, this`contents, this`Repr, this`size, buckets
      ensures Valid() && buckets == old(buckets)
      ensures contents == had && fresh(Repr - old(Repr))
    {
      hide Valid, Shape, Restrict, KeysOf;
      var oc := ob.Length;
      ghost var done := {};
      RestrictNone(had);
      var i := 0;
      while i < oc
        invariant 0 <= i <= oc && buckets == old(buckets)
        invariant Valid() && fresh(Repr - old(Repr))
        invariant contents == Restrict(had, done)
        invariant forall k :: k in done <==> k in had && k % oc < i
      {
        ChainApart(was, ns, i);
        CopyChain(ob[i], was[i], had, done);
        NextChain(was, ns, i);
        done := done + KeysOf(was[i], |was[i]|);
        i := i + 1;
      }
      RestrictAll(had, done);
    }

    /** sqfs_hash_double: twice the chains, every entry copied over. */
    method Double()
      requires Valid()
      modifies this
      ensures Valid() && fresh(buckets) && buckets.Length == 2 * old(buckets.Length) && size == old(size)
      ensures contents == old(contents) && fresh(Repr)
    {
      hide Valid, Shape, ChainReady;
      var ob, oc := buckets, buckets.Length;
      ghost var was, had, ns := chains, contents, nodes;
      OldChains();
      buckets := new Node?<V>[oc * 2](_ => null);
      size := 0;
      chains := seq(2 * oc, _ => []);
      nodes, contents, Repr := map[], map[], {};
      EmptyValid(oc);
      CopyAll(ob, was, ns, had);
      SizeIs();
    }

    lemma NonEmpty()
      requires Valid()
      ensures buckets.Length > 0
    {
    }

    lemma SizeIs()
      requires Valid()
      ensures size == |contents.Keys|
    {
    }

    /** The chains of the table as they are to be copied. */
    lemma OldChains()
      requires Valid()
      ensures |chains| == buckets.Length > 0 && PowerOfTwo(buckets.Length) && Shape(chains, nodes)
              && size == |contents.Keys|
      ensures contents.Keys == nodes.Keys
      ensures forall i :: 0 <= i < |chains| ==> ChainReady(buckets[i], chains[i], contents)
    {
      hide Linked, Shape;
      ShapeParts(chains, nodes);
      forall i | 0 <= i < |chains|
        ensures ChainReady(buckets[i], chains[i], contents)
      {
        LinkedAll(i);
        forall j | 0 <= j < |chains[i]|
          ensures chains[i][j].key in contents && contents[chains[i][j].key] == chains[i][j].value
        {
          assert chains[i][j] in chains[i];
        }
      }
    }

    lemma EmptyValid(oc: nat)
      requires PowerOfTwo(oc) && buckets.Length == 2 * oc && chains == seq(2 * oc, _ => [])
      requires nodes == map[] && contents == map[] && size == 0
      requires forall i :: 0 <= i < buckets.Length ==> buckets[i] == null
      ensures Valid()
    {
      hide PowerOfTwo;
      TwicePower(oc);
      assert Stored();
      assert AllLinked();
      hide Stored, AllLinked, Linked;
      assert Shape(chains, nodes);
    }

    lemma TwicePower(c: nat)
      requires PowerOfTwo(c)
      ensures PowerOfTwo(2 * c)
    {
      assert 2 * c / 2 == c;
    }

    /** sqfs_hash_add: afterwards there are at least as many chains as entries. */
    method Add(k: nat, v: V)
      requires Valid() && size <= buckets.Length && k !in contents
      modifies this, buckets
      ensures Valid() && size <= buckets.Length
      ensures contents == old(contents)[k := v]
      ensures buckets.Length == old(buckets.Length) || buckets.Length == 2 * old(buckets.Length)
      ensures buckets == old(buckets) || fresh(buckets)
      ensures fresh(Repr - old(Repr))
    {
      hide Valid;
      NonEmpty();
      if size >= buckets.Length {
        Double();
      }
      AddInternal(k, v);
    }
  }

  lemma KeysApart<V>(chains: seq<seq<Node<V>>>, nodes: map<nat, Node<V>>)
    requires Shape(chains, nodes)
    ensures forall k :: k in nodes ==> nodes[k].key == k
  {
  }

  lemma NoKeys<V>(c: seq<Node<V>>, done: set<nat>)
    ensures done + KeysOf(c, 0) == done
  {
  }

  lemma RestrictNone<V>(m: map<nat, V>)
    ensures Restrict(m, {}) == map[]
  {
  }

  lemma RestrictAll<V>(m: map<nat, V>, keys: set<nat>)
    requires m.Keys <= keys
    ensures Restrict(m, keys) == m
  {
  }

  /** The part of a map on some keys. */
  ghost function Restrict<V>(m: map<nat, V>, keys: set<nat>): map<nat, V> { map k | k in m && k in keys :: m[k] }

  /** Keys of the first j nodes of a chain. */
  ghost function KeysOf<V>(c: seq<Node<V>>, j: nat): set<nat>
    requires j <= |c|
  {
    set l | 0 <= l < j :: c[l].key
  }

  lemma NextKey<V>(c: seq<Node<V>>, had: map<nat, V>, done: set<nat>, j: nat)
    requires j < |c| && c[j].key in had && c[j].key !in done
    requires forall j, l :: 0 <= j < l < |c| ==> c[j].key != c[l].key
    ensures c[j].key !in Restrict(had, done + KeysOf(c, j))
    ensures done + KeysOf(c, j + 1) == done + KeysOf(c, j) + {c[j].key}
    ensures Restrict(had, done + KeysOf(c, j + 1)) == Restrict(had, done + KeysOf(c, j))[c[j].key := had[c[j].key]]
  {
    assert KeysOf(c, j + 1) == KeysOf(c, j) + {c[j].key};
  }

  /** The keys of chain i are those of its bucket. */
  lemma NextChain<V>(chains: seq<seq<Node<V>>>, nodes: map<nat, Node<V>>, i: nat)
    requires Shape(chains, nodes) && i < |chains|
    ensures forall k :: k in KeysOf(chains[i], |chains[i]|) <==> k in nodes && k % |chains| == i
  {
    hide Shape;
    ChainApart(chains, nodes, i);
    ShapeHas(chains, nodes, i);
    forall k | k in nodes && k % |chains| == i
      ensures k in KeysOf(chains[i], |chains[i]|)
    {
      var j :| 0 <= j < |chains[i]| && chains[i][j] == nodes[k];
      assert chains[i][j].key == k;
    }
  }

  /** Along a chain every key is met once, and the keys of the bucket are those of the chain. */
  lemma ChainApart<V>(chains: seq<seq<Node<V>>>, nodes: map<nat, Node<V>>, i: nat)
    requires Shape(chains, nodes) && i < |chains|
    ensures forall k :: k in nodes && k % |chains| == i ==> nodes[k].key == k && nodes[k] in chains[i]
    ensures forall n :: n in chains[i] ==> n.key in nodes && nodes[n.key] == n && n.key % |chains| == i
    ensures forall j :: 0 <= j < |chains[i]| ==> chains[i][j] in chains[i]
    ensures forall j, l :: 0 <= j < l < |chains[i]| ==> chains[i][j].key != chains[i][l].key
  {
    assert ChainOk(chains[i], i, |chains|, nodes);
  }

  /** A key is in its bucket or nowhere; no chain holds a key twice. */
  lemma ShapeHas<V>(chains: seq<seq<Node<V>>>, nodes: map<nat, Node<V>>, k: nat)
    requires Shape(chains, nodes)
    ensures |chains| > 0
    ensures k in nodes ==>
              var c := chains[k % |chains|];
              nodes[k].key == k && exists j :: 0 <= j < |c| && c[j] == nodes[k]
    ensures NoRepeat(chains[k % |chains|])
  {
    assert ChainOk(chains[k % |chains|], k % |chains|, |chains|, nodes);
  }

  lemma ShapeParts<V>(chains: seq<seq<Node<V>>>, nodes: map<nat, Node<V>>)
    requires Shape(chains, nodes)
    ensures |chains| > 0
    ensures forall i, n :: 0 <= i < |chains| && n in chains[i] ==>
            n.key in nodes && nodes[n.key] == n && n.key % |chains| == i
  {
    forall i, n | 0 <= i < |chains| && n in chains[i]
      ensures n.key in nodes && nodes[n.key] == n && n.key % |chains| == i
    {
      assert ChainOk(chains[i], i, |chains|, nodes);
    }
  }

  /** The y-th node, or null past the end. */
  ghost function After<V>(c: seq<Node<V>>, y: nat): Node?<V> { if y < |c| then c[y] else null }

  /** A linked chain whose nodes hold what the map says. */
  ghost predicate ChainReady<V>(head: Node?<V>, c: seq<Node<V>>, had: map<nat, V>)
    reads c
  {
    && head == After(c, 0)
    && (forall j {:trigger c[j].next} :: 0 <= j < |c| ==> c[j].next == After(c, j + 1))
    && (forall j :: 0 <= j < |c| ==> c[j].key in had && had[c[j].key] == c[j].value)
  }

  ghost predicate NoRepeat<V>(c: seq<Node<V>>) { forall j, l :: 0 <= j < l < |c| ==> c[j] != c[l] }

  ghost predicate Reachable<V>(c: seq<Node<V>>, nodes: set<object>) { forall n :: n in c ==> n in nodes }
}
