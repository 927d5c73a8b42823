/** Canonical Huffman codes and the tables that decode them (win/tinfl.c).

A code is given by the length of each symbol's codeword, as in section 3.2.2 of RFC 1951. The
inflater turns the lengths into a table over the next ten bits and, for longer codewords, small
trees in a flat array. Codewords arrive most significant bit first in a stream that fills bytes
from the least significant bit. */
module Huffman {
  import opened Bytes

  const FAST_BITS := 10
  const FAST_SIZE := 1024
  const MAX_SYMBOLS := 288
  const TREE_SIZE := 576
  const MAX_LENGTH := 15

  // ----- bits

  function Pow2(n: nat): (p: nat)
    ensures p > 0
  {
    if n == 0 then 1 else 2 * Pow2(n - 1)
  }

  lemma Pow2Values()
    ensures Pow2(9) == 512 && Pow2(10) == 1024 && Pow2(15) == 32768
  {
    assert Pow2(3) == 8;
    assert Pow2(6) == 64;
    assert Pow2(9) == 512;
    assert Pow2(12) == 4096;
  }

  /** v >> n */
  function Shift(v: nat, n: nat): nat { if n == 0 then v else Shift(v / 2, n - 1) }

  function Bit(v: nat, i: nat): nat { Shift(v, i) % 2 }

  /** The first d bits of a stream whose next bit is the lowest of b, read as a number with the
      first bit most significant. Applied to a d-bit number it reverses its bits. */
  function Prefix(b: nat, d: nat): nat { if d == 0 then 0 else 2 * Prefix(b, d - 1) + Bit(b, d - 1) }

  lemma {:induction false} ShiftStep(v: nat, n: nat)
    ensures Shift(v, n + 1) == Shift(v, n) / 2
  {
    if n > 0 {
      ShiftStep(v / 2, n - 1);
    }
  }

  lemma {:induction false} ShiftTwice(v: nat, a: nat, b: nat)
    ensures Shift(Shift(v, a), b) == Shift(v, a + b)
  {
    if a > 0 {
      ShiftTwice(v / 2, a - 1, b);
    }
  }

  lemma {:induction false} ShiftDivides(v: nat, n: nat)
    ensures Shift(v, n) == v / Pow2(n)
  {
    if n > 0 {
      ShiftDivides(v / 2, n - 1);
      HalfDiv(v, Pow2(n - 1));
    }
  }

  lemma HalfDiv(v: nat, p: nat)
    requires p > 0
    ensures v / 2 / p == v / (2 * p)
  {
    var q, r := v / 2 / p, v / 2 % p;
    DivMod(v / 2, p);
    DoubleMul(q, p);
    ModUnique(v, 2 * p, q, 2 * r + v % 2);
  }

  lemma DoubleMul(q: nat, p: nat)
    ensures q * (2 * p) == 2 * (q * p)
  {
  }

  lemma {:induction false} PrefixBound(b: nat, d: nat)
    ensures Prefix(b, d) < Pow2(d)
  {
    if d > 0 {
      PrefixBound(b, d - 1);
    }
  }

  /** Dropping the last bits of a prefix gives a shorter prefix. */
  lemma {:induction false} PrefixShift(b: nat, d: nat, a: nat)
    requires a <= d
    ensures Shift(Prefix(b, d), d - a) == Prefix(b, a)
    decreases d
  {
    if a < d {
      assert Prefix(b, d) / 2 == Prefix(b, d - 1);
      PrefixShift(b, d - 1, a);
    }
  }

  /** The lowest bit of a number becomes the highest of its reversal. */
  lemma {:induction false} PrefixLowBit(c: nat, n: nat)
    requires n > 0
    ensures Prefix(c, n) == (if c % 2 == 0 then 0 else Pow2(n - 1)) + Prefix(c / 2, n - 1)
  {
    if n > 1 {
      PrefixLowBit(c, n - 1);
      assert Bit(c, n - 1) == Bit(c / 2, n - 2);
    }
  }

  lemma {:induction false} BitLow(b: nat, n: nat, i: nat)
    requires i < n
    ensures Bit(b % Pow2(n), i) == Bit(b, i)
    decreases n
  {
    var p := Pow2(n - 1);
    ModHalf(b, p);
    if i > 0 {
      BitLow(b / 2, n - 1, i - 1);
    }
  }

  lemma ModHalf(b: nat, p: nat)
    requires p > 0
    ensures b % (2 * p) / 2 == b / 2 % p
    ensures b % (2 * p) % 2 == b % 2
  {
    var q, r := b / 2 / p, b / 2 % p;
    assert b / 2 == q * p + r;
    assert b == q * (2 * p) + (2 * r + b % 2);
    ModUnique(b, 2 * p, q, 2 * r + b % 2);
  }

  /** A prefix depends on that many bits only. */
  lemma {:induction false} PrefixLow(b: nat, n: nat, d: nat)
    requires d <= n
    ensures Prefix(b % Pow2(n), d) == Prefix(b, d)
  {
    if d > 0 {
      PrefixLow(b, n, d - 1);
      BitLow(b, n, d - 1);
    }
  }

  /** Reversing twice gives the number back. */
  lemma {:induction false} ReverseTwice(c: nat, n: nat)
    requires c < Pow2(n)
    ensures Prefix(Prefix(c, n), n) == c
  {
    if n > 0 {
      var r := Prefix(c, n);
      ReversedParts(c, n);
      PrefixLow(r, n - 1, n - 1);
      ReverseTwice(c / 2, n - 1);
      assert Prefix(r, n) == 2 * Prefix(r, n - 1) + Bit(r, n - 1);
    }
  }

  /** The highest bit of a reversed number, and the rest of it. */
  lemma ReversedParts(c: nat, n: nat)
    requires n > 0 && c < Pow2(n)
    ensures c / 2 < Pow2(n - 1)
    ensures Bit(Prefix(c, n), n - 1) == c % 2 && Prefix(c, n) % Pow2(n - 1) == Prefix(c / 2, n - 1)
  {
    hide Prefix, Shift, Pow2;
    HalfBound(c, n);
    PrefixLowBit(c, n);
    PrefixBound(c / 2, n - 1);
    SmallDivision(Pow2(n - 1), Prefix(c / 2, n - 1));
    ShiftDivides(Prefix(c, n), n - 1);
  }

  lemma HalfBound(c: nat, n: nat)
    requires n > 0 && c < Pow2(n)
    ensures c / 2 < Pow2(n - 1)
  {
  }

  lemma SmallDivision(p: nat, r: nat)
    requires r < p
    ensures r / p == 0 && r % p == r
    ensures (p + r) / p == 1 && (p + r) % p == r
  {
    ModUnique(r, p, 0, r);
    ModUnique(p + r, p, 1, r);
  }

  lemma PrefixInjective(x: nat, y: nat, n: nat)
    requires x < Pow2(n) && y < Pow2(n) && Prefix(x, n) == Prefix(y, n)
    ensures x == y
  {
    ReverseTwice(x, n);
    ReverseTwice(y, n);
  }

  // ----- the canonical code

  predicate ValidSizes(sizes: seq<nat>) {
    |sizes| <= MAX_SYMBOLS && forall s :: 0 <= s < |sizes| ==> sizes[s] <= MAX_LENGTH
  }

  /** How many of the first k symbols have codewords of length l. */
  function CountIn(sizes: seq<nat>, k: nat, l: nat): nat
    requires k <= |sizes|
  {
    if k == 0 then 0 else CountIn(sizes, k - 1, l) + if sizes[k - 1] == l then 1 else 0
  }

  /** The first codeword of length l: the code of the next shorter length's end, with a zero added. */
  function First(sizes: seq<nat>, l: nat): nat
    decreases l, 0
  {
    if l <= 1 then 0 else 2 * End(sizes, l - 1)
  }

  /** One past the last codeword of length l. */
  function End(sizes: seq<nat>, l: nat): nat
    decreases l, 1
  {
    if l == 0 then 0 else First(sizes, l) + CountIn(sizes, |sizes|, l)
  }

  /** Codewords of one length are consecutive, in order of symbols. */
  function Code(sizes: seq<nat>, s: nat): nat
    requires s < |sizes|
  {
    First(sizes, sizes[s]) + CountIn(sizes, s, sizes[s])
  }

  /** The lengths fill the code space exactly. */
  predicate Complete(sizes: seq<nat>) { First(sizes, 16) == 65536 }

  /** The next bits of b are the codeword of s. */
  predicate Matches(sizes: seq<nat>, b: nat, s: nat)
    requires s < |sizes|
  {
    sizes[s] > 0 && Prefix(b, sizes[s]) == Code(sizes, s)
  }

  lemma {:induction false} CountInMonotone(sizes: seq<nat>, j: nat, k: nat, l: nat)
    requires j <= k <= |sizes|
    ensures CountIn(sizes, j, l) <= CountIn(sizes, k, l)
  {
    if j < k {
      CountInMonotone(sizes, j, k - 1, l);
    }
  }

  /** A codeword lies between the first and the end of its length. */
  lemma CodeRange(sizes: seq<nat>, s: nat)
    requires s < |sizes| && sizes[s] > 0
    ensures First(sizes, sizes[s]) <= Code(sizes, s) < End(sizes, sizes[s])
  {
    assert CountIn(sizes, s + 1, sizes[s]) == CountIn(sizes, s, sizes[s]) + 1;
    CountInMonotone(sizes, s + 1, |sizes|, sizes[s]);
  }

  /** A d-bit number at or past the end of the d-bit codewords extends no shorter codeword either. */
  lemma {:induction false} PastEnd(sizes: seq<nat>, v: nat, d: nat, a: nat)
    requires v >= End(sizes, d) && a <= d
    ensures Shift(v, d - a) >= End(sizes, a)
    decreases d
  {
    if a < d {
      assert v / 2 >= End(sizes, d - 1);
      PastEnd(sizes, v / 2, d - 1, a);
    }
  }

  /** A proper prefix of a codeword is past the end of the codewords of its own length. */
  lemma PrefixPastEnd(sizes: seq<nat>, s: nat, d: nat)
    requires s < |sizes| && d < sizes[s]
    ensures Shift(Code(sizes, s), sizes[s] - d) >= End(sizes, d)
  {
    CodeRange(sizes, s);
    var l := sizes[s];
    assert Code(sizes, s) / 2 >= End(sizes, l - 1);
    PastEnd(sizes, Code(sizes, s) / 2, l - 1, d);
  }

  lemma SameLengthDistinct(sizes: seq<nat>, s: nat, t: nat)
    requires s < t < |sizes| && sizes[s] == sizes[t] > 0
    ensures Code(sizes, s) < Code(sizes, t)
  {
    assert CountIn(sizes, s + 1, sizes[s]) == CountIn(sizes, s, sizes[s]) + 1;
    CountInMonotone(sizes, s + 1, t, sizes[s]);
  }

  /** The code is prefix-free: no bits are the codeword of two symbols. */
  lemma MatchUnique(sizes: seq<nat>, b: nat, s: nat, t: nat)
    requires s < |sizes| && t < |sizes| && Matches(sizes, b, s) && Matches(sizes, b, t)
    ensures s == t
  {
    if sizes[s] < sizes[t] {
      LongerClash(sizes, b, s, t);
    } else if sizes[t] < sizes[s] {
      LongerClash(sizes, b, t, s);
    } else if s < t {
      SameLengthDistinct(sizes, s, t);
    } else if t < s {
      SameLengthDistinct(sizes, t, s);
    }
  }

  lemma LongerClash(sizes: seq<nat>, b: nat, s: nat, t: nat)
    requires s < |sizes| && t < |sizes| && 0 < sizes[s] < sizes[t] && Matches(sizes, b, t)
    ensures !Matches(sizes, b, s)
  {
    PrefixShift(b, sizes[t], sizes[s]);
    PrefixPastEnd(sizes, t, sizes[s]);
    CodeRange(sizes, s);
  }

  /** In a complete code every codeword fits its length. */
  lemma {:induction false} EndFits(sizes: seq<nat>, l: nat)
    requires Complete(sizes) && l <= MAX_LENGTH
    ensures End(sizes, l) <= Pow2(l)
    ensures l == MAX_LENGTH ==> End(sizes, l) == Pow2(l)
    decreases MAX_LENGTH - l
  {
    if l == MAX_LENGTH {
      assert First(sizes, 16) == 2 * End(sizes, 15);
      Pow2Values();
    } else {
      EndFits(sizes, l + 1);
      assert End(sizes, l + 1) >= First(sizes, l + 1);
      assert l > 0 ==> First(sizes, l + 1) == 2 * End(sizes, l);
    }
  }

  lemma {:induction false} NthOfLength(sizes: seq<nat>, k: nat, l: nat, n: nat) returns (s: nat)
    requires k <= |sizes| && n < CountIn(sizes, k, l)
    ensures s < k && sizes[s] == l && CountIn(sizes, s, l) == n
  {
    if n == CountIn(sizes, k - 1, l) {
      s := k - 1;
    } else {
      s := NthOfLength(sizes, k - 1, l, n);
    }
  }

  /** The code is complete: any bits start with the codeword of some symbol. */
  lemma {:induction false} MatchExists(sizes: seq<nat>, b: nat, d: nat) returns (s: nat)
    requires d <= MAX_LENGTH && Prefix(b, d) < End(sizes, d)
    ensures s < |sizes| && 0 < sizes[s] <= d && Matches(sizes, b, s)
  {
    if d > 0 {
      if Prefix(b, d - 1) < End(sizes, d - 1) {
        s := MatchExists(sizes, b, d - 1);
      } else {
        s := NthOfLength(sizes, |sizes|, d, Prefix(b, d) - First(sizes, d));
      }
    }
  }

  /** Every bit string starts with exactly one codeword. */
  lemma ExactlyOneMatch(sizes: seq<nat>, b: nat)
    requires ValidSizes(sizes) && Complete(sizes)
    ensures exists s :: 0 <= s < |sizes| && Matches(sizes, b, s)
    ensures forall s, t :: 0 <= s < |sizes| && 0 <= t < |sizes| && Matches(sizes, b, s) && Matches(sizes, b, t) ==>
            s == t
  {
    EndFits(sizes, MAX_LENGTH);
    PrefixBound(b, MAX_LENGTH);
    var u := MatchExists(sizes, b, MAX_LENGTH);
    forall s, t | 0 <= s < |sizes| && 0 <= t < |sizes| && Matches(sizes, b, s) && Matches(sizes, b, t)
      ensures s == t
    {
      MatchUnique(sizes, b, s, t);
    }
  }

  // ----- the tables

  /** A proper prefix, at least ten bits long, of some codeword: an inner node of a tree. */
  datatype Node = Node(depth: nat, value: nat)
  {
    function Child(c: nat): Node { Node(depth + 1, 2 * value + c) }
  }

  /** Entries of both tables are a symbol, with its length above bit 9 in the first table, or if
      negative -(2 * id + 1) for the node numbered id, whose children are at 2 * id and 2 * id + 1
      of the tree array. Zero means not yet filled. */
  function NodeEntry(id: nat): int { -(2 * id + 1) }
  function FastEntry(sizes: seq<nat>, s: nat): int
    requires s < |sizes|
  {
    sizes[s] * 512 + s
  }

  /** n is the depth-bit prefix of the longer codeword of s. */
  predicate On(sizes: seq<nat>, s: nat, n: Node)
    requires s < |sizes|
  {
    FAST_BITS <= n.depth < sizes[s] && n.value == Shift(Code(sizes, s), sizes[s] - n.depth)
  }

  ghost predicate Inner(sizes: seq<nat>, n: Node) { exists s :: 0 <= s < |sizes| && On(sizes, s, n) }

  /** Numbered nodes are inner nodes, numbered apart, and closed under going up. */
  ghost predicate IdsOk(sizes: seq<nat>, ids: map<Node, nat>) {
    && (forall n :: n in ids ==> Inner(sizes, n) && ids[n] < |ids|)
    && (forall m, n :: m in ids && n in ids && ids[m] == ids[n] ==> m == n)
    && (forall n {:trigger ParentNamed(ids, n)} :: n in ids ==> ParentNamed(ids, n))
  }

  ghost predicate ParentNamed(ids: map<Node, nat>, n: Node) {
    n.depth > FAST_BITS ==> Node(n.depth - 1, n.value / 2) in ids
  }

  /** Every proper prefix of the first k codewords has a number. */
  ghost predicate PathsOk(sizes: seq<nat>, k: nat, ids: map<Node, nat>)
    requires k <= |sizes|
  {
    forall s, n :: 0 <= s < k && On(sizes, s, n) ==> n in ids
  }

  /** Slot x of the first table, for ten next bits x. */
  ghost predicate LookOk(sizes: seq<nat>, k: nat, ids: map<Node, nat>, x: nat, e: int)
    requires k <= |sizes|
  {
    var n := Node(FAST_BITS, Prefix(x, FAST_BITS));
    && (forall s :: 0 <= s < k && sizes[s] <= FAST_BITS && Matches(sizes, x, s) ==> e == FastEntry(sizes, s))
    && (n in ids ==> e == NodeEntry(ids[n]))
    && (n.value >= End(sizes, FAST_BITS) && n !in ids ==> e == 0)
  }

  /** The slot of a tree for node n. */
  ghost predicate SlotOk(sizes: seq<nat>, k: nat, ids: map<Node, nat>, n: Node, e: int)
    requires k <= |sizes|
  {
    && (forall s :: 0 <= s < k && sizes[s] == n.depth && Code(sizes, s) == n.value ==> e == s)
    && (n in ids ==> e == NodeEntry(ids[n]))
    && (n.value >= End(sizes, n.depth) && n !in ids ==> e == 0)
  }

  ghost predicate LooksOk(sizes: seq<nat>, k: nat, ids: map<Node, nat>, look: seq<int>)
    requires k <= |sizes| && |look| == FAST_SIZE
  {
    forall x :: 0 <= x < FAST_SIZE ==> LookOk(sizes, k, ids, x, look[x])
  }

  ghost predicate TreesOk(sizes: seq<nat>, k: nat, ids: map<Node, nat>, tree: seq<int>)
    requires k <= |sizes| && |tree| == TREE_SIZE
  {
    && 2 * |ids| <= TREE_SIZE
    && (forall n, c: nat :: n in ids && c < 2 ==> ChildOk(sizes, k, ids, tree, n, c))
    && (forall j :: 2 * |ids| <= j < TREE_SIZE ==> tree[j] == 0)
  }

  ghost predicate ChildOk(sizes: seq<nat>, k: nat, ids: map<Node, nat>, tree: seq<int>, n: Node, c: nat)
    requires k <= |sizes| && n in ids
  {
    2 * ids[n] + c < |tree| && SlotOk(sizes, k, ids, n.Child(c), tree[2 * ids[n] + c])
  }

  /** Both tables decode the first k codewords. */
  ghost predicate Tables(sizes: seq<nat>, k: nat, look: seq<int>, tree: seq<int>, ids: map<Node, nat>) {
    && k <= |sizes| && |look| == FAST_SIZE && |tree| == TREE_SIZE
    && IdsOk(sizes, ids) && PathsOk(sizes, k, ids) && LooksOk(sizes, k, ids, look) && TreesOk(sizes, k, ids, tree)
  }

  // ----- decoding

  /** An inner node is past the end of the codewords of its length. */
  lemma InnerPastEnd(sizes: seq<nat>, n: Node)
    requires Inner(sizes, n)
    ensures n.value >= End(sizes, n.depth)
  {
    var s :| 0 <= s < |sizes| && On(sizes, s, n);
    PrefixPastEnd(sizes, s, n.depth);
  }

  /** The bits of a matching window trace the path of its symbol. */
  lemma MatchPath(sizes: seq<nat>, b: nat, s: nat, d: nat)
    requires s < |sizes| && Matches(sizes, b, s) && FAST_BITS <= d < sizes[s]
    ensures On(sizes, s, Node(d, Prefix(b, d)))
  {
    PrefixShift(b, sizes[s], d);
  }

  lemma WindowMatches(sizes: seq<nat>, b: nat, s: nat)
    requires s < |sizes| && sizes[s] <= FAST_BITS
    ensures Matches(sizes, b % FAST_SIZE, s) <==> Matches(sizes, b, s)
  {
    Pow2Values();
    PrefixLow(b, FAST_BITS, sizes[s]);
  }

  /** One step down the tree: the child slot reached by the next bit. */
  lemma StepDown(sizes: seq<nat>, look: seq<int>, tree: seq<int>, ids: map<Node, nat>, b: nat, s: nat, d: nat)
    requires Tables(sizes, |sizes|, look, tree, ids)
    requires s < |sizes| && Matches(sizes, b, s) && FAST_BITS <= d < sizes[s]
    ensures Node(d, Prefix(b, d)) in ids
    ensures 0 <= 2 * ids[Node(d, Prefix(b, d))] + Bit(b, d) < TREE_SIZE
    ensures var e := tree[2 * ids[Node(d, Prefix(b, d))] + Bit(b, d)];
            if d + 1 == sizes[s] then e == s
            else Node(d + 1, Prefix(b, d + 1)) in ids && e == NodeEntry(ids[Node(d + 1, Prefix(b, d + 1))])
  {
    hide LooksOk, Inner, On, Shift, Code, End, Pow2;
    MatchPath(sizes, b, s, d);
    var n, c := Node(d, Prefix(b, d)), Bit(b, d);
    assert n in ids;
    assert n.Child(c) == Node(d + 1, Prefix(b, d + 1));
    SlotOfChild(sizes, |sizes|, ids, tree, n, c);
    hide IdsOk, TreesOk;
    if d + 1 < sizes[s] {
      MatchPath(sizes, b, s, d + 1);
    }
  }

  lemma SlotOfChild(sizes: seq<nat>, k: nat, ids: map<Node, nat>, tree: seq<int>, n: Node, c: nat)
    requires k <= |sizes| && |tree| == TREE_SIZE && IdsOk(sizes, ids) && TreesOk(sizes, k, ids, tree)
    requires n in ids && c < 2
    ensures 0 <= 2 * ids[n] + c < 2 * |ids| <= TREE_SIZE
    ensures SlotOk(sizes, k, ids, n.Child(c), tree[2 * ids[n] + c])
  {
    hide SlotOk, Inner;
    assert ChildOk(sizes, k, ids, tree, n, c);
  }

  /** Without a match the walk ends at the first prefix that no codeword continues: right away if that
      is the ten-bit prefix, else below the last inner node. */
  ghost predicate Astray(sizes: seq<nat>, b: nat, n: nat) {
    if Inner(sizes, Node(FAST_BITS, Prefix(b, FAST_BITS)))
    then n > FAST_BITS && Inner(sizes, Node(n - 1, Prefix(b, n - 1))) && !Inner(sizes, Node(n, Prefix(b, n)))
    else n == 0
  }

  ghost predicate Matched(sizes: seq<nat>, b: nat) { exists s :: 0 <= s < |sizes| && Matches(sizes, b, s) }

  /** TINFL_HUFF_DECODE, once enough bits are in the buffer: the symbol whose codeword the bits start
      with, and the length of that codeword. Bits that start with no codeword, which only tables with
      at most one symbol leave open (see MatchCondition), are taken for symbol 0. */
  method Decode(sizes: seq<nat>, lookUp: array<int>, tree: array<int>, ghost ids: map<Node, nat>, bitBuf: nat)
    returns (sym: nat, codeLen: nat)
    requires ValidSizes(sizes)
    requires lookUp.Length == FAST_SIZE && tree.Length == TREE_SIZE
    requires Tables(sizes, |sizes|, lookUp[..], tree[..], ids)
    ensures Matched(sizes, bitBuf) <==> sym < |sizes| && Matches(sizes, bitBuf, sym)
    ensures Matched(sizes, bitBuf) ==> codeLen == sizes[sym]
    ensures !Matched(sizes, bitBuf) ==> sym == 0 && Astray(sizes, bitBuf, codeLen)
  {
    hide Tables, Matches, ValidSizes, Inner;
    ghost var matched, s := Matched(sizes, bitBuf), 0;
    var temp := lookUp[bitBuf % FAST_SIZE];
    SizesBound(sizes);
    if matched {
      s :| 0 <= s < |sizes| && Matches(sizes, bitBuf, s);
      FirstLook(sizes, lookUp[..], tree[..], ids, bitBuf, s);
    } else {
      FirstAstray(sizes, lookUp[..], tree[..], ids, bitBuf);
    }
    if temp >= 0 {
      codeLen := temp / 512;
      sym := temp % 512;
    } else {
      codeLen := FAST_BITS;
      while true
        invariant FAST_BITS <= codeLen <= MAX_LENGTH && (matched ==> codeLen < sizes[s])
        invariant Node(codeLen, Prefix(bitBuf, codeLen)) in ids
        invariant temp == NodeEntry(ids[Node(codeLen, Prefix(bitBuf, codeLen))])
        decreases MAX_LENGTH - codeLen
      {
        if matched {
          StepDown(sizes, lookUp[..], tree[..], ids, bitBuf, s, codeLen);
        } else {
          StepAstray(sizes, lookUp[..], tree[..], ids, bitBuf, codeLen);
        }
        temp := tree[-temp - 1 + Shift(bitBuf, codeLen) % 2];
        codeLen := codeLen + 1;
        if temp >= 0 {
          break;
        }
      }
      sym := temp;
    }
  }

  lemma SizesBound(sizes: seq<nat>)
    requires ValidSizes(sizes)
    ensures |sizes| < 512 && forall s :: 0 <= s < |sizes| ==> sizes[s] <= MAX_LENGTH
    ensures forall b, s :: 0 <= s < |sizes| && Matches(sizes, b, s) ==> sizes[s] > 0
  {
  }

  /** Exactly the inner nodes have numbers. */
  lemma Numbered(sizes: seq<nat>, look: seq<int>, tree: seq<int>, ids: map<Node, nat>, n: Node)
    requires Tables(sizes, |sizes|, look, tree, ids)
    ensures n in ids <==> Inner(sizes, n)
  {
    hide LooksOk, TreesOk, On;
    if Inner(sizes, n) {
      var s :| 0 <= s < |sizes| && On(sizes, s, n);
    }
  }

  /** Without a match, every prefix is past the end of the codewords of its length. */
  lemma NoMatchPastEnd(sizes: seq<nat>, b: nat, d: nat)
    requires !Matched(sizes, b) && d <= MAX_LENGTH
    ensures Prefix(b, d) >= End(sizes, d)
  {
    if Prefix(b, d) < End(sizes, d) {
      var s := MatchExists(sizes, b, d);
    }
  }

  lemma FirstAstray(sizes: seq<nat>, look: seq<int>, tree: seq<int>, ids: map<Node, nat>, b: nat)
    requires Tables(sizes, |sizes|, look, tree, ids) && !Matched(sizes, b)
    ensures var n := Node(FAST_BITS, Prefix(b, FAST_BITS));
            && (n in ids <==> Inner(sizes, n))
            && look[b % FAST_SIZE] == if n in ids then NodeEntry(ids[n]) else 0
  {
    var n := Node(FAST_BITS, Prefix(b, FAST_BITS));
    Numbered(sizes, look, tree, ids, n);
    NoMatchPastEnd(sizes, b, FAST_BITS);
    Pow2Values();
    PrefixLow(b, FAST_BITS, FAST_BITS);
    hide TreesOk, IdsOk, Inner, Prefix, End, Matches;
    assert LookOk(sizes, |sizes|, ids, b % FAST_SIZE, look[b % FAST_SIZE]);
  }

  /** One step down the tree without a match. */
  lemma StepAstray(sizes: seq<nat>, look: seq<int>, tree: seq<int>, ids: map<Node, nat>, b: nat, d: nat)
    requires Tables(sizes, |sizes|, look, tree, ids) && ValidSizes(sizes) && !Matched(sizes, b)
    requires Node(d, Prefix(b, d)) in ids
    ensures d < MAX_LENGTH && Inner(sizes, Node(d, Prefix(b, d)))
    ensures 0 <= 2 * ids[Node(d, Prefix(b, d))] + Bit(b, d) < TREE_SIZE
    ensures var n := Node(d + 1, Prefix(b, d + 1));
            && (n in ids <==> Inner(sizes, n))
            && tree[2 * ids[Node(d, Prefix(b, d))] + Bit(b, d)] == if n in ids then NodeEntry(ids[n]) else 0
  {
    var n, c := Node(d, Prefix(b, d)), Bit(b, d);
    Numbered(sizes, look, tree, ids, n);
    Numbered(sizes, look, tree, ids, n.Child(c));
    var s :| 0 <= s < |sizes| && On(sizes, s, n);
    hide LooksOk, Inner, On, Shift, Code, End, Pow2, Matches;
    assert n.Child(c) == Node(d + 1, Prefix(b, d + 1));
    SlotOfChild(sizes, |sizes|, ids, tree, n, c);
    NoMatchPastEnd(sizes, b, d + 1);
  }

  lemma FirstLook(sizes: seq<nat>, look: seq<int>, tree: seq<int>, ids: map<Node, nat>, b: nat, s: nat)
    requires Tables(sizes, |sizes|, look, tree, ids)
    requires s < |sizes| < 512 && Matches(sizes, b, s)
    ensures var e := look[b % FAST_SIZE];
            if sizes[s] <= FAST_BITS then e == FastEntry(sizes, s) && e / 512 == sizes[s] && e % 512 == s
            else
              && Node(FAST_BITS, Prefix(b, FAST_BITS)) in ids
              && e == NodeEntry(ids[Node(FAST_BITS, Prefix(b, FAST_BITS))])
  {
    hide TreesOk, IdsOk;
    assert LookOk(sizes, |sizes|, ids, b % FAST_SIZE, look[b % FAST_SIZE]);
    if sizes[s] <= FAST_BITS {
      WindowMatches(sizes, b, s);
    } else {
      MatchPath(sizes, b, s, FAST_BITS);
      Pow2Values();
      PrefixLow(b, FAST_BITS, FAST_BITS);
    }
  }

  // ----- room for the trees

  /** How many symbols have codewords of length 1 to l. */
  function Used(sizes: seq<nat>, l: nat): nat {
    if l == 0 then 0 else Used(sizes, l - 1) + CountIn(sizes, |sizes|, l)
  }

  /** The lengths the inflater builds tables for. */
  predicate Buildable(sizes: seq<nat>) { Complete(sizes) || Used(sizes, MAX_LENGTH) <= 1 }

  /** The lengths alone decide that: the code space is filled, or no two symbols have codewords. */
  lemma BuildableMeans(sizes: seq<nat>)
    requires ValidSizes(sizes)
    ensures Buildable(sizes) <==>
              || CodeSpace(sizes, |sizes|, 16) == 65536
              || forall s, t :: 0 <= s < t < |sizes| ==> sizes[s] == 0 || sizes[t] == 0
  {
    hide First, Used, CodeSpace;
    FirstIsSpace(sizes, 16);
    UsedTotal(sizes, |sizes|, MAX_LENGTH);
    InUseBounds(sizes, |sizes|);
  }

  /** The room that the codewords of the first k symbols take among l-bit numbers, if shorter than that. */
  function CodeSpace(sizes: seq<nat>, k: nat, l: nat): nat
    requires k <= |sizes|
  {
    if k == 0 then 0
    else CodeSpace(sizes, k - 1, l) + if 0 < sizes[k - 1] < l then Pow2(l - sizes[k - 1]) else 0
  }

  lemma {:induction false} SpaceStep(sizes: seq<nat>, k: nat, l: nat)
    requires k <= |sizes| && l > 0
    ensures CodeSpace(sizes, k, l + 1) == 2 * (CodeSpace(sizes, k, l) + CountIn(sizes, k, l))
  {
    if k > 0 {
      SpaceStep(sizes, k - 1, l);
      assert sizes[k - 1] == l ==> Pow2(1) == 2;
    }
  }

  lemma {:induction false} NoSpace(sizes: seq<nat>, k: nat, l: nat)
    requires k <= |sizes| && l <= 1
    ensures CodeSpace(sizes, k, l) == 0
  {
    if k > 0 {
      NoSpace(sizes, k - 1, l);
    }
  }

  /** The first codeword of a length is what shorter codewords leave no room for. */
  lemma {:induction false} FirstIsSpace(sizes: seq<nat>, l: nat)
    ensures First(sizes, l) == CodeSpace(sizes, |sizes|, l)
  {
    if l <= 1 {
      NoSpace(sizes, |sizes|, l);
    } else {
      FirstIsSpace(sizes, l - 1);
      SpaceStep(sizes, |sizes|, l - 1);
    }
  }

  /** The code of section 3.2.2 of RFC 1951: a codeword is the room taken by shorter codewords and by those
      of smaller symbols of the same length. */
  lemma CodeIsSum(sizes: seq<nat>, s: nat)
    requires s < |sizes|
    ensures Code(sizes, s) == CodeSpace(sizes, |sizes|, sizes[s]) + CountIn(sizes, s, sizes[s])
  {
    FirstIsSpace(sizes, sizes[s]);
  }

  /** Codewords of one length ascend with their symbols; shorter ones come before longer ones. */
  lemma CodesAscend(sizes: seq<nat>, s: nat, t: nat)
    requires s < |sizes| && t < |sizes| && sizes[s] > 0 && sizes[t] > 0
    ensures sizes[s] == sizes[t] && s < t ==> Code(sizes, s) < Code(sizes, t)
    ensures sizes[s] < sizes[t] ==> Code(sizes, s) < Shift(Code(sizes, t), sizes[t] - sizes[s])
  {
    CodeRange(sizes, s);
    CodeRange(sizes, t);
    if sizes[s] == sizes[t] && s < t {
      CountInMonotone(sizes, s + 1, t, sizes[s]);
    }
    if sizes[s] < sizes[t] {
      assert Shift(Code(sizes, t), 1) == Code(sizes, t) / 2 >= End(sizes, sizes[t] - 1);
      PastEnd(sizes, Code(sizes, t) / 2, sizes[t] - 1, sizes[s]);
    }
  }

  const EXAMPLE: seq<nat> := [3, 3, 3, 3, 3, 2, 4, 4]

  lemma ExampleCounts(l: nat)
    ensures forall k :: 0 <= k <= 5 ==> CountIn(EXAMPLE, k, l) == if l == 3 then k else 0
    ensures CountIn(EXAMPLE, 6, l) == if l == 3 then 5 else if l == 2 then 1 else 0
    ensures CountIn(EXAMPLE, 7, l) == CountIn(EXAMPLE, 6, l) + if l == 4 then 1 else 0
    ensures CountIn(EXAMPLE, 8, l) == CountIn(EXAMPLE, 6, l) + if l == 4 then 2 else 0
  {
    assert CountIn(EXAMPLE, 0, l) == 0;
    assert CountIn(EXAMPLE, 1, l) == if l == 3 then 1 else 0;
    assert CountIn(EXAMPLE, 2, l) == if l == 3 then 2 else 0;
    assert CountIn(EXAMPLE, 3, l) == if l == 3 then 3 else 0;
    assert CountIn(EXAMPLE, 4, l) == if l == 3 then 4 else 0;
    assert CountIn(EXAMPLE, 5, l) == if l == 3 then 5 else 0;
  }

  lemma ExampleFirsts()
    ensures First(EXAMPLE, 2) == 0 && First(EXAMPLE, 3) == 2 && First(EXAMPLE, 4) == 14 && First(EXAMPLE, 16) == 65536
  {
    hide CountIn;
    forall l: nat
      ensures l > 4 || l < 2 ==> CountIn(EXAMPLE, 8, l) == 0
      ensures CountIn(EXAMPLE, 8, 2) == 1 && CountIn(EXAMPLE, 8, 3) == 5 && CountIn(EXAMPLE, 8, 4) == 2
    {
      ExampleCounts(l);
      ExampleCounts(2);
      ExampleCounts(3);
      ExampleCounts(4);
    }
    assert |EXAMPLE| == 8;
    assert First(EXAMPLE, 2) == 0;
    assert First(EXAMPLE, 3) == 2 * (0 + CountIn(EXAMPLE, 8, 2));
    assert First(EXAMPLE, 4) == 2 * (2 + CountIn(EXAMPLE, 8, 3));
    assert First(EXAMPLE, 5) == 2 * (14 + CountIn(EXAMPLE, 8, 4));
    assert First(EXAMPLE, 8) == 256;
    assert First(EXAMPLE, 11) == 2048;
    assert First(EXAMPLE, 14) == 16384;
  }

  /** The example of section 3.2.2 of RFC 1951. */
  lemma ExampleCode()
    ensures Code(EXAMPLE, 0) == 2 && Code(EXAMPLE, 1) == 3 && Code(EXAMPLE, 2) == 4 && Code(EXAMPLE, 3) == 5
    ensures Code(EXAMPLE, 4) == 6 && Code(EXAMPLE, 5) == 0 && Code(EXAMPLE, 6) == 14 && Code(EXAMPLE, 7) == 15
    ensures Complete(EXAMPLE)
  {
    hide CountIn, First;
    ExampleCounts(2);
    ExampleCounts(3);
    ExampleCounts(4);
    ExampleFirsts();
  }

  /** How many of the first k symbols have codewords of length 1 to l. */
  function UsedIn(sizes: seq<nat>, k: nat, l: nat): nat
    requires k <= |sizes|
  {
    if l == 0 then 0 else UsedIn(sizes, k, l - 1) + CountIn(sizes, k, l)
  }

  lemma {:induction false} UsedInStep(sizes: seq<nat>, k: nat, l: nat)
    requires k < |sizes|
    ensures UsedIn(sizes, k + 1, l) == UsedIn(sizes, k, l) + if 0 < sizes[k] <= l then 1 else 0
    decreases l
  {
    if l > 0 {
      UsedInStep(sizes, k, l - 1);
    }
  }

  lemma {:induction false} UsedInNone(sizes: seq<nat>, l: nat)
    ensures UsedIn(sizes, 0, l) == 0
  {
    if l > 0 {
      UsedInNone(sizes, l - 1);
    }
  }

  lemma {:induction false} UsedTotal(sizes: seq<nat>, k: nat, l: nat)
    requires k == |sizes|
    ensures Used(sizes, l) == UsedIn(sizes, k, l)
  {
    if l > 0 {
      UsedTotal(sizes, k, l - 1);
    }
  }

  /** Whether none or at most one of the first k symbols is in use. */
  lemma {:induction false} InUseBounds(sizes: seq<nat>, k: nat)
    requires ValidSizes(sizes) && k <= |sizes|
    ensures UsedIn(sizes, k, MAX_LENGTH) == 0 <==> forall s :: 0 <= s < k ==> sizes[s] == 0
    ensures UsedIn(sizes, k, MAX_LENGTH) <= 1 <==> forall s, t :: 0 <= s < t < k ==> sizes[s] == 0 || sizes[t] == 0
  {
    hide UsedIn;
    if k == 0 {
      UsedInNone(sizes, MAX_LENGTH);
    } else {
      InUseBounds(sizes, k - 1);
      UsedInStep(sizes, k - 1, MAX_LENGTH);
    }
  }

  /** At most one symbol in use means just that. */
  lemma OnlyOne(sizes: seq<nat>, s: nat, t: nat)
    requires ValidSizes(sizes) && Used(sizes, MAX_LENGTH) <= 1
    requires s < |sizes| && t < |sizes| && sizes[s] > 0 && sizes[t] > 0
    ensures s == t
  {
    UsedTotal(sizes, |sizes|, MAX_LENGTH);
    InUseBounds(sizes, |sizes|);
  }

  lemma {:induction false} CountNone(sizes: seq<nat>, k: nat, l: nat)
    requires k <= |sizes| && forall s :: 0 <= s < k ==> sizes[s] != l
    ensures CountIn(sizes, k, l) == 0
  {
    if k > 0 {
      CountNone(sizes, k - 1, l);
    }
  }

  lemma {:induction false} EndNone(sizes: seq<nat>, l: nat)
    requires forall s :: 0 <= s < |sizes| ==> sizes[s] == 0 || sizes[s] > l
    ensures End(sizes, l) == 0
  {
    if l > 0 {
      EndNone(sizes, l - 1);
      CountNone(sizes, |sizes|, l);
    }
  }

  /** Codewords fit their lengths. */
  lemma CodeFits(sizes: seq<nat>, s: nat)
    requires ValidSizes(sizes) && Buildable(sizes) && s < |sizes| && sizes[s] > 0
    ensures Code(sizes, s) < Pow2(sizes[s])
  {
    if Complete(sizes) {
      CodeRange(sizes, s);
      EndFits(sizes, sizes[s]);
    } else {
      LoneCode(sizes, s);
    }
  }

  /** If the code is not complete, the one symbol in use has the codeword zero. */
  lemma LoneCode(sizes: seq<nat>, s: nat)
    requires ValidSizes(sizes) && Buildable(sizes) && !Complete(sizes) && s < |sizes| && sizes[s] > 0
    ensures Code(sizes, s) == 0 && forall t :: 0 <= t < |sizes| && sizes[t] > 0 ==> t == s
  {
    forall t | 0 <= t < |sizes| && t != s
      ensures sizes[t] == 0
    {
      if sizes[t] > 0 {
        OnlyOne(sizes, s, t);
      }
    }
    CountNone(sizes, s, sizes[s]);
    EndNone(sizes, sizes[s] - 1);
  }

  /** When a table decodes a true codeword: always if the code is complete, and otherwise exactly if
      the bits are zero over the length of the one symbol in use. */
  lemma MatchCondition(sizes: seq<nat>, b: nat)
    requires ValidSizes(sizes) && Buildable(sizes)
    ensures Matched(sizes, b) <==>
              Complete(sizes) || exists s :: 0 <= s < |sizes| && sizes[s] > 0 && b % Pow2(sizes[s]) == 0
  {
    if Complete(sizes) {
      ExactlyOneMatch(sizes, b);
    } else {
      forall s | 0 <= s < |sizes| && sizes[s] > 0
        ensures Matches(sizes, b, s) <==> b % Pow2(sizes[s]) == 0
      {
        LoneCode(sizes, s);
        ZeroPrefix(b, sizes[s]);
      }
    }
  }

  lemma ZeroPrefix(b: nat, n: nat)
    ensures Prefix(b, n) == 0 <==> b % Pow2(n) == 0
  {
    PrefixLow(b, n, n);
    PrefixOfZero(n);
    if Prefix(b, n) == 0 {
      PrefixInjective(b % Pow2(n), 0, n);
    }
  }

  lemma {:induction false} PrefixOfZero(n: nat)
    ensures Prefix(0, n) == 0
  {
    if n > 0 {
      PrefixOfZero(n - 1);
      ShiftDivides(0, n - 1);
    }
  }

  /** One code of one bit, as section 3.2.7 of RFC 1951 allows for distances: it is accepted, an odd
      bit buffer starts with no codeword, and its slot is empty, so that symbol 0 is returned and no
      bits are consumed; an even one is symbol 1. */
  lemma OneBitCode(b: nat, look: seq<int>, tree: seq<int>, ids: map<Node, nat>)
    requires Tables([0, 1], 2, look, tree, ids)
    ensures ValidSizes([0, 1]) && Buildable([0, 1]) && !Complete([0, 1])
    ensures b % 2 == 1 ==> !Matched([0, 1], b) && look[b % FAST_SIZE] == 0 && Astray([0, 1], b, 0)
    ensures b % 2 == 0 ==> Matches([0, 1], b, 1)
  {
    hide Tables, First, End, Used, CountIn, Prefix, Shift, LookOk;
    var sizes := [0, 1];
    OneBitUsed();
    MatchCondition(sizes, b);
    assert Pow2(1) == 2;
    if b % 2 == 1 {
      forall s | 0 <= s < |sizes| && sizes[s] > 0 ensures b % Pow2(sizes[s]) != 0 {
        assert s == 1;
      }
      FirstAstray(sizes, look, tree, ids, b);
    } else {
      assert sizes[1] > 0 && b % Pow2(sizes[1]) == 0;
    }
  }

  lemma OneBitUsed()
    ensures ValidSizes([0, 1]) && Buildable([0, 1]) && !Complete([0, 1])
  {
    var sizes := [0, 1];
    assert CountIn(sizes, 2, 1) == 1;
    forall l | 1 < l <= 15 ensures CountIn(sizes, 2, l) == 0 {
      CountNone(sizes, 2, l);
    }
    assert Used(sizes, 4) == 1;
    assert Used(sizes, 8) == 1;
    assert Used(sizes, 12) == 1;
    assert Used(sizes, 15) == 1;
    assert First(sizes, 2) == 2;
    assert First(sizes, 4) == 8;
    assert First(sizes, 8) == 128;
    assert First(sizes, 12) == 2048;
    assert First(sizes, 16) == 32768;
  }

  lemma ShiftFits(v: nat, l: nat, d: nat)
    requires v < Pow2(l) && d <= l
    ensures Shift(v, l - d) < Pow2(d)
    decreases l - d
  {
    if d < l {
      ShiftFits(v / 2, l - 1, d);
    }
  }

  /** The numbers from a d-bit end to 2^d: where inner nodes of depth d can be. */
  function Level(d: nat, lo: nat, hi: nat): (ns: set<Node>)
    requires lo <= hi
    ensures forall v: nat :: Node(d, v) in ns <==> lo <= v < hi
    ensures |ns| == hi - lo
    decreases hi - lo
  {
    if lo == hi then {} else
      var rest := Level(d, lo, hi - 1);
      assert Node(d, hi - 1) !in rest;
      rest + {Node(d, hi - 1)}
  }

  lemma {:induction false} CountsSum(sizes: seq<nat>, k: nat)
    requires k <= |sizes|
    ensures CountIn(sizes, k, 11) + CountIn(sizes, k, 12) + CountIn(sizes, k, 13) + CountIn(sizes, k, 14)
            + CountIn(sizes, k, 15) <= k
  {
    if k > 0 {
      CountsSum(sizes, k - 1);
    }
  }

  /** In a complete code an inner node has two children, each a codeword or inner: so the levels
      together have fewer inner nodes than there are long codewords. */
  lemma LevelsSum(sizes: seq<nat>)
    requires ValidSizes(sizes) && Complete(sizes)
    ensures forall d :: 10 <= d <= 15 ==> End(sizes, d) <= Pow2(d)
    ensures (Pow2(10) - End(sizes, 10)) + (Pow2(11) - End(sizes, 11)) + (Pow2(12) - End(sizes, 12))
            + (Pow2(13) - End(sizes, 13)) + (Pow2(14) - End(sizes, 14)) <= |sizes|
  {
    hide Pow2, End, CountIn, Complete;
    forall d | 10 <= d <= 15
      ensures End(sizes, d) <= Pow2(d)
    {
      EndFits(sizes, d);
    }
    EndFits(sizes, 15);
    CountsSum(sizes, |sizes|);
    LevelStep(sizes, 10);
    LevelStep(sizes, 11);
    LevelStep(sizes, 12);
    LevelStep(sizes, 13);
    LevelStep(sizes, 14);
  }

  lemma LevelStep(sizes: seq<nat>, d: nat)
    requires d > 0
    ensures Pow2(d + 1) - End(sizes, d + 1) == 2 * (Pow2(d) - End(sizes, d)) - CountIn(sizes, |sizes|, d + 1)
  {
  }

  lemma InnerInLevel(sizes: seq<nat>, n: Node)
    requires ValidSizes(sizes) && Buildable(sizes) && Inner(sizes, n)
    ensures FAST_BITS <= n.depth < MAX_LENGTH && End(sizes, n.depth) <= n.value < Pow2(n.depth)
  {
    InnerPastEnd(sizes, n);
    var s :| 0 <= s < |sizes| && On(sizes, s, n);
    CodeFits(sizes, s);
    ShiftFits(Code(sizes, s), sizes[s], n.depth);
  }

  /** There are never more inner nodes than the tree array has room for. */
  lemma InnerNodesFit(sizes: seq<nat>, ns: set<Node>)
    requires ValidSizes(sizes) && Buildable(sizes) && forall n :: n in ns ==> Inner(sizes, n)
    ensures 2 * |ns| <= TREE_SIZE
  {
    if Complete(sizes) {
      LevelsFit(sizes, ns);
    } else if n0 :| n0 in ns {
      var s :| 0 <= s < |sizes| && On(sizes, s, n0);
      forall n | n in ns
        ensures On(sizes, s, n)
      {
        var t :| 0 <= t < |sizes| && On(sizes, t, n);
        OnlyOne(sizes, s, t);
      }
      PathFits(sizes, s, ns);
    }
  }

  lemma PathFits(sizes: seq<nat>, s: nat, ns: set<Node>)
    requires s < |sizes| && sizes[s] <= MAX_LENGTH && forall n :: n in ns ==> On(sizes, s, n)
    ensures |ns| <= 5
  {
    hide Shift, Code;
    var l, c := sizes[s], Code(sizes, s);
    var all := (if l > 10 then {Node(10, Shift(c, l - 10))} else {})
        + (if l > 11 then {Node(11, Shift(c, l - 11))} else {})
               + (if l > 12 then {Node(12, Shift(c, l - 12))} else {})
                 + (if l > 13 then {Node(13, Shift(c, l - 13))} else {})
               + (if l > 14 then {Node(14, Shift(c, l - 14))} else {});
    Subset(ns, all);
  }

  /** Everywhere an inner node can be. */
  function Levels(sizes: seq<nat>): set<Node>
    requires forall d :: 10 <= d <= 15 ==> End(sizes, d) <= Pow2(d)
  {
    Level(10, End(sizes, 10), Pow2(10)) + (Level(11, End(sizes, 11), Pow2(11)) + (Level(12, End(sizes, 12), Pow2(12))
    + (Level(13, End(sizes, 13), Pow2(13)) + Level(14, End(sizes, 14), Pow2(14)))))
  }

  lemma UnionFits(a: set<Node>, b: set<Node>)
    ensures |a + b| <= |a| + |b|
  {
  }

  lemma LevelsSize(sizes: seq<nat>)
    requires forall d :: 10 <= d <= 15 ==> End(sizes, d) <= Pow2(d)
    ensures |Levels(sizes)| <= (Pow2(10) - End(sizes, 10)) + (Pow2(11) - End(sizes, 11)) + (Pow2(12) - End(sizes, 12))
                               + (Pow2(13) - End(sizes, 13)) + (Pow2(14) - End(sizes, 14))
  {
    hide Level, Pow2, End;
    var a, b := Level(10, End(sizes, 10), Pow2(10)), Level(11, End(sizes, 11), Pow2(11));
    var c, d := Level(12, End(sizes, 12), Pow2(12)), Level(13, End(sizes, 13), Pow2(13));
    var e := Level(14, End(sizes, 14), Pow2(14));
    UnionFits(a, b + (c + (d + e)));
    UnionFits(b, c + (d + e));
    UnionFits(c, d + e);
    UnionFits(d, e);
  }

  lemma InLevels(sizes: seq<nat>, n: Node)
    requires forall d :: 10 <= d <= 15 ==> End(sizes, d) <= Pow2(d)
    requires 10 <= n.depth < 15 && End(sizes, n.depth) <= n.value < Pow2(n.depth)
    ensures n in Levels(sizes)
  {
    hide Level, Pow2, End;
    assert n == Node(n.depth, n.value);
    assert n in Level(n.depth, End(sizes, n.depth), Pow2(n.depth));
  }

  lemma LevelsFit(sizes: seq<nat>, ns: set<Node>)
    requires ValidSizes(sizes) && Complete(sizes) && forall n :: n in ns ==> Inner(sizes, n)
    ensures |ns| <= |sizes|
  {
    hide Complete, Inner, Pow2, End, ValidSizes, Level, Levels;
    LevelsSum(sizes);
    LevelsSize(sizes);
    forall n | n in ns
      ensures n in Levels(sizes)
    {
      InnerInLevel(sizes, n);
      InLevels(sizes, n);
    }
    Subset(ns, Levels(sizes));
  }

  lemma Subset(a: set<Node>, b: set<Node>)
    requires a <= b
    ensures |a| <= |b|
  {
    assert b == a + (b - a);
  }

  // ----- filling the tables, symbol by symbol

  lemma EmptyTables(sizes: seq<nat>, look: seq<int>, tree: seq<int>)
    requires |look| == FAST_SIZE && |tree| == TREE_SIZE
    requires forall x :: 0 <= x < FAST_SIZE ==> look[x] == 0
    requires forall j :: 0 <= j < TREE_SIZE ==> tree[j] == 0
    ensures Tables(sizes, 0, look, tree, map[])
  {
  }

  /** A symbol without a long codeword leaves the trees alone. */
  lemma SameTrees(sizes: seq<nat>, k: nat, tree: seq<int>, ids: map<Node, nat>)
    requires k < |sizes| && sizes[k] <= FAST_BITS && |tree| == TREE_SIZE
    requires IdsOk(sizes, ids) && PathsOk(sizes, k, ids) && TreesOk(sizes, k, ids, tree)
    ensures PathsOk(sizes, k + 1, ids) && TreesOk(sizes, k + 1, ids, tree)
  {
    hide Code, Inner, Shift;
    var k' := k + 1;
    forall n, c: nat | n in ids && c < 2
      ensures ChildOk(sizes, k', ids, tree, n, c)
    {
      assert ChildOk(sizes, k, ids, tree, n, c);
      DeepChild(sizes, ids, n);
    }
  }

  /** A symbol not in use needs nothing. */
  lemma SkipSymbol(sizes: seq<nat>, k: nat, look: seq<int>, tree: seq<int>, ids: map<Node, nat>)
    requires Tables(sizes, k, look, tree, ids) && k < |sizes| && sizes[k] == 0
    ensures Tables(sizes, k + 1, look, tree, ids)
  {
    SameTrees(sizes, k, tree, ids);
    hide IdsOk, Code, TreesOk, PathsOk;
    var k' := k + 1;
    forall x | 0 <= x < FAST_SIZE
      ensures LookOk(sizes, k', ids, x, look[x])
    {
      assert LookOk(sizes, k, ids, x, look[x]);
    }
  }

  /** A short codeword fills every slot of the first table whose bits start with it. */
  lemma AddShort(sizes: seq<nat>, k: nat, look: seq<int>, look': seq<int>, tree: seq<int>, ids: map<Node, nat>)
    requires Tables(sizes, k, look, tree, ids) && k < |sizes| && 0 < sizes[k] <= FAST_BITS
    requires |look'| == FAST_SIZE
    requires forall x :: 0 <= x < FAST_SIZE ==>
             look'[x] == if Matches(sizes, x, k) then FastEntry(sizes, k) else look[x]
    ensures Tables(sizes, k + 1, look', tree, ids)
  {
    SameTrees(sizes, k, tree, ids);
    hide IdsOk, Code, TreesOk, PathsOk, Matches, Prefix;
    var k' := k + 1;
    forall x | 0 <= x < FAST_SIZE
      ensures LookOk(sizes, k', ids, x, look'[x])
    {
      assert LookOk(sizes, k, ids, x, look[x]);
      ShortSlot(sizes, k, ids, x);
    }
  }

  lemma DeepChild(sizes: seq<nat>, ids: map<Node, nat>, n: Node)
    requires IdsOk(sizes, ids) && n in ids
    ensures n.depth >= FAST_BITS
  {
    var s :| 0 <= s < |sizes| && On(sizes, s, n);
  }

  /** A slot filled for symbol k belongs to no other symbol and to no tree. */
  lemma ShortSlot(sizes: seq<nat>, k: nat, ids: map<Node, nat>, x: nat)
    requires IdsOk(sizes, ids) && k < |sizes| && 0 < sizes[k] <= FAST_BITS
    ensures Matches(sizes, x, k) ==> Node(FAST_BITS, Prefix(x, FAST_BITS)) !in ids
    ensures Matches(sizes, x, k) ==> Prefix(x, FAST_BITS) < End(sizes, FAST_BITS)
    ensures Matches(sizes, x, k) ==> forall s :: 0 <= s < k ==> !Matches(sizes, x, s)
  {
    if Matches(sizes, x, k) {
      PrefixShift(x, FAST_BITS, sizes[k]);
      CodeRange(sizes, k);
      if Prefix(x, FAST_BITS) >= End(sizes, FAST_BITS) {
        PastEnd(sizes, Prefix(x, FAST_BITS), FAST_BITS, sizes[k]);
      }
      var n := Node(FAST_BITS, Prefix(x, FAST_BITS));
      if n in ids {
        InnerPastEnd(sizes, n);
      }
      forall s | 0 <= s < k
        ensures !Matches(sizes, x, s)
      {
        if Matches(sizes, x, s) {
          MatchUnique(sizes, x, s, k);
        }
      }
    }
  }

  // ----- long codewords

  /** A new inner node has room, and children nobody has named yet. */
  lemma FreshNode(sizes: seq<nat>, k: nat, ids: map<Node, nat>, n: Node)
    requires ValidSizes(sizes) && Buildable(sizes) && k <= |sizes|
    requires IdsOk(sizes, ids) && PathsOk(sizes, k, ids)
    requires Inner(sizes, n) && n !in ids && ParentNamed(ids, n)
    ensures 2 * |ids| + 2 <= TREE_SIZE
    ensures IdsOk(sizes, ids[n := |ids|]) && PathsOk(sizes, k, ids[n := |ids|]) && |ids[n := |ids|]| == |ids| + 1
    ensures forall c: nat :: c < 2 ==> SlotOk(sizes, k, ids[n := |ids|], n.Child(c), 0)
  {
    hide ValidSizes, Buildable, End, Code, Shift;
    var ids' := ids[n := |ids|];
    InnerDepth(sizes, n);
    MoreIds(sizes, k, ids, n);
    InnerNodesFit(sizes, ids'.Keys);
    hide Inner;
    forall c: nat | c < 2
      ensures SlotOk(sizes, k, ids', n.Child(c), 0)
    {
      EmptyChild(sizes, k, ids, n, c);
    }
  }

  lemma MoreIds(sizes: seq<nat>, k: nat, ids: map<Node, nat>, n: Node)
    requires k <= |sizes| && IdsOk(sizes, ids) && PathsOk(sizes, k, ids)
    requires Inner(sizes, n) && n !in ids && ParentNamed(ids, n)
    ensures IdsOk(sizes, ids[n := |ids|]) && PathsOk(sizes, k, ids[n := |ids|])
    ensures ids[n := |ids|].Keys == ids.Keys + {n} && |ids[n := |ids|]| == |ids| + 1 == |ids[n := |ids|].Keys|
    ensures forall m :: m in ids[n := |ids|] ==> Inner(sizes, m)
  {
    hide Inner, On;
    var ids' := ids[n := |ids|];
    forall m | m in ids'
      ensures ParentNamed(ids', m)
    {
      assert m in ids ==> ParentNamed(ids, m);
    }
  }

  lemma EmptyChild(sizes: seq<nat>, k: nat, ids: map<Node, nat>, n: Node, c: nat)
    requires k <= |sizes| && c < 2 && n.depth >= FAST_BITS
    requires IdsOk(sizes, ids) && PathsOk(sizes, k, ids) && n !in ids
    ensures SlotOk(sizes, k, ids[n := |ids|], n.Child(c), 0)
  {
    hide End, Code, Shift, Inner;
    assert n.Child(c).value / 2 == n.value;
    assert n.Child(c) in ids ==> ParentNamed(ids, n.Child(c));
    forall s | 0 <= s < k && sizes[s] == n.depth + 1
      ensures Code(sizes, s) != n.Child(c).value
    {
      ParentOn(sizes, s, n);
    }
  }

  lemma InnerDepth(sizes: seq<nat>, n: Node)
    requires Inner(sizes, n)
    ensures n.depth >= FAST_BITS
  {
  }

  /** The node above a codeword. */
  lemma ParentOn(sizes: seq<nat>, s: nat, n: Node)
    requires s < |sizes| && n.depth >= FAST_BITS && sizes[s] == n.depth + 1
    ensures Code(sizes, s) / 2 == n.value ==> On(sizes, s, n)
  {
    assert Shift(Code(sizes, s), 1) == Shift(Code(sizes, s) / 2, 0);
  }

  /** What a slot holds does not depend on a node elsewhere. */
  lemma SlotElsewhere(sizes: seq<nat>, k: nat, ids: map<Node, nat>, n: Node, id: nat, m: Node, e: int)
    requires k <= |sizes| && n != m && SlotOk(sizes, k, ids, m, e)
    ensures SlotOk(sizes, k, ids[n := id], m, e)
  {
  }

  /** The first bits of a long codeword get a tree. */
  lemma AddRoot(sizes: seq<nat>, k: nat, look: seq<int>, tree: seq<int>, ids: map<Node, nat>, x: nat)
    requires ValidSizes(sizes) && Buildable(sizes) && Tables(sizes, k, look, tree, ids) && x < FAST_SIZE
    requires Inner(sizes, Node(FAST_BITS, Prefix(x, FAST_BITS))) && Node(FAST_BITS, Prefix(x, FAST_BITS)) !in ids
    ensures Tables(sizes, k, look[x := NodeEntry(|ids|)], tree, ids[Node(FAST_BITS, Prefix(x, FAST_BITS)) := |ids|])
  {
    forall m | m in ids
      ensures m.depth >= FAST_BITS
    {
      DeepChild(sizes, ids, m);
    }
    hide ValidSizes, Buildable, Prefix, IdsOk, PathsOk, Inner, LookOk, SlotOk;
    var n := Node(FAST_BITS, Prefix(x, FAST_BITS));
    FreshNode(sizes, k, ids, n);
    RootLooks(sizes, k, look, ids, x);
    InnerNotCode(sizes, n);
    OtherTrees(sizes, k, tree, ids, n, tree);
  }

  lemma RootLooks(sizes: seq<nat>, k: nat, look: seq<int>, ids: map<Node, nat>, x: nat)
    requires k <= |sizes| && |look| == FAST_SIZE && LooksOk(sizes, k, ids, look) && x < FAST_SIZE
    requires Inner(sizes, Node(FAST_BITS, Prefix(x, FAST_BITS)))
    ensures LooksOk(sizes, k, ids[Node(FAST_BITS, Prefix(x, FAST_BITS)) := |ids|], look[x := NodeEntry(|ids|)])
  {
    hide Prefix, Inner, Matches;
    var ids', look' := ids[Node(FAST_BITS, Prefix(x, FAST_BITS)) := |ids|], look[x := NodeEntry(|ids|)];
    forall y | 0 <= y < FAST_SIZE
      ensures LookOk(sizes, k, ids', y, look'[y])
    {
      assert LookOk(sizes, k, ids, y, look[y]);
      if y == x {
        RootSlot(sizes, x);
      } else {
        Pow2Values();
        if Prefix(y, FAST_BITS) == Prefix(x, FAST_BITS) {
          PrefixInjective(x, y, FAST_BITS);
        }
      }
    }
  }

  /** No short codeword starts the bits of an inner node. */
  lemma RootSlot(sizes: seq<nat>, x: nat)
    requires Inner(sizes, Node(FAST_BITS, Prefix(x, FAST_BITS)))
    ensures forall s :: 0 <= s < |sizes| && sizes[s] <= FAST_BITS ==> !Matches(sizes, x, s)
  {
    forall s | 0 <= s < |sizes| && sizes[s] <= FAST_BITS
      ensures !Matches(sizes, x, s)
    {
      if sizes[s] > 0 {
        InnerPastEnd(sizes, Node(FAST_BITS, Prefix(x, FAST_BITS)));
        PrefixShift(x, FAST_BITS, sizes[s]);
        CodeRange(sizes, s);
        PastEnd(sizes, Prefix(x, FAST_BITS), FAST_BITS, sizes[s]);
      }
    }
  }

  /** The tree slots after node n got a number: `tree'` is `tree` with at most the slot of n set. */
  lemma OtherTrees(sizes: seq<nat>, k: nat, tree: seq<int>, ids: map<Node, nat>, n: Node, tree': seq<int>)
    requires k <= |sizes| && |tree| == TREE_SIZE == |tree'| && TreesOk(sizes, k, ids, tree)
    requires n !in ids && 2 * |ids| + 2 <= TREE_SIZE && |ids[n := |ids|]| == |ids| + 1
    requires forall c: nat :: c < 2 ==> SlotOk(sizes, k, ids[n := |ids|], n.Child(c), 0)
    requires forall j :: 2 * |ids| <= j < TREE_SIZE ==> tree'[j] == tree[j]
    requires forall m, c: nat :: m in ids && c < 2 && ChildOk(sizes, k, ids, tree, m, c) ==>
               if m.Child(c) == n then tree'[2 * ids[m] + c] == NodeEntry(|ids|)
               else tree'[2 * ids[m] + c] == tree[2 * ids[m] + c]
    requires forall s :: 0 <= s < k ==> sizes[s] != n.depth || Code(sizes, s) != n.value
    ensures TreesOk(sizes, k, ids[n := |ids|], tree')
  {
    hide SlotOk, Code;
    var ids' := ids[n := |ids|];
    forall m, c: nat | m in ids' && c < 2
      ensures ChildOk(sizes, k, ids', tree', m, c)
    {
      if m != n {
        assert ChildOk(sizes, k, ids, tree, m, c);
        if m.Child(c) == n {
          SlotFilled(sizes, k, ids, n);
        } else {
          SlotElsewhere(sizes, k, ids, n, |ids|, m.Child(c), tree[2 * ids[m] + c]);
        }
      }
    }
  }

  lemma SlotFilled(sizes: seq<nat>, k: nat, ids: map<Node, nat>, n: Node)
    requires k <= |sizes| && forall s :: 0 <= s < k ==> sizes[s] != n.depth || Code(sizes, s) != n.value
    ensures SlotOk(sizes, k, ids[n := |ids|], n, NodeEntry(|ids|))
  {
  }

  /** An inner node is no codeword. */
  lemma InnerNotCode(sizes: seq<nat>, n: Node)
    requires Inner(sizes, n)
    ensures forall s :: 0 <= s < |sizes| ==> sizes[s] != n.depth || Code(sizes, s) != n.value
  {
    InnerPastEnd(sizes, n);
    InnerDepth(sizes, n);
    forall s | 0 <= s < |sizes| && sizes[s] == n.depth
      ensures Code(sizes, s) != n.value
    {
      CodeRange(sizes, s);
    }
  }

  /** A child slot on the path gets a tree of its own. */
  lemma AddChild(sizes: seq<nat>, k: nat, look: seq<int>, tree: seq<int>, ids: map<Node, nat>, p: Node, c: nat)
    requires ValidSizes(sizes) && Buildable(sizes) && Tables(sizes, k, look, tree, ids)
    requires p in ids && c < 2 && Inner(sizes, p.Child(c)) && p.Child(c) !in ids
    ensures 2 * ids[p] + c < TREE_SIZE
    ensures Tables(sizes, k, look, tree[2 * ids[p] + c := NodeEntry(|ids|)], ids[p.Child(c) := |ids|])
  {
    var n := p.Child(c);
    ChildSlots(sizes, k, look, tree, ids, p, c);
    hide ValidSizes, Buildable, IdsOk, PathsOk, Inner, SlotOk, LookOk, On, Matches;
    FreshNode(sizes, k, ids, n);
    InnerNotCode(sizes, n);
    OtherTrees(sizes, k, tree, ids, n, tree[2 * ids[p] + c := NodeEntry(|ids|)]);
    hide TreesOk;
    OtherLooks(sizes, k, look, ids, n);
  }

  /** Each child of a numbered node has a slot of its own. */
  lemma ChildSlots(sizes: seq<nat>, k: nat, look: seq<int>, tree: seq<int>, ids: map<Node, nat>, p: Node, c: nat)
    requires Tables(sizes, k, look, tree, ids) && p in ids && c < 2
    ensures 2 * ids[p] + c < 2 * |ids| <= TREE_SIZE
    ensures ParentNamed(ids, p.Child(c)) && p.Child(c).depth != FAST_BITS
    ensures forall m, c': nat :: m in ids && c' < 2 && ChildOk(sizes, k, ids, tree, m, c') ==>
              (m.Child(c') == p.Child(c) <==> m == p && c' == c)
                && (2 * ids[m] + c' == 2 * ids[p] + c <==> m == p && c' == c)
  {
    hide Inner, ChildOk, LooksOk, PathsOk;
    DeepChild(sizes, ids, p);
    assert Node(p.Child(c).depth - 1, p.Child(c).value / 2) == p;
    assert ids[p] < |ids|;
  }

  lemma OtherLooks(sizes: seq<nat>, k: nat, look: seq<int>, ids: map<Node, nat>, n: Node)
    requires k <= |sizes| && |look| == FAST_SIZE && LooksOk(sizes, k, ids, look) && n.depth != FAST_BITS
    ensures LooksOk(sizes, k, ids[n := |ids|], look)
  {
    hide Matches, Prefix;
    var ids' := ids[n := |ids|];
    forall x | 0 <= x < FAST_SIZE
      ensures LookOk(sizes, k, ids', x, look[x])
    {
      assert LookOk(sizes, k, ids, x, look[x]);
    }
  }

  /** The path of a long codeword is in place: its last slot gets the symbol. */
  lemma AddLeaf(sizes: seq<nat>, k: nat, look: seq<int>, tree: seq<int>, ids: map<Node, nat>, p: Node, c: nat)
    requires ValidSizes(sizes) && Tables(sizes, k, look, tree, ids) && k < |sizes| && sizes[k] > FAST_BITS
    requires forall n :: On(sizes, k, n) ==> n in ids
    requires p in ids && c < 2 && p.Child(c) == Node(sizes[k], Code(sizes, k))
    ensures 2 * ids[p] + c < TREE_SIZE
    ensures Tables(sizes, k + 1, look, tree[2 * ids[p] + c := k as int], ids)
  {
    assert ChildOk(sizes, k, ids, tree, p, c);
    LeafLooks(sizes, k, look, ids);
    hide LooksOk, LookOk, On;
    LeafTrees(sizes, k, tree, ids, p, c);
    hide TreesOk;
  }

  lemma LeafLooks(sizes: seq<nat>, k: nat, look: seq<int>, ids: map<Node, nat>)
    requires k < |sizes| && |look| == FAST_SIZE && LooksOk(sizes, k, ids, look) && sizes[k] > FAST_BITS
    ensures LooksOk(sizes, k + 1, ids, look)
  {
    hide Matches, Prefix, End;
    var k' := k + 1;
    forall x | 0 <= x < FAST_SIZE
      ensures LookOk(sizes, k', ids, x, look[x])
    {
      assert LookOk(sizes, k, ids, x, look[x]);
    }
  }

  lemma LeafTrees(sizes: seq<nat>, k: nat, tree: seq<int>, ids: map<Node, nat>, p: Node, c: nat)
    requires k < |sizes| && sizes[k] > 0 && |tree| == TREE_SIZE && IdsOk(sizes, ids) && TreesOk(sizes, k, ids, tree)
    requires p in ids && c < 2 && p.Child(c) == Node(sizes[k], Code(sizes, k)) && 2 * ids[p] + c < TREE_SIZE
    ensures TreesOk(sizes, k + 1, ids, tree[2 * ids[p] + c := k as int])
  {
    var k', tree' := k + 1, tree[2 * ids[p] + c := k as int];
    LeafSlot(sizes, k, ids);
    hide SlotOk, Inner, Code;
    forall m, d: nat | m in ids && d < 2
      ensures ChildOk(sizes, k', ids, tree', m, d)
    {
      assert ChildOk(sizes, k, ids, tree, m, d);
      if m != p || d != c {
        assert m.Child(d) != p.Child(c);
        SlotNext(sizes, k, ids, m.Child(d), tree[2 * ids[m] + d]);
      }
    }
  }

  lemma SlotNext(sizes: seq<nat>, k: nat, ids: map<Node, nat>, n: Node, e: int)
    requires k < |sizes| && SlotOk(sizes, k, ids, n, e) && n != Node(sizes[k], Code(sizes, k))
    ensures SlotOk(sizes, k + 1, ids, n, e)
  {
  }

  /** The slot of a codeword is its symbol's alone. */
  lemma LeafSlot(sizes: seq<nat>, k: nat, ids: map<Node, nat>)
    requires k < |sizes| && sizes[k] > 0 && IdsOk(sizes, ids)
    ensures SlotOk(sizes, k + 1, ids, Node(sizes[k], Code(sizes, k)), k)
  {
    var n := Node(sizes[k], Code(sizes, k));
    CodeRange(sizes, k);
    if n in ids {
      InnerPastEnd(sizes, n);
    }
    forall s | 0 <= s < k && sizes[s] == sizes[k]
      ensures Code(sizes, s) != Code(sizes, k)
    {
      SameLengthDistinct(sizes, s, k);
    }
  }

  // ----- building

  /** A codeword with its bits in stream order. */
  method Reverse(code: nat, length: nat) returns (rev: nat)
    requires code < Pow2(length)
    ensures rev == Prefix(code, length) && rev < Pow2(length) && Prefix(rev, length) == code
  {
    rev := 0;
    var cur, l := code, length;
    while l > 0
      invariant 0 <= l <= length
      invariant cur == Shift(code, length - l) && rev == Prefix(code, length - l)
    {
      ShiftStep(code, length - l);
      rev := 2 * rev + cur % 2;
      cur := cur / 2;
      l := l - 1;
    }
    PrefixBound(code, length);
    ReverseTwice(code, length);
  }

  /** The slots of the first table that start with a short codeword are those with its reversed bits. */
  lemma SlotsOfShort(sizes: seq<nat>, k: nat, rev: nat, x: nat)
    requires k < |sizes| && sizes[k] > 0 && rev < Pow2(sizes[k]) && Prefix(rev, sizes[k]) == Code(sizes, k)
    ensures x % Pow2(sizes[k]) == rev <==> Matches(sizes, x, k)
  {
    var l := sizes[k];
    PrefixLow(x, l, l);
    if Matches(sizes, x, k) {
      PrefixInjective(x % Pow2(l), rev, l);
    }
  }

  lemma NextResidue(x: nat, m: nat, r: nat, low: nat)
    requires m > 0 && r < m && low % m == r && low <= x < low + m
    ensures x % m == r <==> x == low
  {
    var q, d := low / m, x - low;
    assert low == q * m + r;
    if r + d < m {
      ModUnique(x, m, q, r + d);
    } else {
      assert x == (q + 1) * m + (r + d - m);
      ModUnique(x, m, q + 1, r + d - m);
    }
  }

  lemma StepResidue(low: nat, m: nat, r: nat)
    requires m > 0 && low % m == r
    ensures (low + m) % m == r
  {
    assert low + m == (low / m + 1) * m + r;
    ModUnique(low + m, m, low / m + 1, r);
  }

  /** The loop that stores a short codeword. */
  method StoreShort(sizes: seq<nat>, k: nat, code: nat, lookUp: array<int>, ghost tree: seq<int>,
                    ghost ids: map<Node, nat>)
    requires k < |sizes| && 0 < sizes[k] <= FAST_BITS && code < Pow2(sizes[k]) && code == Code(sizes, k)
    requires lookUp.Length == FAST_SIZE && Tables(sizes, k, lookUp[..], tree, ids)
    modifies lookUp
    ensures Tables(sizes, k + 1, lookUp[..], tree, ids)
  {
    hide Tables, Code, Prefix, Matches;
    ghost var look := lookUp[..];
    var rev := Reverse(code, sizes[k]);
    var size := Pow2(sizes[k]);
    ghost var r := rev;
    SmallResidue(r, size);
    while rev < FAST_SIZE
      invariant rev % size == r
      invariant forall x :: 0 <= x < FAST_SIZE && x < rev ==>
                lookUp[x] == if x % size == r then FastEntry(sizes, k) else look[x]
      invariant forall x :: rev <= x < FAST_SIZE ==> lookUp[x] == look[x]
      decreases FAST_SIZE - rev
    {
      lookUp[rev] := sizes[k] * 512 + k;
      forall x | rev <= x < rev + size
        ensures x % size == r <==> x == rev
      {
        NextResidue(x, size, r, rev);
      }
      StepResidue(rev, size, r);
      rev := rev + size;
    }
    forall x | 0 <= x < FAST_SIZE
      ensures lookUp[x] == if Matches(sizes, x, k) then FastEntry(sizes, k) else look[x]
    {
      SlotsOfShort(sizes, k, r, x);
    }
    AddShort(sizes, k, look, lookUp[..], tree, ids);
  }

  lemma SmallResidue(r: nat, m: nat)
    requires r < m
    ensures r % m == r
    ensures forall x :: 0 <= x < r ==> x % m != r
  {
    forall x | 0 <= x < r
      ensures x % m != r
    {
      ModUnique(x, m, 0, x);
    }
    ModUnique(r, m, 0, r);
  }

  /** The numbered nodes on the way to the codeword of symbol k. */
  ghost predicate PathTo(sizes: seq<nat>, k: nat, ids: map<Node, nat>, rev: nat, d: nat)
    requires k < |sizes|
  {
    forall e :: FAST_BITS <= e <= d && e < sizes[k] ==> Node(e, Prefix(rev, e)) in ids
  }

  lemma PathNode(sizes: seq<nat>, k: nat, rev: nat, d: nat)
    requires k < |sizes| && Prefix(rev, sizes[k]) == Code(sizes, k) && FAST_BITS <= d < sizes[k]
    ensures On(sizes, k, Node(d, Prefix(rev, d))) && Inner(sizes, Node(d, Prefix(rev, d)))
  {
    PrefixShift(rev, sizes[k], d);
    var n := Node(d, Prefix(rev, d));
    assert On(sizes, k, n);
  }

  lemma PathComplete(sizes: seq<nat>, k: nat, ids: map<Node, nat>, rev: nat)
    requires k < |sizes| && Prefix(rev, sizes[k]) == Code(sizes, k) && PathTo(sizes, k, ids, rev, sizes[k])
    ensures forall n :: On(sizes, k, n) ==> n in ids
  {
    forall n | On(sizes, k, n)
      ensures n in ids
    {
      PathNode(sizes, k, rev, n.depth);
      assert Node(n.depth, Prefix(rev, n.depth)) == n;
    }
  }

  /** The walk that stores a long codeword, making the nodes it misses. */
  method StoreLong(sizes: seq<nat>, k: nat, code: nat, lookUp: array<int>, tree: array<int>, next: int,
                   ghost ids: map<Node, nat>)
    returns (next': int, ghost ids': map<Node, nat>)
    requires ValidSizes(sizes) && Buildable(sizes)
    requires k < |sizes| && FAST_BITS < sizes[k] && code < Pow2(sizes[k]) && code == Code(sizes, k)
    requires lookUp.Length == FAST_SIZE && tree.Length == TREE_SIZE && lookUp != tree
    requires Tables(sizes, k, lookUp[..], tree[..], ids) && next == NodeEntry(|ids|)
    modifies lookUp, tree
    ensures Tables(sizes, k + 1, lookUp[..], tree[..], ids') && next' == NodeEntry(|ids'|)
  {
    hide Tables, Code, Prefix, ValidSizes, Buildable, Inner, On, Shift, Pow2;
    next', ids' := next, ids;
    var rev := Reverse(code, sizes[k]);
    ghost var r := rev;
    var x := rev % FAST_SIZE;
    ghost var d: nat := FAST_BITS;
    RootOf(sizes, k, r, lookUp[..], tree[..], ids');
    PathNode(sizes, k, r, FAST_BITS);
    var cur := lookUp[x];
    if cur == 0 {
      AddRoot(sizes, k, lookUp[..], tree[..], ids', x);
      ids' := ids'[Node(FAST_BITS, Prefix(x, FAST_BITS)) := |ids'|];
      ghost var look' := lookUp[..][x := next'];
      lookUp[x] := next';
      assert lookUp[..] == look';
      cur := next';
      next' := next' - 2;
    }
    rev := Shift(rev, FAST_BITS - 1);
    var j := sizes[k];
    while j > FAST_BITS + 1
      invariant FAST_BITS + 1 <= j <= sizes[k] && d == FAST_BITS + (sizes[k] - j)
      invariant rev == Shift(r, d - 1)
      invariant Tables(sizes, k, lookUp[..], tree[..], ids') && next' == NodeEntry(|ids'|)
      invariant Node(d, Prefix(r, d)) in ids' && cur == NodeEntry(ids'[Node(d, Prefix(r, d))])
      invariant PathTo(sizes, k, ids', r, d)
    {
      ShiftStep(r, d - 1);
      rev := rev / 2;
      ghost var n := Node(d, Prefix(r, d));
      ghost var c := Bit(r, d);
      NextPrefix(r, d);
      WalkSlot(sizes, k, lookUp[..], tree[..], ids', n, c);
      PathNode(sizes, k, r, d + 1);
      cur := cur - rev % 2;
      if tree[-cur - 1] == 0 {
        AddChild(sizes, k, lookUp[..], tree[..], ids', n, c);
        ghost var tree' := tree[..][-cur - 1 := next'];
        ids' := ids'[n.Child(c) := |ids'|];
        tree[-cur - 1] := next';
        assert tree[..] == tree';
        cur := next';
        next' := next' - 2;
      } else {
        cur := tree[-cur - 1];
      }
      d := d + 1;
      j := j - 1;
    }
    ShiftStep(r, d - 1);
    rev := rev / 2;
    ghost var n := Node(d, Prefix(r, d));
    ghost var c := Bit(r, d);
    NextPrefix(r, d);
    cur := cur - rev % 2;
    PathComplete(sizes, k, ids', r);
    AddLeaf(sizes, k, lookUp[..], tree[..], ids', n, c);
    ghost var tree' := tree[..][-cur - 1 := k as int];
    tree[-cur - 1] := k;
    assert tree[..] == tree';
  }

  lemma NextPrefix(r: nat, d: nat)
    ensures Node(d, Prefix(r, d)).Child(Bit(r, d)) == Node(d + 1, Prefix(r, d + 1))
    ensures Bit(r, d) == Shift(r, d) % 2
  {
  }

  /** The slot of the ten first bits is free exactly if they have no tree. */
  lemma RootOf(sizes: seq<nat>, k: nat, r: nat, look: seq<int>, tree: seq<int>, ids: map<Node, nat>)
    requires Tables(sizes, k, look, tree, ids) && k < |sizes| && sizes[k] > FAST_BITS
             && Prefix(r, sizes[k]) == Code(sizes, k)
    ensures Prefix(r % FAST_SIZE, FAST_BITS) == Prefix(r, FAST_BITS)
    ensures var n := Node(FAST_BITS, Prefix(r, FAST_BITS));
            if n in ids then look[r % FAST_SIZE] == NodeEntry(ids[n]) else look[r % FAST_SIZE] == 0
  {
    Pow2Values();
    PrefixLow(r, FAST_BITS, FAST_BITS);
    PathNode(sizes, k, r, FAST_BITS);
    hide IdsOk, PathsOk, TreesOk, Prefix;
    InnerPastEnd(sizes, Node(FAST_BITS, Prefix(r, FAST_BITS)));
    assert LookOk(sizes, k, ids, r % FAST_SIZE, look[r % FAST_SIZE]);
  }

  /** A slot on the path is free exactly if its node has no number. */
  lemma WalkSlot(sizes: seq<nat>, k: nat, look: seq<int>, tree: seq<int>, ids: map<Node, nat>, n: Node, c: nat)
    requires Tables(sizes, k, look, tree, ids) && n in ids && c < 2
    ensures 0 <= 2 * ids[n] + c < TREE_SIZE
    ensures Inner(sizes, n.Child(c)) ==>
              if n.Child(c) in ids then tree[2 * ids[n] + c] == NodeEntry(ids[n.Child(c)])
                else tree[2 * ids[n] + c] == 0
  {
    hide IdsOk, PathsOk, LooksOk;
    assert ChildOk(sizes, k, ids, tree, n, c);
    if Inner(sizes, n.Child(c)) {
      InnerPastEnd(sizes, n.Child(c));
    }
  }

  /** Symbols per length. */
  method CountLengths(sizes: seq<nat>) returns (totals: array<nat>)
    requires ValidSizes(sizes)
    ensures fresh(totals) && totals.Length == 16
    ensures forall l :: 0 <= l < 16 ==> totals[l] == CountIn(sizes, |sizes|, l)
  {
    totals := new nat[16](_ => 0);
    var i := 0;
    while i < |sizes|
      invariant 0 <= i <= |sizes|
      invariant forall l :: 0 <= l < 16 ==> totals[l] == CountIn(sizes, i, l)
    {
      totals[sizes[i]] := totals[sizes[i]] + 1;
      i := i + 1;
    }
  }

  lemma NextFirst(sizes: seq<nat>, l: nat)
    ensures l == 0 ==> First(sizes, 0) == First(sizes, 1) == 0 && Used(sizes, 0) == 0
    ensures l > 0 ==> First(sizes, l + 1) == (First(sizes, l) + CountIn(sizes, |sizes|, l)) * 2
    ensures l > 0 ==> Used(sizes, l) == Used(sizes, l - 1) + CountIn(sizes, |sizes|, l)
  {
  }

  /** First codewords per length, the number of symbols in use, and the filled code space. */
  method FirstCodes(sizes: seq<nat>, totals: array<nat>) returns (nextCode: array<nat>, used: nat, total: nat)
    requires ValidSizes(sizes) && totals.Length == 16
    requires forall l :: 0 <= l < 16 ==> totals[l] == CountIn(sizes, |sizes|, l)
    ensures fresh(nextCode) && nextCode.Length == 17
    ensures forall l :: 0 <= l <= 16 ==> nextCode[l] == First(sizes, l)
    ensures used == Used(sizes, MAX_LENGTH) && total == First(sizes, 16)
  {
    hide First, Used, CountIn;
    NextFirst(sizes, 0);
    nextCode := new nat[17](_ => 0);
    used, total := 0, 0;
    var i := 1;
    while i <= 15
      invariant 1 <= i <= 16
      invariant used == Used(sizes, i - 1) && total == First(sizes, i)
      invariant forall l :: 0 <= l <= i ==> nextCode[l] == First(sizes, l)
    {
      NextFirst(sizes, i);
      used := used + totals[i];
      total := (total + totals[i]) * 2;
      nextCode[i + 1] := total;
      i := i + 1;
    }
  }

  /** The table construction: it refuses exactly the lengths that leave code space empty or overfull,
      one symbol apart, and otherwise the tables decode every codeword. */
  method Build(sizes: seq<nat>, lookUp: array<int>, tree: array<int>) returns (ok: bool, ghost ids: map<Node, nat>)
    requires ValidSizes(sizes)
    requires lookUp.Length == FAST_SIZE && tree.Length == TREE_SIZE && lookUp != tree
    modifies lookUp, tree
    ensures ok <==>
              || CodeSpace(sizes, |sizes|, 16) == 65536
              || forall s, t :: 0 <= s < t < |sizes| ==> sizes[s] == 0 || sizes[t] == 0
    ensures ok <==> Buildable(sizes)
    ensures ok ==> Tables(sizes, |sizes|, lookUp[..], tree[..], ids)
  {
    hide Tables, Code, End, First, Prefix, CodeSpace;
    forall x | 0 <= x < FAST_SIZE {
      lookUp[x] := 0;
    }
    forall j | 0 <= j < TREE_SIZE {
      tree[j] := 0;
    }
    ids := map[];
    EmptyTables(sizes, lookUp[..], tree[..]);
    BuildableMeans(sizes);
    var totals := CountLengths(sizes);
    var nextCode, used, total := FirstCodes(sizes, totals);
    if total != 65536 && used > 1 {
      return false, ids;
    }
    var next := -1;
    var k := 0;
    while k < |sizes|
      invariant 0 <= k <= |sizes|
      invariant Tables(sizes, k, lookUp[..], tree[..], ids) && next == NodeEntry(|ids|)
      invariant forall l :: 0 < l <= MAX_LENGTH ==> nextCode[l] == First(sizes, l) + CountIn(sizes, k, l)
    {
      var size := sizes[k];
      if size == 0 {
        SkipSymbol(sizes, k, lookUp[..], tree[..], ids);
      } else {
        var code := nextCode[size];
        CodeIs(sizes, k);
        CodeFits(sizes, k);
        nextCode[size] := code + 1;
        if size <= FAST_BITS {
          StoreShort(sizes, k, code, lookUp, tree[..], ids);
        } else {
          next, ids := StoreLong(sizes, k, code, lookUp, tree, next, ids);
        }
      }
      k := k + 1;
    }
    ok := true;
  }

  lemma CodeIs(sizes: seq<nat>, k: nat)
    requires k < |sizes|
    ensures Code(sizes, k) == First(sizes, sizes[k]) + CountIn(sizes, k, sizes[k])
  {
  }
}
