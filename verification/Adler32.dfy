/** The Adler-32 checksum of the inflated output (win/tinfl.c).

Section 2.2 of RFC 1950 defines two sums reduced modulo 65521 at every byte. The inflater adds
eight bytes at a time, in 32-bit words, and reduces only once per 5552 bytes. */
module Adler32 {
  import opened Bytes

  const BASE := 65521
  const NMAX := 5552
  const WORD := 0x1_0000_0000

  /** The definition: s1 is the sum of the bytes, s2 the sum of the s1 values. */
  function Sums(s1: nat, s2: nat, data: seq<byte>): (nat, nat) {
    if data == [] then (s1, s2) else
      var (a, b) := Sums(s1, s2, data[..|data| - 1]);
      var a' := (a + data[|data| - 1]) % BASE;
      (a', (b + a') % BASE)
  }

  function Pack(s1: nat, s2: nat): nat { s2 * 0x1_0000 + s1 }

  /** The checksum of data that follows data with checksum `adler`. */
  function Update(adler: nat, data: seq<byte>): nat {
    var (s1, s2) := Sums(adler % 0x1_0000, adler / 0x1_0000, data);
    Pack(s1, s2)
  }

  /** The same sums without reduction. */
  function Raw(s1: nat, s2: nat, data: seq<byte>): (nat, nat) {
    if data == [] then (s1, s2) else
      var (a, b) := Raw(s1, s2, data[..|data| - 1]);
      var a' := a + data[|data| - 1];
      (a', b + a')
  }

  lemma Distributes(a: nat, b: nat, c: nat)
    ensures (a + b) * c == a * c + b * c
  {
  }

  lemma AddMod(a: nat, b: nat, m: nat)
    requires m > 0
    ensures (a % m + b) % m == (a + b) % m
  {
    var q, r := a / m, a % m;
    var q', r' := (r + b) / m, (r + b) % m;
    DivMod(a, m);
    DivMod(r + b, m);
    Distributes(q, q', m);
    ModUnique(a + b, m, q + q', r');
  }

  /** Reducing late does not matter. */
  lemma {:induction false} LateReduction(s1: nat, s2: nat, data: seq<byte>)
    ensures var (a, b) := Raw(s1, s2, data);
            Sums(s1 % BASE, s2 % BASE, data) == (a % BASE, b % BASE)
  {
    if data != [] {
      var n := |data| - 1;
      LateReduction(s1, s2, data[..n]);
      var (a, b) := Raw(s1, s2, data[..n]);
      AddMod(a, data[n], BASE);
      AddMod(b, a + data[n], BASE);
      AddMod(a + data[n], b % BASE, BASE);
    }
  }

  function Total(data: seq<byte>): nat { if data == [] then 0 else data[0] + Total(data[1..]) }

  /** The sum in which the first byte counts as often as there are bytes, the last one once. */
  function Weighted(data: seq<byte>): nat {
    if data == [] then 0 else |data| * data[0] + Weighted(data[1..])
  }

  lemma {:induction false} TotalSnoc(data: seq<byte>, x: byte)
    ensures Total(data + [x]) == Total(data) + x
    ensures Weighted(data + [x]) == Weighted(data) + Total(data) + x
  {
    if data != [] {
      TotalSnoc(data[1..], x);
      assert (data + [x])[1..] == data[1..] + [x];
      assert (|data| + 1) * data[0] == |data| * data[0] + data[0];
    }
  }

  lemma {:induction false} RawIs(s1: nat, s2: nat, data: seq<byte>)
    ensures Raw(s1, s2, data) == (s1 + Total(data), s2 + |data| * s1 + Weighted(data))
  {
    if data != [] {
      var init, last := data[..|data| - 1], data[|data| - 1];
      RawIs(s1, s2, init);
      TotalSnoc(init, last);
      assert data == init + [last];
      Distributes(|init|, 1, s1);
    }
  }

  /** The checksum of section 2.2 of RFC 1950 in closed form, where s1 starts as one and s2 as zero: modulo
      65521, one more than the sum of the bytes, and below it their weighted sum and their number. */
  lemma ChecksumIs(data: seq<byte>)
    ensures Update(1, data) == (|data| + Weighted(data)) % 65521 * 65536 + (1 + Total(data)) % 65521
  {
    hide Sums, Raw, Total, Weighted;
    LateReduction(1, 0, data);
    RawIs(1, 0, data);
    assert |data| * 1 == |data|;
  }

  /** Continued from the halves of an earlier checksum. */
  lemma UpdateIs(adler: nat, data: seq<byte>)
    requires data != []
    ensures var s1, s2 := adler % 65536, adler / 65536;
            Update(adler, data) ==
            (s2 + |data| * s1 + Weighted(data)) % 65521 * 65536 + (s1 + Total(data)) % 65521
  {
    hide Sums, Raw, Total, Weighted;
    var s1, s2 := adler % 65536, adler / 65536;
    EarlyReduction(s1, s2, data);
    LateReduction(s1, s2, data);
    RawIs(s1, s2, data);
  }

  /** Reducing early does not matter either, once a byte has been added. */
  lemma {:induction false} EarlyReduction(s1: nat, s2: nat, data: seq<byte>)
    requires data != []
    ensures Sums(s1, s2, data) == Sums(s1 % BASE, s2 % BASE, data)
  {
    var n := |data| - 1;
    if n > 0 {
      EarlyReduction(s1, s2, data[..n]);
    } else {
      assert data[..0] == [];
      AddMod(s1, data[0], BASE);
      AddMod(s2, (s1 + data[0]) % BASE, BASE);
    }
  }

  lemma {:induction false} SumsJoin(s1: nat, s2: nat, a: seq<byte>, b: seq<byte>)
    ensures var (x, y) := Sums(s1, s2, a); Sums(s1, s2, a + b) == Sums(x, y, b)
  {
    if b == [] {
      assert a + b == a;
    } else {
      SumsJoin(s1, s2, a, b[..|b| - 1]);
      assert (a + b)[..|a + b| - 1] == a + b[..|b| - 1];
    }
  }

  lemma {:induction false} SumsReduced(s1: nat, s2: nat, data: seq<byte>)
    requires data != []
    ensures Sums(s1, s2, data).0 < BASE && Sums(s1, s2, data).1 < BASE
  {
  }

  /** A checksum continues across calls: the parts of the output may be added one by one. */
  lemma UpdateJoin(adler: nat, a: seq<byte>, b: seq<byte>)
    requires adler < WORD
    ensures Update(Update(adler, a), b) == Update(adler, a + b)
  {
    var (x, y) := Sums(adler % 0x1_0000, adler / 0x1_0000, a);
    SumsJoin(adler % 0x1_0000, adler / 0x1_0000, a, b);
    if a == [] {
      assert a + b == b;
      assert Pack(x, y) == adler;
    } else {
      SumsReduced(adler % 0x1_0000, adler / 0x1_0000, a);
      ModUnique(Pack(x, y), 0x1_0000, y, x);
    }
  }

  /** Starting from 16-bit halves, 5552 bytes cannot overflow a 32-bit word. */
  lemma {:induction false} RawBound(s1: nat, s2: nat, data: seq<byte>)
    requires s1 < 0x1_0000 && s2 < 0x1_0000
    ensures Raw(s1, s2, data).0 <= 65535 + 255 * |data|
    ensures 2 * Raw(s1, s2, data).1 <= 2 * 65535 * (|data| + 1) + 255 * |data| * (|data| + 1)
  {
    if data != [] {
      var n := |data| - 1;
      RawBound(s1, s2, data[..n]);
      assert 255 * (n + 1) * (n + 2) == 255 * n * (n + 1) + 2 * (255 * (n + 1));
    }
  }

  lemma FitsWord(s1: nat, s2: nat, data: seq<byte>)
    requires s1 < 0x1_0000 && s2 < 0x1_0000 && |data| <= NMAX
    ensures Raw(s1, s2, data).0 < WORD && Raw(s1, s2, data).1 < WORD
  {
    RawBound(s1, s2, data);
    var n := |data|;
    MulMono(n, NMAX, n + 1);
    assert 255 * n * (n + 1) == 255 * (n * (n + 1));
    assert n * (n + 1) <= NMAX * (NMAX + 1) by {
      assert NMAX * (n + 1) <= NMAX * (NMAX + 1);
    }
  }

  /** s1 += byte, s2 += s1, in 32-bit arithmetic. */
  function Step(s1: nat, s2: nat, x: byte): (nat, nat) {
    var a := (s1 + x) % WORD;
    (a, (s2 + a) % WORD)
  }

  lemma StepIsRaw(s1: nat, s2: nat, block: seq<byte>, i: nat)
    requires s1 < 0x1_0000 && s2 < 0x1_0000 && i < |block| <= NMAX
    ensures var (a, b) := Raw(s1, s2, block[..i]);
            Step(a, b, block[i]) == Raw(s1, s2, block[..i + 1])
  {
    assert block[..i + 1][..i] == block[..i];
    FitsWord(s1, s2, block[..i + 1]);
  }

  /** The loop over a block: eight bytes at a time, then the rest. */
  method AddBlock(s1: nat, s2: nat, block: seq<byte>) returns (a: nat, b: nat)
    requires s1 < 0x1_0000 && s2 < 0x1_0000 && |block| <= NMAX
    ensures (a, b) == Raw(s1, s2, block)
  {
    hide Step, Raw;
    RawNothing(s1, s2, block);
    a, b := s1, s2;
    var i := 0;
    while i + 7 < |block|
      invariant 0 <= i <= |block|
      invariant (a, b) == Raw(s1, s2, block[..i])
    {
      a, b := AddByte(s1, s2, block, i, a, b);
      a, b := AddByte(s1, s2, block, i + 1, a, b);
      a, b := AddByte(s1, s2, block, i + 2, a, b);
      a, b := AddByte(s1, s2, block, i + 3, a, b);
      a, b := AddByte(s1, s2, block, i + 4, a, b);
      a, b := AddByte(s1, s2, block, i + 5, a, b);
      a, b := AddByte(s1, s2, block, i + 6, a, b);
      a, b := AddByte(s1, s2, block, i + 7, a, b);
      i := i + 8;
    }
    while i < |block|
      invariant 0 <= i <= |block|
      invariant (a, b) == Raw(s1, s2, block[..i])
    {
      a, b := AddByte(s1, s2, block, i, a, b);
      i := i + 1;
    }
    assert block[..i] == block;
  }

  lemma RawNothing(s1: nat, s2: nat, block: seq<byte>)
    ensures Raw(s1, s2, block[..0]) == (s1, s2)
  {
  }

  method AddByte(ghost s1: nat, ghost s2: nat, block: seq<byte>, i: nat, a: nat, b: nat) returns (a': nat, b': nat)
    requires s1 < 0x1_0000 && s2 < 0x1_0000 && i < |block| <= NMAX
    requires (a, b) == Raw(s1, s2, block[..i])
    ensures (a', b') == Raw(s1, s2, block[..i + 1])
  {
    StepIsRaw(s1, s2, block, i);
    a' := (a + block[i]) % WORD;
    b' := (b + a') % WORD;
  }

  /** The checksum loop: the first block takes the odd bytes, the others 5552 each. */
  method Checksum(adler: nat, data: seq<byte>) returns (r: nat)
    requires adler < WORD
    ensures r == Update(adler, data)
  {
    hide Sums, Raw;
    var s1: nat, s2: nat := adler % 0x1_0000, adler / 0x1_0000;
    ghost var t1: nat, t2: nat := s1, s2;
    var done: nat, blockLen: nat := 0, |data| % NMAX;
    NothingYet(s1, s2, data);
    while done < |data|
      invariant 0 <= done <= |data| && blockLen <= NMAX
      invariant s1 < 0x1_0000 && s2 < 0x1_0000
      invariant (|data| - done) % NMAX == blockLen % NMAX
      invariant blockLen == 0 ==> done == 0
      invariant SameSums(t1, t2, data, done, s1, s2)
      decreases |data| - done, NMAX - blockLen
    {
      BlockFits(|data| - done, blockLen);
      var block := data[done..done + blockLen];
      var a, b := AddBlock(s1, s2, block);
      BlockSums(t1, t2, data, done, block, s1, s2);
      s1, s2 := a % BASE, b % BASE;
      done := done + blockLen;
      blockLen := NMAX;
    }
    assert data[..done] == data;
    r := (s2 * 0x1_0000 + s1) % WORD;
  }

  /** The running halves stand for the sums of the first `done` bytes: exactly those sums, except
      that before the first byte they may already have been reduced. */
  ghost predicate SameSums(t1: nat, t2: nat, data: seq<byte>, done: nat, s1: nat, s2: nat)
    requires done <= |data|
  {
    || (s1, s2) == Sums(t1, t2, data[..done])
    || (done == 0 && data != [] && s1 == t1 % BASE && s2 == t2 % BASE)
  }

  lemma NothingYet(t1: nat, t2: nat, data: seq<byte>)
    ensures SameSums(t1, t2, data, 0, t1, t2)
  {
  }

  lemma BlockFits(left: nat, blockLen: nat)
    requires 0 < left && blockLen <= NMAX && left % NMAX == blockLen % NMAX
    ensures blockLen <= left
    ensures (left - blockLen) % NMAX == 0
  {
  }

  lemma BlockSums(t1: nat, t2: nat, data: seq<byte>, done: nat, block: seq<byte>, s1: nat, s2: nat)
    requires done + |block| <= |data| && block == data[done..done + |block|] && data != []
    requires SameSums(t1, t2, data, done, s1, s2)
    ensures var (a, b) := Raw(s1, s2, block); SameSums(t1, t2, data, done + |block|, a % BASE, b % BASE)
  {
    hide Raw;
    assert data[..done] + block == data[..done + |block|];
    LateReduction(s1, s2, block);
    if block != [] {
      EarlyReduction(s1, s2, block);
      SumsJoin(t1, t2, data[..done], block);
      if done == 0 {
        EarlyReduction(t1, t2, block);
        ReducedTwice(t1);
        ReducedTwice(t2);
      }
    } else {
      NoBytes(t1, t2, data, done, s1, s2);
    }
  }

  lemma ReducedTwice(t: nat)
    ensures t % BASE % BASE == t % BASE
  {
  }

  lemma NoBytes(t1: nat, t2: nat, data: seq<byte>, done: nat, s1: nat, s2: nat)
    requires done <= |data| && data != [] && SameSums(t1, t2, data, done, s1, s2)
    ensures SameSums(t1, t2, data, done, s1 % BASE, s2 % BASE)
    ensures Raw(s1, s2, []) == (s1, s2)
  {
    if done > 0 {
      SumsReduced(t1, t2, data[..done]);
    }
  }
}
