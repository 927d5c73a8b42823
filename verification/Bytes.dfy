/** Bytes and the little-endian fields of the on-disk structures. */
module Bytes {
  type byte = x: int | 0 <= x < 256

  datatype Option<+T> = None | Some(value: T)

  function Min(a: int, b: int): int { if a < b then a else b }

  function Ascii(s: string): seq<byte>
    requires forall i :: 0 <= i < |s| ==> s[i] < 128 as char
  {
    seq(|s|, i requires 0 <= i < |s| => s[i] as int)
  }

  /** The value of a little-endian field, least significant byte first. */
  function LittleEndian(b: seq<byte>): nat {
    if b == [] then 0 else b[0] + 256 * LittleEndian(b[1..])
  }

  /** `width` bytes of `n`, least significant first. */
  function Encode(n: nat, width: nat): (b: seq<byte>)
    ensures |b| == width
  {
    if width == 0 then [] else [n % 256] + Encode(n / 256, width - 1)
  }

  function Pow256(width: nat): (p: nat)
    ensures p > 0
  {
    if width == 0 then 1 else 256 * Pow256(width - 1)
  }

  /** A field holds a number exactly up to its width. */
  lemma {:induction false} EncodeRoundTrip(n: nat, width: nat)
    ensures LittleEndian(Encode(n, width)) == n % Pow256(width)
  {
    if width == 0 {
    } else {
      EncodeRoundTrip(n / 256, width - 1);
      var b := Encode(n, width);
      assert b[0] == n % 256 && b[1..] == Encode(n / 256, width - 1);
      ModSplit(n, Pow256(width - 1));
    }
  }

  /** The bytes after the first i count 256^i times as much. */
  lemma {:induction false} LittleEndianSplit(b: seq<byte>, i: nat)
    requires i <= |b|
    ensures LittleEndian(b) == LittleEndian(b[..i]) + Pow256(i) * LittleEndian(b[i..])
  {
    if i > 0 {
      LittleEndianSplit(b[1..], i - 1);
      assert b[..i][1..] == b[1..][..i - 1] && b[1..][i - 1..] == b[i..];
      Scale(Pow256(i - 1), LittleEndian(b[i..]));
    } else {
      assert b[0..] == b;
    }
  }

  lemma Scale(p: nat, x: nat)
    ensures 256 * (p * x) == (256 * p) * x
  {
  }

  lemma ModSplit(n: nat, p: nat)
    requires p > 0
    ensures n % 256 + 256 * (n / 256 % p) == n % (256 * p)
  {
    var q, r := n / 256 / p, n / 256 % p;
    assert n / 256 == q * p + r;
    assert n == 256 * (q * p + r) + n % 256;
    assert n == q * (256 * p) + (256 * r + n % 256);
    assert 0 <= 256 * r + n % 256 < 256 * p;
    ModUnique(n, 256 * p, q, 256 * r + n % 256);
  }

  lemma ModUnique(n: nat, m: nat, q: nat, r: nat)
    requires n == q * m + r && r < m
    ensures n % m == r && n / m == q
  {
    var q', r' := n / m, n % m;
    assert (q - q') * m == r' - r;
    if q > q' {
      assert (q - q') * m >= m by { MulAtLeast(q - q', m); }
    } else if q < q' {
      assert (q' - q) * m >= m by { MulAtLeast(q' - q, m); }
    }
  }

  lemma MulAtLeast(a: int, m: nat)
    requires a >= 1
    ensures a * m >= m
  {
    assert a * m == (a - 1) * m + m;
  }

  /** Values that fit their field survive a round trip. */
  lemma FieldRoundTrip(n: nat, width: nat)
    requires n < Pow256(width)
    ensures LittleEndian(Encode(n, width)) == n
  {
    EncodeRoundTrip(n, width);
  }

  lemma Pow256Values()
    ensures Pow256(2) == 0x1_0000 && Pow256(4) == 0x1_0000_0000 && Pow256(8) == 0x1_0000_0000_0000_0000
  {
    assert Pow256(2) == 0x1_0000;
    assert Pow256(4) == 0x1_0000_0000;
    assert Pow256(6) == 0x1_0000_0000_0000;
  }

  lemma DivMod(a: nat, m: nat)
    requires m > 0
    ensures a == a / m * m + a % m && a % m < m
  {
  }

  lemma MulMono(a: nat, b: nat, c: nat)
    requires a <= b
    ensures a * c <= b * c
  {
  }
}
