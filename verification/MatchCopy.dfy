/** Copying a match inside the inflated output (win/tinfl.c).

Section 3.2.3 of RFC 1951 lets a match reach into the bytes it is producing: byte i of the copy is
the byte `dist` places before it, which may itself have just been written. The inflater has three
ways to do this in a non-wrapping buffer: byte by byte when the buffer might end, eight bytes at a
time when source and target do not overlap, and three at a time otherwise. */
module MatchCopy {
  import opened Bytes

  /** The output with a match of n bytes appended at p, one byte at a time. */
  function Copied(out: seq<byte>, p: nat, dist: nat, n: nat): (r: seq<byte>)
    requires 0 < dist <= p && p + n <= |out|
    ensures |r| == |out|
  {
    if n == 0 then out else
      var before := Copied(out, p, dist, n - 1);
      before[p + n - 1 := before[p + n - 1 - dist]]
  }

  /** What the copy means: every byte of the match repeats the byte `dist` before it, and nothing
      else changes. */
  lemma {:induction false} CopiedMeaning(out: seq<byte>, p: nat, dist: nat, n: nat)
    requires 0 < dist <= p && p + n <= |out|
    ensures var r := Copied(out, p, dist, n);
            && r[..p] == out[..p] && r[p + n..] == out[p + n..]
            && forall i :: p <= i < p + n ==> r[i] == r[i - dist]
  {
    if n > 0 {
      CopiedMeaning(out, p, dist, n - 1);
      var before, r := Copied(out, p, dist, n - 1), Copied(out, p, dist, n);
      assert r[p + n..] == before[p + n..] == out[p + n..] by {
        assert before[p + n - 1..][1..] == before[p + n..];
        assert out[p + n - 1..][1..] == out[p + n..];
      }
      assert r[..p] == before[..p];
    }
  }

  /** That meaning leaves no freedom. */
  lemma {:induction false} CopyUnique(out: seq<byte>, p: nat, dist: nat, n: nat, r: seq<byte>)
    requires 0 < dist <= p && p + n <= |out| && |r| == |out|
    requires r[..p] == out[..p] && r[p + n..] == out[p + n..]
    requires forall i :: p <= i < p + n ==> r[i] == r[i - dist]
    ensures r == Copied(out, p, dist, n)
  {
    var c := Copied(out, p, dist, n);
    CopiedMeaning(out, p, dist, n);
    SamePrefix(r, c, p, dist, n);
    assert r == r[..p + n] + r[p + n..];
    assert c == c[..p + n] + c[p + n..];
  }

  lemma {:induction false} SamePrefix(r: seq<byte>, c: seq<byte>, p: nat, dist: nat, n: nat)
    requires 0 < dist <= p && p + n <= |r| == |c| && r[..p] == c[..p]
    requires forall i :: p <= i < p + n ==> r[i] == r[i - dist]
    requires forall i :: p <= i < p + n ==> c[i] == c[i - dist]
    ensures r[..p + n] == c[..p + n]
  {
    if n > 0 {
      SamePrefix(r, c, p, dist, n - 1);
      var i := p + n - 1;
      assert r[i - dist] == r[..i][i - dist] == c[..i][i - dist] == c[i - dist];
      assert r[..p + n] == r[..i] + [r[i]];
      assert c[..p + n] == c[..i] + [c[i]];
    }
  }

  /** A match interrupted by the end of the buffer and resumed is the whole match. */
  lemma {:induction false} CopySplit(out: seq<byte>, p: nat, dist: nat, a: nat, b: nat)
    requires 0 < dist <= p && p + a + b <= |out|
    ensures Copied(Copied(out, p, dist, a), p + a, dist, b) == Copied(out, p, dist, a + b)
  {
    if b > 0 {
      CopySplit(out, p, dist, a, b - 1);
    }
  }

  /** As far as `n` bytes of the match starting at p have been written. */
  ghost predicate Done(out: seq<byte>, was: seq<byte>, p: nat, dist: nat, n: nat) {
    && 0 < dist <= p && p + n <= |was|
    && out == Copied(was, p, dist, n)
  }

  /** The path taken when the buffer may be too small: it stops at `end` and leaves the rest. */
  method CopyBytewise(out: array<byte>, p: nat, dist: nat, length: nat, end: nat) returns (cur: nat, left: nat)
    requires 0 < dist <= p <= end <= out.Length
    modifies out
    ensures cur == p + (length - left) && left <= length && (left > 0 ==> cur == end) && cur <= end
    ensures out[..] == Copied(old(out[..]), p, dist, length - left)
  {
    cur, left := p, length;
    while left > 0
      invariant 0 <= left <= length && cur == p + (length - left) <= end
      invariant Done(out[..], old(out[..]), p, dist, length - left)
    {
      if cur >= end {
        return;
      }
      left := left - 1;
      out[cur] := out[cur - dist];
      cur := cur + 1;
    }
  }

  /** A word store copies four bytes at once. */
  method CopyWord(out: array<byte>, to: nat, from: nat, ghost was: seq<byte>, ghost p: nat, ghost dist: nat,
                  ghost n: nat)
    requires from + 4 <= to && to + 4 <= out.Length
    requires Done(out[..], was, p, dist, n) && to == p + n && from == to - dist && p + n + 4 <= |was| == out.Length
    modifies out
    ensures Done(out[..], was, p, dist, n + 4)
  {
    ghost var o := out[..];
    var a, b, c, d := out[from], out[from + 1], out[from + 2], out[from + 3];
    out[to], out[to + 1], out[to + 2], out[to + 3] := a, b, c, d;
    assert out[..] == o[to := o[from]][to + 1 := o[from + 1]][to + 2 := o[from + 2]][to + 3 := o[from + 3]];
    CopySplit(was, p, dist, n, 4);
    FourSteps(o, to, dist);
  }

  lemma FourSteps(o: seq<byte>, to: nat, dist: nat)
    requires 4 <= dist <= to && to + 4 <= |o|
    ensures Copied(o, to, dist, 4) ==
            o[to := o[to - dist]][to + 1 := o[to + 1 - dist]][to + 2 := o[to + 2 - dist]][to + 3 := o[to + 3 - dist]]
  {
    assert Copied(o, to, dist, 0) == o;
    var a := Copied(o, to, dist, 1);
    assert a == o[to := o[to - dist]];
    var b := Copied(o, to, dist, 2);
    assert b == a[to + 1 := a[to + 1 - dist]];
    var c := Copied(o, to, dist, 3);
    assert c == b[to + 2 := b[to + 2 - dist]];
  }

  /** One byte of the match. */
  method CopyByte(out: array<byte>, to: nat, from: nat, ghost was: seq<byte>, ghost p: nat, ghost dist: nat,
                  ghost n: nat)
    requires from < to < out.Length
    requires Done(out[..], was, p, dist, n) && to == p + n && from == to - dist && p + n + 1 <= |was| == out.Length
    modifies out
    ensures Done(out[..], was, p, dist, n + 1)
  {
    ghost var o := out[..];
    out[to] := out[from];
    assert out[..] == o[to := o[from]];
  }

  /** The last one or two bytes. */
  method CopyRest(out: array<byte>, to: nat, from: nat, count: nat, ghost was: seq<byte>, ghost p: nat,
                  ghost dist: nat, ghost n: nat)
    requires from + count <= to + count <= out.Length && count <= 2
    requires Done(out[..], was, p, dist, n) && to == p + n && from == to - dist && p + n + count <= |was| == out.Length
    modifies out
    ensures Done(out[..], was, p, dist, n + count)
  {
    hide Done;
    DoneBounds(out[..], was, p, dist, n);
    if count > 0 {
      CopyByte(out, to, from, was, p, dist, n);
      if count > 1 {
        CopyByte(out, to + 1, from + 1, was, p, dist, n + 1);
      }
    }
  }

  lemma DoneBounds(out: seq<byte>, was: seq<byte>, p: nat, dist: nat, n: nat)
    requires Done(out, was, p, dist, n)
    ensures 0 < dist <= p && |out| == |was|
  {
  }

  /** Eight bytes at a time, as two word stores. */
  method CopyEights(out: array<byte>, p: nat, dist: nat, length: nat, ghost was: seq<byte>) returns (cur: nat)
    requires 9 <= length <= dist <= p && p + length <= out.Length == |was|
    requires Done(out[..], was, p, dist, 0)
    modifies out
    ensures cur == p + length / 8 * 8 && Done(out[..], was, p, dist, length / 8 * 8)
  {
    hide Done;
    var src := p - dist;
    cur := p;
    var srcEnd := src + length / 8 * 8;
    ghost var n := 0;
    while src < srcEnd
      invariant 0 <= n <= length / 8 * 8 && n % 8 == 0
      invariant cur == p + n && src == cur - dist
      invariant Done(out[..], was, p, dist, n)
      decreases srcEnd - src
    {
      CopyWord(out, cur, src, was, p, dist, n);
      CopyWord(out, cur + 4, src + 4, was, p, dist, n + 4);
      cur := cur + 8;
      src := src + 8;
      n := n + 8;
    }
  }

  /** Three bytes at a time, then the rest. */
  method CopyThrees(out: array<byte>, p: nat, dist: nat, n0: nat, count: nat, ghost was: seq<byte>) returns (cur: nat)
    requires 0 < dist <= p && count >= 3 && p + n0 + count <= out.Length == |was|
    requires Done(out[..], was, p, dist, n0)
    modifies out
    ensures cur == p + n0 + count && Done(out[..], was, p, dist, n0 + count)
  {
    hide Done;
    cur := p + n0;
    var src := cur - dist;
    var counter: int := count;
    ghost var n := n0;
    while true
      invariant counter >= 3 && n + counter == n0 + count
      invariant cur == p + n && src == cur - dist
      invariant Done(out[..], was, p, dist, n)
      decreases counter
    {
      CopyByte(out, cur, src, was, p, dist, n);
      CopyByte(out, cur + 1, src + 1, was, p, dist, n + 1);
      CopyByte(out, cur + 2, src + 2, was, p, dist, n + 2);
      cur, src, n := cur + 3, src + 3, n + 3;
      counter := counter - 3;
      if !(counter > 2) {
        break;
      }
    }
    CopyRest(out, cur, src, counter, was, p, dist, n);
    cur := cur + counter;
  }

  /** The match of `length` bytes at distance `dist` appended at p, whichever path is taken. `left`
      bytes remain to be copied when the buffer has room again. */
  method Copy(out: array<byte>, p: nat, dist: nat, length: nat, end: nat) returns (cur: nat, left: nat)
    requires 0 < dist <= p <= end <= out.Length && length >= 3
    modifies out
    ensures left == if p + length > end then p + length - end else 0
    ensures cur == p + (length - left)
    ensures out[..] == Copied(old(out[..]), p, dist, length - left)
  {
    ghost var was := out[..];
    cur, left := p, 0;
    if p + length > end {
      cur, left := CopyBytewise(out, p, dist, length, end);
      return;
    }
    var n, counter := 0, length;
    if counter >= 9 && counter <= dist {
      cur := CopyEights(out, p, dist, length, was);
      n := length / 8 * 8;
      counter := counter % 8;
      if counter < 3 {
        CopyRest(out, cur, cur - dist, counter, was, p, dist, n);
        cur := cur + counter;
        return;
      }
    }
    cur := CopyThrees(out, p, dist, n, counter, was);
  }
}
