/** The byte type and the C-string helpers the other modules share. */
module Bytes {
  type byte = x: int | 0 <= x < 256

  datatype Option<+T> = None | Some(value: T)

  /** Index of the first x in s, or |s| when there is none. */
  function IndexOf(s: seq<byte>, x: byte): (n: nat)
    ensures n <= |s|
    ensures n < |s| ==> s[n] == x
  {
    if s == [] || s[0] == x then 0 else 1 + IndexOf(s[1..], x)
  }

  lemma {:induction false} IndexOfFirst(s: seq<byte>, x: byte)
    ensures forall i | 0 <= i < IndexOf(s, x) :: s[i] != x
  {
    if s != [] && s[0] != x {
      IndexOfFirst(s[1..], x);
      assert forall i | 0 < i < |s| :: s[i] == s[1..][i - 1];
    }
  }

  lemma {:induction false} IndexOfUnique(s: seq<byte>, x: byte, n: nat)
    requires n <= |s|
    requires forall i | 0 <= i < n :: s[i] != x
    requires n < |s| ==> s[n] == x
    ensures IndexOf(s, x) == n
  {
    IndexOfFirst(s, x);
  }

  lemma {:induction false} Associate<T>(a: seq<T>, b: seq<T>, c: seq<T>)
    ensures a + b + c == a + (b + c)
  {
  }

  function Fill(x: byte, n: nat): (b: seq<byte>)
    ensures |b| == n
  {
    seq(n, _ => x)
  }

  function Concat<T>(chunks: seq<seq<T>>): seq<T> {
    if chunks == [] then [] else chunks[0] + Concat(chunks[1..])
  }

  lemma {:induction false} ConcatAppend<T>(a: seq<seq<T>>, b: seq<seq<T>>)
    ensures Concat(a + b) == Concat(a) + Concat(b)
  {
    if a == [] {
      assert a + b == b;
    } else {
      assert (a + b)[1..] == a[1..] + b;
      ConcatAppend(a[1..], b);
    }
  }

  /** s without the first x in it. */
  function Dropping<T(==)>(s: seq<T>, x: T): (r: seq<T>) {
    if s == [] then [] else if s[0] == x then s[1..] else [s[0]] + Dropping(s[1..], x)
  }

  lemma {:induction false} DroppingMeans<T>(p: seq<T>, x: T, q: seq<T>)
    requires x !in p && (q == [] || q[0] == x)
    ensures Dropping(p + q, x) == p + if q == [] then [] else q[1..]
  {
    if p == [] {
      assert p + q == q;
    } else {
      assert (p + q)[1..] == p[1..] + q;
      DroppingMeans(p[1..], x, q);
    }
  }

  /** d with x written over it at a position. */
  function Overlay(d: seq<byte>, at: nat, x: seq<byte>): (r: seq<byte>)
    requires at + |x| <= |d|
    ensures |r| == |d|
  {
    d[..at] + x + d[at + |x|..]
  }

  lemma {:induction false} OverlayTwice(d: seq<byte>, x: seq<byte>, y: seq<byte>)
    requires |x| + |y| <= |d|
    ensures Overlay(Overlay(d, 0, x), |x|, y) == Overlay(d, 0, x + y)
  {
  }

  /** memcpy of n bytes between two blocks. */
  method Copy(dst: array<byte>, at: nat, src: array<byte>, from: nat, n: nat)
    requires at + n <= dst.Length && from + n <= src.Length && dst != src
    modifies dst
    ensures dst[..] == Overlay(old(dst[..]), at, src[..][from..from + n])
  {
    forall i | 0 <= i < n {
      dst[at + i] := src[from + i];
    }
  }
}
