/**
 The read call of the UART driver: it empties a ring buffer whose writer moves
 the head, copying across the end of the buffer in two pieces.
 */
module UartRead {
  import opened Bits
  import opened Bytes
  import opened RingIndex
  import opened RingProtocol

  const WM_FAILED := -1
  /** TLS_UART_RX_BUF_SIZE is two to this power. */
  const RX_SIZE_LOG: nat := 12

  /** What lies between tail and head, going round. */
  function Between(b: seq<byte>, head: nat, tail: nat): (r: seq<byte>)
    requires head < |b| && tail < |b|
    ensures |r| == Used(head, tail, |b|)
  {
    if tail <= head then b[tail..head] else b[tail..] + b[..head]
  }

  /** The first n of them, in one or two pieces, and the rest. */
  lemma {:induction false} BetweenSplit(b: seq<byte>, head: nat, tail: nat, n: nat)
    requires head < |b| && tail < |b| && n <= Used(head, tail, |b|)
    ensures tail + n <= |b| ==> Between(b, head, tail)[..n] == b[tail..tail + n]
    ensures tail + n > |b| ==> Between(b, head, tail)[..n] == b[tail..|b|] + b[0..tail + n - |b|]
    ensures Between(b, head, tail)[n..] == Between(b, head, if tail + n < |b| then tail + n else tail + n - |b|)
  {
    if tail <= head {
      SliceSplit(b, tail, head, n);
    } else if tail + n < |b| {
      TakenBefore(b[tail..], b[..head], n);
      SliceSplit(b, tail, |b|, n);
    } else {
      TakenBehind(b[tail..], b[..head], n);
      SliceSplit(b, 0, head, tail + n - |b|);
    }
  }

  lemma {:induction false} SliceSplit(b: seq<byte>, from: nat, to: nat, n: nat)
    requires from + n <= to <= |b|
    ensures b[from..to][..n] == b[from..from + n] && b[from..to][n..] == b[from + n..to]
  {
  }

  lemma {:induction false} TakenBefore(a: seq<byte>, b: seq<byte>, n: nat)
    requires n <= |a|
    ensures (a + b)[..n] == a[..n] && (a + b)[n..] == a[n..] + b
  {
  }

  lemma {:induction false} TakenBehind(a: seq<byte>, b: seq<byte>, n: nat)
    requires |a| <= n <= |a| + |b|
    ensures (a + b)[..n] == a + b[..n - |a|] && (a + b)[n..] == b[n - |a|..]
  {
  }

  /** Copies n bytes from a position, going round the end of the source. */
  method CopyAround(dst: array<byte>, src: array<byte>, from: nat, n: nat)
    requires from <= src.Length < from + n && n <= src.Length && n <= dst.Length && dst != src
    modifies dst
    ensures dst[..] == Overlay(old(dst[..]), 0, src[..][from..src.Length] + src[..][0..from + n - src.Length])
  {
    var copied := src.Length - from;
    ghost var d := dst[..];
    Copy(dst, 0, src, from, copied);
    Copy(dst, copied, src, 0, n - copied);
    OverlayTwice(d, src[..][from..from + copied], src[..][0..0 + (n - copied)]);
  }

  class ReceiveBuffer {
    const buf: array<byte>
    var head: nat
    var tail: nat

    ghost predicate Valid()
      reads this, buf
    {
      buf.Length == Pow2(RX_SIZE_LOG) && head < buf.Length && tail < buf.Length
    }

    /** The bytes received and not yet read, oldest first. */
    ghost function Unread(): seq<byte>
      requires Valid()
      reads this, buf
    {
      Between(buf[..], head, tail)
    }

    /** Copies the first n unread bytes out. */
    method Take(dst: array<byte>, n: nat)
      requires Valid() && n <= Used(head, tail, buf.Length) && n <= dst.Length && dst != buf
      modifies dst
      ensures dst[..] == Overlay(old(dst[..]), 0, Unread()[..n])
    {
      BetweenSplit(buf[..], head, tail, n);
      if tail + n > buf.Length {
        CopyAround(dst, buf, tail, n);
      } else {
        Copy(dst, 0, buf, tail, n);
      }
    }

    method Count() returns (n: nat)
      requires Valid()
      ensures n == |Unread()|
    {
      CountAndSpace(head, tail, RX_SIZE_LOG);
      n := CircCnt(head, tail, buf.Length);
    }

    /** Moves the tail over the first n unread bytes. */
    method Drop(n: nat)
      requires Valid() && n <= |Unread()|
      modifies this`tail
      ensures Valid() && Unread() == old(Unread())[n..]
    {
      BetweenSplit(buf[..], head, tail, n);
      AdvanceNear(tail, n, RX_SIZE_LOG);
      tail := Advance(tail, n, buf.Length);
    }

    /** Copies min(readsize, unread) bytes out, oldest first, and consumes them. */
    method Read(dst: array<byte>, readsize: nat) returns (n: int)
      requires Valid() && readsize <= dst.Length && dst != buf
      modifies this`tail, dst
      ensures Valid()
      ensures n == if readsize < 1 then -1 else Min(readsize, |old(Unread())|)
      ensures readsize < 1 ==> dst[..] == old(dst[..]) && tail == old(tail)
      ensures readsize >= 1 ==> dst[..] == Overlay(old(dst[..]), 0, old(Unread())[..n])
      ensures readsize >= 1 ==> Unread() == old(Unread())[n..]
    {
      if readsize < 1 {
        return WM_FAILED;
      }
      var dataCnt := Count();
      var buflen := if dataCnt >= readsize then readsize else dataCnt;
      Take(dst, buflen);
      Drop(buflen);
      n := buflen;
    }
  }
}
