/**
 The streaming header parser of the SSL demo server over its real state: the
 connection's parse buffer, the caller's receive buffer and the allocator.
 */
module HttpParser {
  import opened Bytes
  import opened HttpScan
  import Rings

  /** The allocator, as far as it matters who owns what: only a live block can
      be freed, so a verified program frees nothing twice. */
  class Heap {
    ghost var live: set<object>

    constructor ()
      ensures live == {}
    {
      live := {};
    }

    method Alloc(n: nat) returns (p: array<byte>)
      modifies this
      ensures fresh(p) && p.Length == n
      ensures live == old(live) + {p}
    {
      p := new byte[n];
      live := live + {p};
    }

    /** Moves the block: the first bytes are kept, the old block is gone. */
    method Realloc(a: array<byte>, n: nat) returns (p: array<byte>)
      requires a in live && a.Length <= n
      modifies this
      ensures fresh(p) && p.Length == n && p[..a.Length] == a[..]
      ensures live == old(live) - {a} + {p}
    {
      p := new byte[n];
      Copy(p, 0, a, 0, a.Length);
      live := live - {a} + {p};
    }

    /** A record other than a byte buffer comes into use. */
    ghost method Track(p: object)
      requires p !in live
      modifies this
      ensures live == old(live) + {p}
    {
      live := live + {p};
    }

    ghost method Free(p: object)
      requires p in live
      modifies this
      ensures live == old(live) - {p}
    {
      live := live - {p};
    }
  }

  /** for (; c < end && *c != '\n'; c++); */
  method SeekNewline(buf: array<byte>, from: nat, end: nat) returns (c: nat)
    requires from <= end <= buf.Length
    ensures from <= c <= end
    ensures c - from == IndexOf(buf[from..end], LF)
  {
    c := from;
    while c < end && buf[c] != LF
      invariant from <= c <= end && forall i | from <= i < c :: buf[i] != LF
    {
      c := c + 1;
    }
    IndexOfUnique(buf[from..end], LF, c - from);
  }

  /** Where the fragment of a continued line ends. */
  lemma {:induction false} FragmentReached(line: seq<byte>, buf: seq<byte>, len: nat, c: nat)
    requires line != [] && 0 < len <= |buf| && c == IndexOf(buf[..len], LF)
    ensures Fragment(buf[..Reached(line, buf, len)]) == if c < |buf| && buf[c] == LF then c + 1 else c
  {
    if c == len {
      IndexOfFirst(buf[..len], LF);
      IndexOfUnique(buf[..Reached(line, buf, len)], LF, len);
    }
  }

  lemma {:induction false} Pieces(all: seq<byte>, from: nat, len: nat)
    requires from <= len <= |all|
    ensures all == all[..from] + all[from..len] + all[len..]
  {
  }

  lemma {:induction false} Middle(done: seq<byte>, todo: seq<byte>, post: seq<byte>)
    ensures (done + todo + post)[|done|..|done| + |todo|] == todo
  {
  }

  lemma {:induction false} LineBytes(done: seq<byte>, todo: seq<byte>, post: seq<byte>, n: nat)
    requires n < |todo|
    ensures var s := done + todo + post;
      && s[|done|] == todo[0] && s[|done| + n] == todo[n] && (n > 0 ==> s[|done| + n - 1] == todo[n - 1])
      && (n == 0 && done != [] ==> s[|done| - 1] == done[|done| - 1])
  {
  }

  /** One line of the text cur[tmp..end]; the CR of a header line becomes NUL. */
  method ParseLine(cur: array<byte>, tmp: nat, end: nat, ghost done: seq<byte>, ghost todo: seq<byte>,
                   ghost post: seq<byte>)
    returns (kind: LineKind, c: nat)
    requires cur[..] == done + todo + post && tmp == |done| && end == |done| + |todo|
    requires done != [] ==> done[|done| - 1] != CR
    modifies cur
    ensures kind == Kind(todo) && c == tmp + IndexOf(todo, LF)
    ensures !kind.Header? ==> cur[..] == done + todo + post
    ensures kind.Header? ==> tmp < c < end
    ensures kind.Header? ==> cur[..] == done + Blanked(todo, c - tmp) + todo[c - tmp + 1..] + post
  {
    Middle(done, todo, post);
    assert cur[tmp..end] == todo;
    c := SeekNewline(cur, tmp, end);
    if c == end {
      return Open, c;
    }
    ghost var n := c - tmp;
    LineBytes(done, todo, post, n);
    assert cur[c] == cur[..][|done| + n];
    if c == 0 || cur[c - 1] != CR {
      return Bad, c;
    }
    if cur[tmp] == CR && tmp + 1 == c {
      return Empty, c;
    }
    HeaderBytes(done, todo, post, n);
    cur[c - 1] := 0;
    return Header, c;
  }

  /** The parse loop over the bytes text of buf: passes all header lines and
      stops at the line, starting at tmp, that is something else. */
  method ParseLines(buf: array<byte>, from: nat, len: nat, ghost pre: seq<byte>, ghost text: seq<byte>,
                    ghost post: seq<byte>)
    returns (kind: LineKind, tmp: nat)
    requires buf[..] == pre + text + post && from == |pre| && len == |pre| + |text|
    requires pre != [] ==> pre[|pre| - 1] != CR
    modifies buf
    ensures buf[..] == pre + Blank(text) + post
    ensures from <= tmp <= len && !kind.Header?
    ensures Scan(text) == match kind case Bad => Error case Empty => Complete case _ => Partial
    ensures kind.Open? ==> Pending(text) == buf[tmp..len] && LF !in buf[tmp..len]
  {
    ghost var done, todo := pre, text;
    tmp, kind := from, Header;
    while kind.Header?
      invariant buf[..] == done + todo + post && from <= |done| == tmp && |todo| == len - tmp
      invariant kind.Header? && done != [] ==> done[|done| - 1] != CR
      invariant !kind.Header? ==> kind == Kind(todo)
      invariant Scan(todo) == Scan(text) && Pending(todo) == Pending(text)
      invariant done + Blank(todo) == pre + Blank(text)
      decreases kind.Header?, len - tmp
    {
      var c;
      kind, c := ParseLine(buf, tmp, len, done, todo, post);
      if kind.Header? {
        ghost var n := c - tmp;
        HeaderStep(done, todo, n);
        tmp, done, todo := c + 1, done + Blanked(todo, n), todo[n + 1..];
      }
    }
    Middle(done, todo, post);
    if kind.Open? {
      OpenStep(todo);
    }
  }

  class HttpConn {
    const entry: Rings.Node
    const fd: int
    var parsebuf: array?<byte>
    var parsebuflen: nat
    ghost var fed: seq<seq<byte>>

    constructor (fd: int)
      ensures this.fd == fd && parsebuf == null && parsebuflen == 0 && fresh(entry)
      ensures Valid() && Life() == NEW_LIFE
    {
      entry := new Rings.Node();
      this.fd, parsebuf, parsebuflen, fed := fd, null, 0, [];
    }

    /** The saved open line. */
    function Line(): seq<byte>
      reads this, parsebuf
    {
      if parsebuf == null then [] else parsebuf[..]
    }

    ghost function Life(): HttpScan.Life
      reads this, parsebuf
    {
      HttpScan.Life(Line(), fed)
    }

    ghost function Blocks(): set<object>
      reads this
    {
      if parsebuf == null then {} else {parsebuf}
    }

    /** The parse buffer is there exactly when there is an open line. */
    ghost predicate Valid()
      reads this, parsebuf
    {
      && |Line()| == parsebuflen
      && LF !in Line()
      && (parsebuf == null <==> Line() == [])
    }

    method DropLine(heap: Heap)
      requires parsebuf != null && parsebuf in heap.live
      modifies `parsebuf, `parsebuflen, heap
      ensures parsebuf == null && parsebuflen == 0
      ensures heap.live == old(heap.live) - {old(parsebuf)}
    {
      heap.Free(parsebuf);
      parsebuf := null;
      parsebuflen := 0;
    }

    /** Appends buf[..l] to the saved line. */
    method Splice(heap: Heap, buf: array<byte>, l: nat)
      requires Valid() && parsebuf != null && parsebuf in heap.live
      requires l <= buf.Length
      modifies `parsebuf, `parsebuflen, heap
      ensures parsebuf != null && fresh(parsebuf)
      ensures parsebuf[..] == old(Line()) + buf[..l] && parsebuflen == parsebuf.Length
      ensures heap.live == old(heap.live) - {old(parsebuf)} + {parsebuf}
    {
      var p := heap.Realloc(parsebuf, l + parsebuflen);
      Copy(p, parsebuflen, buf, 0, l);
      parsebuf := p;
      parsebuflen := parsebuflen + l;
    }

    method Save(heap: Heap, buf: array<byte>, from: nat, end: nat)
      requires parsebuf == null && from <= end <= buf.Length
      modifies `parsebuf, `parsebuflen, heap
      ensures parsebuf != null && fresh(parsebuf)
      ensures parsebuf[..] == buf[from..end] && parsebuflen == parsebuf.Length
      ensures heap.live == old(heap.live) + {parsebuf}
    {
      parsebuflen := end - from;
      var p := heap.Alloc(parsebuflen);
      Copy(p, 0, buf, from, parsebuflen);
      parsebuf := p;
    }

    /** Splices the fragment of buf[..len] onto the saved line and parses it: the
        first pass of the parse loop. The line is dropped once it is complete. The byte
        behind a full buffer is looked at too, but then the fragment is too long anyway. */
    method ParseSaved(heap: Heap, buf: array<byte>, len: nat) returns (kind: LineKind, next: nat)
      requires Valid() && parsebuf != null && parsebuf in heap.live
      requires 0 < len <= buf.Length && buf.Length > HTTPS_BUFFER_MAX && parsebuf != buf
      modifies `parsebuf, `parsebuflen, heap
      ensures next == Fragment(buf[..Reached(old(Line()), buf[..], len)])
      ensures if next > HTTPS_BUFFER_MAX then kind.Bad? else kind == Kind(old(Line()) + buf[..next])
      ensures kind.Open? ==> Valid() && Line() == old(Line()) + buf[..next]
      ensures kind.Empty? || kind.Header? ==> parsebuf == null && parsebuflen == 0
      ensures heap.live == old(heap.live) - old(Blocks()) + Blocks()
      ensures forall b | b in Blocks() :: b in old(Blocks()) || fresh(b)
    {
      assert buf[..len] == buf[0..len] == buf[..][..len];
      next := SeekNewline(buf, 0, len);
      FragmentReached(old(Line()), buf[..], len, next);
      if next < buf.Length && buf[next] == LF {
        next := next + 1;
      }
      if next > HTTPS_BUFFER_MAX {
        return Bad, next;
      }
      ghost var rest := heap.live - {parsebuf};
      Splice(heap, buf, next);
      ghost var text := old(Line()) + buf[..next];
      var c;
      assert [] + text + [] == text;
      kind, c := ParseLine(parsebuf, 0, parsebuflen, [], text, []);
      if kind.Open? {
        OpenStep(text);
      }
      if kind.Empty? || kind.Header? {
        DropLine(heap);
        assert heap.live == rest;
      }
    }

    /** Parses buf[from..len] with no line saved, and saves the line left open. */
    method ParseRest(heap: Heap, buf: array<byte>, from: nat, len: nat) returns (v: Verdict)
      requires parsebuf == null && parsebuflen == 0
      requires from <= len <= buf.Length && (from > 0 ==> buf[from - 1] != CR)
      modifies `parsebuf, `parsebuflen, heap, buf
      ensures v == Scan(old(buf[from..len]))
      ensures Valid() && Line() == if v.Partial? then Pending(old(buf[from..len])) else []
      ensures buf[..] == BlankFrom(old(buf[..]), from, len)
      ensures heap.live == old(heap.live) + Blocks() && fresh(Blocks())
    {
      ghost var all, text := buf[..], buf[from..len];
      Pieces(all, from, len);
      assert text == all[from..len];
      var kind, tmp := ParseLines(buf, from, len, all[..from], text, all[len..]);
      if kind.Open? {
        ghost var line := Pending(text);
        assert |line| == len - tmp && LF !in line;
        if len - tmp > 0 {
          Save(heap, buf, tmp, len);
          assert Line() == line;
        }
      }
      v := if kind.Open? then Partial else if kind.Bad? then Error else Complete;
    }

    /** A call that continues the saved line. */
    method ParseContinued(heap: Heap, buf: array<byte>, len: nat) returns (v: Verdict)
      requires Valid() && parsebuf != null && parsebuf in heap.live
      requires 0 < len <= buf.Length && buf.Length > HTTPS_BUFFER_MAX && parsebuf != buf
      modifies `parsebuf, `parsebuflen, heap, buf
      ensures var n := Reached(old(Line()), old(buf[..]), len);
        && v == Feed(old(Line()), old(buf[..])[..n]).verdict
        && (!v.Error? ==> Valid() && Line() == Feed(old(Line()), old(buf[..])[..n]).pending)
        && buf[..] == FeedBuffer(old(Line()), old(buf[..]), n)
      ensures heap.live == old(heap.live) - old(Blocks()) + Blocks()
      ensures forall b | b in Blocks() :: b in old(Blocks()) || fresh(b)
    {
      ghost var line, all := Line(), buf[..];
      ghost var n := Reached(line, all, len);
      FeedCases(line, all, n);
      var kind, next := ParseSaved(heap, buf, len);
      assert all[..next] == buf[..next];
      if kind.Header? {
        // Behind a byte too many, the end lies in front of the start: nothing is left.
        var end := if next > len then next else len;
        assert all[next..end] == buf[next..end];
        v := ParseRest(heap, buf, next, end);
      } else {
        v := if kind.Open? then Partial else if kind.Bad? then Error else Complete;
      }
    }

    /** One call with the next len bytes of the stream in buf. The first pass of
        the loop reads the saved line, if there is one; all others read buf. */
    method Parse(heap: Heap, buf: array<byte>, len: nat) returns (v: Verdict)
      requires Valid() && Blocks() <= heap.live
      requires len <= buf.Length && buf.Length > HTTPS_BUFFER_MAX && parsebuf != buf
      modifies `parsebuf, `parsebuflen, heap, buf
      ensures var n := Reached(old(Line()), old(buf[..]), len);
        && v == Feed(old(Line()), old(buf[..])[..n]).verdict
        && (!v.Error? ==> Valid() && Line() == Feed(old(Line()), old(buf[..])[..n]).pending)
        && buf[..] == FeedBuffer(old(Line()), old(buf[..]), n)
      ensures heap.live == old(heap.live) - old(Blocks()) + Blocks()
      ensures forall b | b in Blocks() :: b in old(Blocks()) || fresh(b)
    {
      ghost var line, all := Line(), buf[..];
      if len == 0 {
        NoInput(line, all);
        v := Partial;
      } else if parsebuf != null {
        v := ParseContinued(heap, buf, len);
      } else {
        FeedCases(line, all, len);
        assert all[0..len] == buf[0..len];
        v := ParseRest(heap, buf, 0, len);
      }
    }

    /** The call, and what it means for all the connection was fed since it was opened or
        last completed a request. */
    method BasicParse(heap: Heap, buf: array<byte>, len: nat) returns (v: Verdict)
      requires Valid() && Blocks() <= heap.live
      requires len <= buf.Length && buf.Length > HTTPS_BUFFER_MAX && parsebuf != buf
      modifies `parsebuf, `parsebuflen, `fed, heap, buf
      ensures var n := Reached(old(Line()), old(buf[..]), len); var t := Take(old(Life()), old(buf[..])[..n]);
        && v == t.verdict && (!v.Error? ==> Valid() && Life() == t.life)
        && buf[..] == FeedBuffer(old(Line()), old(buf[..]), n)
      ensures old(Coherent(Life())) && !v.Error? ==> Coherent(Life())
      ensures heap.live == old(heap.live) - old(Blocks()) + Blocks()
      ensures forall b | b in Blocks() :: b in old(Blocks()) || fresh(b)
    {
      ghost var o, chunk := Life(), buf[..][..Reached(Line(), buf[..], len)];
      if Coherent(o) {
        TakeCoherent(o, chunk);
      }
      v := Parse(heap, buf, len);
      fed := Take(o, chunk).life.fed;
    }
  }
}
