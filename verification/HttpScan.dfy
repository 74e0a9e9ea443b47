/**
 The meaning of the header parser of the SSL demo server, without buffers:
 a one-pass scan of a whole byte stream, and what one call of the parser and
 a whole sequence of calls must answer.
 */
module HttpScan {
  import opened Bytes

  const CR: byte := 13
  const LF: byte := 10
  const HTTPS_BUFFER_MAX: nat := 256

  datatype Verdict = Complete | Partial | Error

  /** How the first line of a text strikes the parser. */
  datatype LineKind = Open | Bad | Empty | Header

  function Kind(text: seq<byte>): LineKind {
    var n := IndexOf(text, LF);
    if n == |text| then Open
    else if n == 0 || text[n - 1] != CR then Bad
    else if n == 1 then Empty
    else Header
  }

  /** Reads the stream line by line; a line ends with the first LF. */
  function Scan(s: seq<byte>): Verdict
    decreases |s|
  {
    match Kind(s)
    case Open => Partial
    case Bad => Error
    case Empty => Complete
    case Header => Scan(s[IndexOf(s, LF) + 1..])
  }

  /** The unterminated line at the end of the stream. */
  function Pending(s: seq<byte>): seq<byte>
    decreases |s|
  {
    var n := IndexOf(s, LF);
    if n == |s| then s else Pending(s[n + 1..])
  }

  // ----- What the scan means, position by position -----

  /** The LF at q has no CR in front of it. */
  predicate BareNewline(s: seq<byte>, q: nat) {
    q < |s| && s[q] == LF && (q == 0 || s[q - 1] != CR)
  }

  /** The LF at q ends a line that holds nothing but a CR. */
  predicate EmptyLine(s: seq<byte>, q: nat) {
    1 <= q < |s| && s[q] == LF && s[q - 1] == CR && (q == 1 || s[q - 2] == LF)
  }

  predicate Decides(s: seq<byte>, q: nat) {
    BareNewline(s, q) || EmptyLine(s, q)
  }

  ghost predicate FirstDecision(s: seq<byte>, q: nat) {
    Decides(s, q) && forall r: nat | r < q :: !Decides(s, r)
  }

  /** Behind a newline the text reads as if it began there. */
  lemma {:induction false} DecidesShift(s: seq<byte>, n: nat, q: nat)
    requires n < |s| && s[n] == LF
    ensures BareNewline(s[n + 1..], q) == BareNewline(s, n + 1 + q)
    ensures EmptyLine(s[n + 1..], q) == EmptyLine(s, n + 1 + q)
  {
    if n + 1 + q < |s| {
      assert s[n + 1..][q] == s[n + 1 + q];
      assert q >= 1 ==> s[n + 1..][q - 1] == s[n + q];
      assert q >= 2 ==> s[n + 1..][q - 2] == s[n + q - 1];
    }
  }

  lemma {:induction false} FindDecision(s: seq<byte>) returns (q: nat)
    ensures Scan(s).Partial? ==> q == |s| && forall r: nat | r < |s| :: !Decides(s, r)
    ensures !Scan(s).Partial? ==> FirstDecision(s, q)
    ensures Scan(s).Error? ==> BareNewline(s, q)
    ensures Scan(s).Complete? ==> EmptyLine(s, q)
    decreases |s|
  {
    var n := IndexOf(s, LF);
    IndexOfFirst(s, LF);
    if Kind(s).Header? {
      q := FindDecision(s[n + 1..]);
      q := n + 1 + q;
      forall r: nat | n < r < q ensures !Decides(s, r) {
        assert !Decides(s[n + 1..], r - n - 1);
        DecidesShift(s, n, r - n - 1);
      }
      DecidesShift(s, n, q - n - 1);
    } else {
      q := n;
    }
  }

  /** The scan answers for the first deciding newline, whatever follows it. */
  lemma {:induction false} ScanMeaning(s: seq<byte>)
    ensures Scan(s).Partial? <==> forall q: nat | q < |s| :: !Decides(s, q)
    ensures Scan(s).Error? <==> exists q: nat :: FirstDecision(s, q) && BareNewline(s, q)
    ensures Scan(s).Complete? <==> exists q: nat :: FirstDecision(s, q) && EmptyLine(s, q)
  {
    var q := FindDecision(s);
  }

  /** Pending(s) is the longest suffix without a LF: it begins at k. */
  lemma {:induction false} PendingMeaning(s: seq<byte>) returns (k: nat)
    ensures k <= |s| && Pending(s) == s[k..]
    ensures k == 0 || s[k - 1] == LF
    ensures forall i | k <= i < |s| :: s[i] != LF
    decreases |s|
  {
    var n := IndexOf(s, LF);
    IndexOfFirst(s, LF);
    if n == |s| {
      return 0;
    }
    var rest := s[n + 1..];
    k := PendingMeaning(rest);
    assert rest[k..] == s[n + 1 + k..];
    assert forall i | 0 <= i < |rest| :: rest[i] == s[n + 1 + i];
    k := n + 1 + k;
  }

  // ----- Scanning a stream in two pieces -----

  lemma {:induction false} IndexOfExtend(a: seq<byte>, b: seq<byte>)
    requires LF in a
    ensures IndexOf(a + b, LF) == IndexOf(a, LF) < |a|
  {
    IndexOfFirst(a, LF);
    IndexOfUnique(a + b, LF, IndexOf(a, LF));
  }

  lemma {:induction false} IndexOfAbsent(a: seq<byte>)
    requires LF !in a
    ensures IndexOf(a, LF) == |a|
  {
    IndexOfUnique(a, LF, |a|);
  }

  lemma {:induction false} BehindLine(a: seq<byte>, b: seq<byte>)
    requires LF in a
    ensures var n := IndexOf(a, LF); n < |a| && IndexOf(a + b, LF) == n && (a + b)[n + 1..] == a[n + 1..] + b
    ensures Kind(a + b) == Kind(a)
  {
    IndexOfExtend(a, b);
  }

  lemma {:induction false} PendingSplit(a: seq<byte>, b: seq<byte>)
    ensures Pending(a + b) == Pending(Pending(a) + b)
    decreases |a|
  {
    if LF in a {
      BehindLine(a, b);
      PendingSplit(a[IndexOf(a, LF) + 1..], b);
    } else {
      IndexOfAbsent(a);
    }
  }

  /** A decision is final; an undecided prefix is summed up by its pending line. */
  lemma {:induction false} ScanSplit(a: seq<byte>, b: seq<byte>)
    ensures !Scan(a).Partial? ==> Scan(a + b) == Scan(a)
    ensures Scan(a).Partial? ==> Scan(a + b) == Scan(Pending(a) + b)
    ensures Pending(a + b) == Pending(Pending(a) + b)
    decreases |a|
  {
    PendingSplit(a, b);
    if LF in a {
      BehindLine(a, b);
      ScanSplit(a[IndexOf(a, LF) + 1..], b);
    } else {
      IndexOfAbsent(a);
    }
  }

  // ----- One call of the parser -----

  /** How many bytes of a chunk belong to the line the previous chunk left open. */
  function Fragment(chunk: seq<byte>): (l: nat)
    ensures l <= |chunk|
  {
    var n := IndexOf(chunk, LF);
    if n < |chunk| then n + 1 else n
  }

  predicate Oversize(pending: seq<byte>, chunk: seq<byte>) {
    pending != [] && Fragment(chunk) > HTTPS_BUFFER_MAX
  }

  /** An answer, and the line still open; an error leaves no open line of interest. */
  datatype Step = Step(verdict: Verdict, pending: seq<byte>)

  function Feed(pending: seq<byte>, chunk: seq<byte>): Step {
    if Oversize(pending, chunk) then Step(Error, [])
    else
      var s := pending + chunk;
      Step(Scan(s), if Scan(s).Partial? then Pending(s) else [])
  }

  /** A text after parsing: the CR that ends a header line has become NUL. The
      line that decides the answer, and all after it, stay as they were. */
  function Blank(text: seq<byte>): (r: seq<byte>)
    ensures |r| == |text|
    decreases |text|
  {
    var n := IndexOf(text, LF);
    if Kind(text).Header? then text[..n - 1] + [0, LF] + Blank(text[n + 1..]) else text
  }

  /** A buffer whose part [from..len] has been parsed. */
  function BlankFrom(buf: seq<byte>, from: nat, len: nat): (r: seq<byte>)
    requires from <= len <= |buf|
    ensures |r| == |buf|
  {
    buf[..from] + Blank(buf[from..len]) + buf[len..]
  }

  /** What a call on buf[..len] leaves in the caller's buffer: the bytes that
      were moved behind the saved line are not touched, the rest is blanked. */
  function FeedBuffer(pending: seq<byte>, buf: seq<byte>, len: nat): (r: seq<byte>)
    requires len <= |buf|
    ensures |r| == |buf|
  {
    var chunk := buf[..len];
    var l := Fragment(chunk);
    if pending == [] then BlankFrom(buf, 0, len)
    else if Oversize(pending, chunk) || !Kind(pending + chunk[..l]).Header? then buf
    else BlankFrom(buf, l, len)
  }

  /** How many bytes of the buffer a call with len new ones takes in. When it continues
      a saved line, the search for the newline stops behind the new bytes, and then
      takes the byte it stopped at for new if that is a newline. */
  function Reached(pending: seq<byte>, buf: seq<byte>, len: nat): (n: nat)
    requires len <= |buf|
    ensures len <= n <= |buf|
  {
    if pending != [] && 0 < len < |buf| && LF !in buf[..len] && buf[len] == LF then len + 1 else len
  }

  /** A line that stays open, and the same with a newline added: whatever that
      decides, no line is open behind it. */
  lemma {:induction false} ExtraByte(pending: seq<byte>, chunk: seq<byte>)
    requires LF !in pending && LF !in chunk && chunk != [] && |chunk| <= HTTPS_BUFFER_MAX
    ensures Feed(pending, chunk) == Step(Partial, pending + chunk)
    ensures Feed(pending, chunk + [LF]).pending == []
  {
    var more, s, t := chunk + [LF], pending + chunk, pending + (chunk + [LF]);
    IndexOfAbsent(chunk);
    IndexOfAbsent(s);
    IndexOfUnique(t, LF, |s|);
    assert |t| == |s| + 1 && t[|t|..] == [];
    assert Pending(t) == Pending([]) == [];
  }

  lemma {:induction false} ExtraTooLong(pending: seq<byte>, buf: seq<byte>, len: nat)
    requires pending != [] && HTTPS_BUFFER_MAX < len <= |buf| && LF !in buf[..len]
    ensures Feed(pending, buf[..Reached(pending, buf, len)]) == Step(Error, [])
  {
    IndexOfAbsent(buf[..len]);
    if Reached(pending, buf, len) > len {
      assert buf[..len + 1][..len] == buf[..len];
      assert forall i | 0 <= i < len :: buf[..len + 1][i] == buf[..len][i] && buf[..len][i] in buf[..len];
      IndexOfUnique(buf[..len + 1], LF, len);
    }
  }

  /** The extra byte makes a difference exactly unless the call is an error for its size. */
  lemma {:induction false} ExtraByteMatters(pending: seq<byte>, buf: seq<byte>, len: nat)
    requires LF !in pending && len <= |buf|
    ensures Feed(pending, buf[..Reached(pending, buf, len)]) == Feed(pending, buf[..len])
       <==> Reached(pending, buf, len) == len || len > HTTPS_BUFFER_MAX
  {
    if Reached(pending, buf, len) > len {
      assert buf[..len + 1] == buf[..len] + [LF];
      if len > HTTPS_BUFFER_MAX {
        ExtraTooLong(pending, buf, len);
        IndexOfAbsent(buf[..len]);
      } else {
        ExtraByte(pending, buf[..len]);
      }
    }
  }

  lemma {:induction false} OpenStep(text: seq<byte>)
    requires Kind(text).Open?
    ensures Pending(text) == text && LF !in text
  {
    IndexOfFirst(text, LF);
  }

  /** Line n bytes long with its CR overwritten, LF included. */
  function Blanked(text: seq<byte>, n: nat): (r: seq<byte>)
    requires 0 < n < |text|
    ensures |r| == n + 1
  {
    text[..n - 1] + [0, text[n]]
  }

  /** One header line: the scan moves behind it, its CR is overwritten. */
  lemma {:induction false} HeaderStep(done: seq<byte>, todo: seq<byte>, n: nat)
    requires Kind(todo).Header? && n == IndexOf(todo, LF)
    ensures Scan(todo) == Scan(todo[n + 1..]) && Pending(todo) == Pending(todo[n + 1..])
    ensures done + Blank(todo) == done + Blanked(todo, n) + Blank(todo[n + 1..])
  {
    assert Blank(todo) == Blanked(todo, n) + Blank(todo[n + 1..]);
  }

  lemma {:induction false} HeaderBytes(done: seq<byte>, todo: seq<byte>, post: seq<byte>, n: nat)
    requires 0 < n < |todo|
    ensures (done + todo + post)[|done| + n - 1 := 0] == done + Blanked(todo, n) + todo[n + 1..] + post
  {
  }

  /** Blanking a text that starts with a header line, byte by byte. */
  lemma {:induction false} BlankAt(text: seq<byte>, n: nat, k: nat)
    requires Kind(text).Header? && n == IndexOf(text, LF) && k < |text|
    ensures k > n ==> Blank(text)[k] == Blank(text[n + 1..])[k - n - 1] && text[k] == text[n + 1..][k - n - 1]
    ensures k <= n ==> Blank(text)[k] == if k == n - 1 then 0 else text[k]
  {
    assert Blank(text) == Blanked(text, n) + Blank(text[n + 1..]);
    assert k <= n ==> Blank(text)[k] == Blanked(text, n)[k];
  }

  ghost predicate UndecidedTo(s: seq<byte>, q: nat) {
    forall r: nat | r <= q :: !Decides(s, r)
  }

  /** Blanking overwrites exactly the CRs that end a line before the answer is decided, with NUL. */
  lemma {:induction false} BlankMeaning(text: seq<byte>, k: nat)
    requires k < |text|
    ensures var ends := text[k] == CR && k + 1 < |text| && text[k + 1] == LF && UndecidedTo(text, k + 1);
      Blank(text)[k] == if ends then 0 else text[k]
    decreases |text|
  {
    var n := IndexOf(text, LF);
    IndexOfFirst(text, LF);
    if Kind(text).Header? {
      BlankAt(text, n, k);
      if k > n {
        BlankMeaning(text[n + 1..], k - n - 1);
        UndecidedBehind(text, n, k + 1);
      } else {
        NoneBefore(text, n);
      }
    } else if n < |text| {
      assert Decides(text, n);
    }
  }

  lemma {:induction false} NoneBefore(text: seq<byte>, n: nat)
    requires Kind(text).Header? && n == IndexOf(text, LF)
    ensures UndecidedTo(text, n)
  {
    forall r: nat | r <= n ensures !Decides(text, r) {
      if Decides(text, r) {
        DecidesBehind(text, n, r);
      }
    }
  }

  lemma {:induction false} UndecidedBehind(text: seq<byte>, n: nat, q: nat)
    requires Kind(text).Header? && n == IndexOf(text, LF) && n < q
    ensures UndecidedTo(text, q) <==> UndecidedTo(text[n + 1..], q - n - 1)
  {
    var rest := text[n + 1..];
    NoneBefore(text, n);
    if UndecidedTo(text, q) {
      forall r: nat | r <= q - n - 1 ensures !Decides(rest, r) {
        DecidesShift(text, n, r);
        assert !Decides(text, n + 1 + r);
      }
    }
    if UndecidedTo(rest, q - n - 1) {
      forall r: nat | r <= q ensures !Decides(text, r) {
        if r > n {
          DecidesShift(text, n, r - n - 1);
          assert !Decides(rest, r - n - 1);
        }
      }
    }
  }

  lemma {:induction false} DecidesBehind(text: seq<byte>, n: nat, q: nat)
    requires Kind(text).Header? && n == IndexOf(text, LF) && Decides(text, q)
    ensures q > n && Decides(text[n + 1..], q - n - 1)
  {
    IndexOfFirst(text, LF);
    if q > n {
      DecidesShift(text, n, q - n - 1);
    }
  }

  lemma {:induction false} NoInput(pending: seq<byte>, buf: seq<byte>)
    requires LF !in pending
    ensures Feed(pending, []) == Step(Partial, pending)
    ensures FeedBuffer(pending, buf, 0) == buf
  {
    assert pending + [] == pending;
    IndexOfAbsent(pending);
  }

  /** The first line of pending + chunk is pending and the fragment of chunk. */
  lemma {:induction false} FirstLine(pending: seq<byte>, chunk: seq<byte>)
    requires LF !in pending
    ensures var l := Fragment(chunk);
            var kind := Kind(pending + chunk[..l]);
            && kind == Kind(pending + chunk)
            && (kind.Open? ==> pending + chunk[..l] == pending + chunk)
  {
    var n, l := IndexOf(chunk, LF), Fragment(chunk);
    FirstNewline(pending, chunk);
    if n < |chunk| {
      assert n > 0 ==> (pending + chunk)[|pending| + n - 1] == (pending + chunk[..l])[|pending| + n - 1];
      assert pending != [] ==> (pending + chunk)[|pending| - 1] == (pending + chunk[..l])[|pending| - 1];
    } else {
      assert chunk[..l] == chunk;
    }
  }

  lemma {:induction false} BehindFirstLine(pending: seq<byte>, chunk: seq<byte>)
    requires LF !in pending && Kind(pending + chunk).Header?
    ensures var l := Fragment(chunk);
            && 0 < l && chunk[l - 1] == LF
            && Scan(pending + chunk) == Scan(chunk[l..])
            && Pending(pending + chunk) == Pending(chunk[l..])
  {
    var n := IndexOf(chunk, LF);
    FirstNewline(pending, chunk);
    FragmentEnds(chunk);
    DroppedBoth(pending, chunk, n + 1);
    LineBehind(pending + chunk, |pending| + n, chunk[Fragment(chunk)..]);
  }

  lemma {:induction false} FragmentEnds(chunk: seq<byte>)
    requires IndexOf(chunk, LF) < |chunk|
    ensures var l := Fragment(chunk); l == IndexOf(chunk, LF) + 1 && chunk[l - 1] == LF
  {
  }

  lemma {:induction false} LineBehind(text: seq<byte>, n: nat, rest: seq<byte>)
    requires Kind(text).Header? && n == IndexOf(text, LF) < |text| && rest == text[n + 1..]
    ensures Scan(text) == Scan(rest) && Pending(text) == Pending(rest)
  {
  }

  lemma {:induction false} DroppedBoth(a: seq<byte>, b: seq<byte>, n: nat)
    requires n <= |b|
    ensures (a + b)[|a| + n..] == b[n..]
  {
  }

  lemma {:induction false} FirstNewline(pending: seq<byte>, chunk: seq<byte>)
    requires LF !in pending
    ensures var n, l := IndexOf(chunk, LF), Fragment(chunk);
            IndexOf(pending + chunk[..l], LF) == IndexOf(pending + chunk, LF) == |pending| + n
  {
    var n, l := IndexOf(chunk, LF), Fragment(chunk);
    IndexOfFirst(chunk, LF);
    IndexOfUnique(pending + chunk, LF, |pending| + n);
    IndexOfUnique(pending + chunk[..l], LF, |pending| + n);
  }

  /** One call by cases on the line it closes, if any. */
  lemma {:induction false} FeedCases(pending: seq<byte>, buf: seq<byte>, len: nat)
    requires LF !in pending && len <= |buf|
    ensures var chunk := buf[..len];
            var l := if pending == [] then 0 else Fragment(chunk);
            var kind := Kind(pending + buf[..l]);
            && l <= len
            && (Oversize(pending, chunk) ==>
                  Feed(pending, chunk) == Step(Error, []) && FeedBuffer(pending, buf, len) == buf)
            && (pending != [] && !Oversize(pending, chunk) && !kind.Header? ==>
                  Feed(pending, chunk) == (match kind
                                           case Open => Step(Partial, pending + buf[..l])
                                           case Empty => Step(Complete, [])
                                           case _ => Step(Error, []))
                  && FeedBuffer(pending, buf, len) == buf)
            && (pending == [] || (!Oversize(pending, chunk) && kind.Header?) ==>
                  var rest := buf[l..len];
                  && Feed(pending, chunk) == Step(Scan(rest), if Scan(rest).Partial? then Pending(rest) else [])
                  && FeedBuffer(pending, buf, len) == BlankFrom(buf, l, len)
                  && (l > 0 ==> buf[l - 1] == LF))
  {
    var chunk := buf[..len];
    var l := if pending == [] then 0 else Fragment(chunk);
    FirstLine(pending, chunk);
    assert chunk[..l] == buf[..l] && chunk[l..] == buf[l..len] == [] + buf[l..len];
    if pending == [] {
      assert pending + chunk == buf[l..len];
    } else if Kind(pending + buf[..l]).Header? {
      BehindFirstLine(pending, chunk);
    } else if Kind(pending + buf[..l]).Open? {
      assert IndexOf(pending + chunk, LF) == |pending + chunk|;
    }
  }

  /** A continued line is refused exactly when the next 256 bytes of a longer chunk do not end it. */
  lemma {:induction false} OversizeMeans(pending: seq<byte>, chunk: seq<byte>)
    ensures Oversize(pending, chunk) <==> pending != [] && |chunk| > 256 && LF !in chunk[..256]
  {
    IndexOfFirst(chunk, LF);
    if |chunk| > 256 && LF in chunk[..256] {
      var i :| 0 <= i < 256 && chunk[..256][i] == LF;
      assert chunk[i] == LF;
    }
  }

  lemma {:induction false} BlankFromAt(buf: seq<byte>, from: nat, len: nat, k: nat)
    requires from <= len <= |buf| && k < |buf|
    ensures k < from || k >= len ==> BlankFrom(buf, from, len)[k] == buf[k]
    ensures from <= k < len ==>
      var ends := k + 1 < len && buf[k] == CR && buf[k + 1] == LF && UndecidedTo(buf[from..len], k + 1 - from);
      BlankFrom(buf, from, len)[k] == if ends then 0 else buf[k]
  {
    if from <= k < len {
      BlankMeaning(buf[from..len], k - from);
    }
  }

  /** Behind the line that a chunk closes, the stream is undecided as long as what follows is. */
  lemma {:induction false} UndecidedFragment(pending: seq<byte>, chunk: seq<byte>, k: nat)
    requires LF !in pending && Fragment(chunk) <= k < |chunk|
    ensures UndecidedTo(pending + chunk, |pending| + k + 1)
       <==> Kind(pending + chunk).Header? && UndecidedTo(chunk[Fragment(chunk)..], k + 1 - Fragment(chunk))
  {
    var text, l := pending + chunk, Fragment(chunk);
    FirstNewline(pending, chunk);
    if Kind(text).Header? {
      assert text[|pending| + l..] == chunk[l..];
      UndecidedBehind(text, |pending| + l - 1, |pending| + k + 1);
    } else {
      IndexOfFirst(text, LF);
      assert Decides(text, |pending| + l - 1);
    }
  }

  /** A call overwrites exactly the CRs that end a line of the chunk behind its first one, when that
      continues a saved line, and before the answer is decided. */
  lemma {:induction false} FeedBufferMeaning(pending: seq<byte>, buf: seq<byte>, len: nat, k: nat)
    requires LF !in pending && k < |buf| && len <= |buf|
    ensures var ends := k + 1 < len && buf[k] == CR && buf[k + 1] == LF
                        && (pending != [] ==> !Oversize(pending, buf[..len]) && LF in buf[..k])
                        && UndecidedTo(pending + buf[..len], |pending| + k + 1);
      FeedBuffer(pending, buf, len)[k] == if ends then 0 else buf[k]
  {
    var chunk := buf[..len];
    if pending == [] {
      assert [] + chunk == buf[0..len];
      BlankFromAt(buf, 0, len, k);
    } else {
      var l := Fragment(chunk);
      FirstLine(pending, chunk);
      BlankFromAt(buf, l, len, k);
      assert buf[l..len] == chunk[l..];
      if k < len {
        InFragment(buf, len, k);
        if l <= k {
          UndecidedFragment(pending, chunk, k);
        }
      }
    }
  }

  lemma {:induction false} InFragment(buf: seq<byte>, len: nat, k: nat)
    requires k < len <= |buf|
    ensures LF in buf[..k] <==> k >= Fragment(buf[..len])
  {
    var chunk := buf[..len];
    IndexOfFirst(chunk, LF);
    var n := IndexOf(chunk, LF);
    if n < k {
      assert buf[..k][n] == LF;
    }
    if LF in buf[..k] {
      var i :| 0 <= i < k && buf[..k][i] == LF;
      assert chunk[i] == LF;
    }
  }

  // ----- A sequence of calls -----

  /** Feeds chunk after chunk until the answer is no longer Partial. */
  function Run(pending: seq<byte>, chunks: seq<seq<byte>>): Step
    decreases |chunks|
  {
    if chunks == [] then Step(Partial, pending)
    else
      var s := Feed(pending, chunks[0]);
      if s.verdict.Partial? then Run(s.pending, chunks[1..]) else s
  }

  /** Chunk i continues an open line by more than the buffer limit, and the
      stream before it has not been decided yet. */
  predicate OversizeAt(chunks: seq<seq<byte>>, i: nat) {
    && i < |chunks|
    && Scan(Concat(chunks[..i])).Partial?
    && Oversize(Pending(Concat(chunks[..i])), chunks[i])
  }

  ghost predicate AnyOversize(chunks: seq<seq<byte>>) {
    exists i: nat :: OversizeAt(chunks, i)
  }

  ghost predicate OversizeAfter(done: seq<byte>, chunks: seq<seq<byte>>)
    decreases |chunks|
  {
    && chunks != []
    && Scan(done).Partial?
    && (Oversize(Pending(done), chunks[0]) || OversizeAfter(done + chunks[0], chunks[1..]))
  }

  lemma {:induction false} RunAfter(done: seq<byte>, chunks: seq<seq<byte>>)
    requires Scan(done).Partial?
    ensures Run(Pending(done), chunks).verdict
         == if OversizeAfter(done, chunks) then Error else Scan(done + Concat(chunks))
    ensures Run(Pending(done), chunks).verdict.Partial?
        ==> Run(Pending(done), chunks).pending == Pending(done + Concat(chunks))
    decreases |chunks|
  {
    if chunks == [] {
      assert done + Concat(chunks) == done;
    } else {
      var more := done + chunks[0];
      assert done + Concat(chunks) == more + Concat(chunks[1..]);
      ScanSplit(done, chunks[0]);
      ScanSplit(more, Concat(chunks[1..]));
      if !Oversize(Pending(done), chunks[0]) && Scan(more).Partial? {
        RunAfter(more, chunks[1..]);
      }
    }
  }

  lemma {:induction false} OversizeAfterMeaning(before: seq<seq<byte>>, chunks: seq<seq<byte>>)
    ensures OversizeAfter(Concat(before), chunks)
       <==> Scan(Concat(before)).Partial?
            && exists i: nat | |before| <= i :: OversizeAt(before + chunks, i)
    decreases |chunks|
  {
    var all := before + chunks;
    if chunks != [] {
      var next := before + [chunks[0]];
      assert next + chunks[1..] == all;
      assert all[..|before|] == before;
      assert Concat([chunks[0]]) == chunks[0] + Concat<byte>([]) == chunks[0];
      ConcatAppend(before, [chunks[0]]);
      OversizeAfterMeaning(next, chunks[1..]);
      assert OversizeAt(all, |before|)
        <==> Scan(Concat(before)).Partial? && Oversize(Pending(Concat(before)), chunks[0]);
      forall i: nat | |next| <= i && OversizeAt(all, i)
        ensures Scan(Concat(before)).Partial? && Scan(Concat(next)).Partial?
      {
        assert all[..i] == next + all[|next|..i];
        ConcatAppend(next, all[|next|..i]);
        ScanSplit(Concat(next), Concat(all[|next|..i]));
        ScanSplit(Concat(before), chunks[0]);
      }
    }
  }

  /** Feeding the chunks one by one gives the answer of the one-pass scan of
      their concatenation, except that an oversize continuation is an error. */
  lemma {:induction false} RunIsScan(chunks: seq<seq<byte>>)
    ensures Run([], chunks).verdict
         == if AnyOversize(chunks) then Error else Scan(Concat(chunks))
    ensures Run([], chunks).verdict.Partial?
        ==> Run([], chunks).pending == Pending(Concat(chunks))
  {
    RunAfter([], chunks);
    OversizeAfterMeaning([], chunks);
    assert [] + Concat(chunks) == Concat(chunks);
    assert [] + chunks == chunks;
    assert Concat<byte>([]) == [];
  }

  /** How the stream is cut into chunks is invisible, except through the limit
      on the continuation of an open line. */
  lemma {:induction false} ChunkIndependence(chunks: seq<seq<byte>>)
    ensures Run([], chunks).verdict == Scan(Concat(chunks))
       <==> (AnyOversize(chunks) ==> Scan(Concat(chunks)).Error?)
  {
    RunIsScan(chunks);
  }

  /** A connection served over several passes: the passes compose. */
  lemma {:induction false} RunAppend(pending: seq<byte>, a: seq<seq<byte>>, b: seq<seq<byte>>)
    ensures Run(pending, a + b)
         == var s := Run(pending, a); if s.verdict.Partial? then Run(s.pending, b) else s
    decreases |a|
  {
    if a == [] {
      assert a + b == b;
    } else {
      assert (a + b)[1..] == a[1..] + b;
      RunAppend(Feed(pending, a[0]).pending, a[1..], b);
    }
  }

  // ----- A connection over its whole life -----

  /** The life of a connection: its open line, and all chunks fed to it since it was
      opened, or since it last completed a request. */
  datatype Life = Life(line: seq<byte>, fed: seq<seq<byte>>)

  datatype Taken = Taken(verdict: Verdict, life: Life)

  const NEW_LIFE := Life([], [])

  /** One more chunk. */
  function Take(o: Life, chunk: seq<byte>): Taken {
    var s := Feed(o.line, chunk);
    Taken(s.verdict, Life(s.pending, if s.verdict.Partial? then o.fed + [chunk] else []))
  }

  /** The open line is what all the chunks leave open. */
  predicate Coherent(o: Life) {
    Run([], o.fed) == Step(Partial, o.line)
  }

  lemma {:induction false} TakeCoherent(o: Life, chunk: seq<byte>)
    requires Coherent(o)
    ensures !Take(o, chunk).verdict.Error? ==> Coherent(Take(o, chunk).life)
    ensures Take(o, chunk).verdict == Run([], o.fed + [chunk]).verdict
  {
    RunAppend([], o.fed, [chunk]);
    assert [chunk][1..] == [];
  }

  /** An open connection holds the pending line of all bytes fed to it since it was opened
      or last completed a request, which decide nothing yet. */
  lemma {:induction false} LifeMeans(o: Life)
    requires Coherent(o)
    ensures Scan(Concat(o.fed)).Partial? && o.line == Pending(Concat(o.fed)) && !AnyOversize(o.fed)
  {
    RunIsScan(o.fed);
  }

  /** Another chunk is answered as the scan of all those bytes and the chunk says, or refused for its size. */
  lemma {:induction false} TakeMeans(o: Life, chunk: seq<byte>)
    requires Coherent(o)
    ensures Take(o, chunk).verdict
         == if Oversize(o.line, chunk) then Error else Scan(Concat(o.fed) + chunk)
  {
    LifeMeans(o);
    ScanSplit(Concat(o.fed), chunk);
  }
}
