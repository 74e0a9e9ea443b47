/**
 The argument parser of the demo console, in place over the receive buffer:
 splitting by overwriting commas with NUL, trimming, and unquoting by shifting.
 */
module Console {
  import opened Bits
  import opened Bytes
  import opened ConsoleArgs
  import opened ConsoleText
  import Decimals

  const MAX_DEMO_ARG: nat := 20

  /** The C string at a position of the buffer. */
  ghost predicate Holds(buf: array<byte>, at: nat, s: seq<byte>)
    reads buf
  {
    && at + |s| < buf.Length
    && (forall j | at <= j < at + |s| :: buf[j] == s[j - at] && buf[j] != NUL)
    && buf[at + |s|] == NUL
  }

  /** Nothing outside buf[from..to] differs between two states of the buffer. */
  twostate predicate Outside(buf: array<byte>, from: nat, to: nat)
    reads buf
  {
    forall k {:trigger buf[k]} | 0 <= k < buf.Length && !(from <= k < to) :: buf[k] == old(buf[k])
  }

  lemma {:induction false} FirstCommaIs(s: seq<byte>, n: nat)
    requires n <= |s| && (n < |s| ==> Separates(s, n))
    requires forall i: nat | i < n :: !Separates(s, i)
    ensures FirstComma(s) == n
  {
    SeparatorIsFirst(s, 0);
  }

  method StrLen(buf: array<byte>, at: nat, ghost s: seq<byte>) returns (len: nat)
    requires Holds(buf, at, s)
    ensures len == |s|
  {
    len := 0;
    while buf[at + len] != NUL
      invariant len <= |s|
      decreases |s| - len
    {
      len := len + 1;
    }
  }

  /** The position of the comma that ends the argument at the given position. */
  method GetFirstComma(buf: array<byte>, at: nat, len: int, ghost s: seq<byte>) returns (r: Option<nat>)
    requires Holds(buf, at, s) && len == |s| + 1
    ensures r == if FirstComma(s) == |s| then None else Some(at + FirstComma(s))
  {
    var n := 0;
    if buf[at] == QUOTE {
      var prec := NUL;
      n := 1;
      while n < len
        invariant 1 <= n <= len
        invariant prec == if n == 1 then NUL else if n <= |s| then s[n - 1] else NUL
        invariant forall i: nat | i < n && i < |s| :: !Separates(s, i)
      {
        var curc := buf[at + n];
        if curc == COMMA && prec == QUOTE {
          if n < 3 || buf[at + n - 2] != BACKSLASH {
            FirstCommaIs(s, n);
            return Some(at + n);
          }
        }
        prec := curc;
        n := n + 1;
      }
      FirstCommaIs(s, |s|);
      return None;
    }
    while buf[at + n] != NUL
      invariant n <= |s|
      invariant forall i: nat | i < n :: !Separates(s, i)
      decreases |s| - n
    {
      if buf[at + n] == COMMA {
        FirstCommaIs(s, n);
        return Some(at + n);
      }
      n := n + 1;
    }
    FirstCommaIs(s, |s|);
    return None;
  }

  // ----- Trimming -----

  method TrimField(buf: array<byte>, at: nat, ghost s: seq<byte>) returns (p: nat, len: nat)
    requires Holds(buf, at, s)
    modifies buf
    ensures Holds(buf, p, Trim(s)) && len == |Trim(s)|
    ensures at <= p && p + len <= at + |s|
    ensures Outside(buf, at, at + |s|)
  {
    ghost var t := s;
    p := at;
    while buf[p] == SPACE
      invariant Holds(buf, p, t) && p + |t| == at + |s| && at <= p
      invariant TrimLeft(t) == TrimLeft(s)
      decreases |t|
    {
      p := p + 1;
      t := t[1..];
    }
    len := StrLen(buf, p, t);
    while len > 0 && buf[p + len - 1] == SPACE
      invariant Holds(buf, p, t) && len == |t| && p + len <= at + |s|
      invariant TrimRight(t) == Trim(s)
      invariant Outside(buf, at, at + |s|)
    {
      buf[p + len - 1] := NUL;
      len := len - 1;
      t := t[..len];
    }
  }

  // ----- Unquoting -----

  /** These bytes are at a position. */
  ghost predicate Reads(buf: array<byte>, at: nat, s: seq<byte>)
    reads buf
  {
    at + |s| <= buf.Length && forall j | at <= j < at + |s| :: buf[j] == s[j - at]
  }

  lemma {:induction false} ReadsHolds(buf: array<byte>, at: nat, s: seq<byte>)
    requires Reads(buf, at, s) && NUL !in s && at + |s| < buf.Length && buf[at + |s|] == NUL
    ensures Holds(buf, at, s)
  {
    assert forall j | at <= j < at + |s| :: buf[j] == s[j - at] && s[j - at] in s;
  }

  /** Drops byte i of a text: the overlapping copy of the source, read as a
      left shift by one. */
  method ShiftLeft(buf: array<byte>, at: nat, i: nat, n: nat, ghost s: seq<byte>)
    requires |s| == i + n + 1 && Reads(buf, at, s)
    modifies buf
    ensures Reads(buf, at, s[..i] + s[i + 1..])
    ensures Outside(buf, at + i, at + i + n)
  {
    forall k | at + i <= k < at + i + n {
      buf[k] := buf[k + 1];
    }
  }

  /** One round of the loop below, on the text: s[..i] has been dealt with. */
  lemma {:induction false} UnescapeRound(s: seq<byte>, i: nat)
    requires i < |s|
    ensures s[i] != BACKSLASH ==> s[..i] + Unescape(s[i..]) == s[..i + 1] + Unescape(s[i + 1..])
    ensures s[i] == BACKSLASH && i + 1 == |s| ==> s[..i] + Unescape(s[i..]) == s[..i] + s[i + 1..]
    ensures s[i] == BACKSLASH && i + 1 < |s| ==>
      var t := s[..i] + s[i + 1..];
      s[..i] + Unescape(s[i..]) == t[..i + 1] + Unescape(t[i + 1..])
  {
    var todo := s[i..];
    if s[i] != BACKSLASH {
      assert todo[1..] == s[i + 1..];
      Associate(s[..i], [s[i]], Unescape(s[i + 1..]));
      assert s[..i] + [s[i]] == s[..i + 1];
    } else if i + 1 < |s| {
      var t := s[..i] + s[i + 1..];
      assert todo[2..] == s[i + 2..] == t[i + 1..];
      Associate(s[..i], [s[i + 1]], Unescape(s[i + 2..]));
      assert s[..i] + [s[i + 1]] == t[..i + 1];
    }
  }

  method EndText(buf: array<byte>, at: nat, len: nat, ghost t: seq<byte>)
    requires len == |t| && at + len < buf.Length && Reads(buf, at, t)
    modifies buf
    ensures Reads(buf, at, t) && buf[at + len] == NUL
    ensures Outside(buf, at + len, at + len + 1)
  {
    buf[at + len] := NUL;
  }

  /** The text, unescaped, and a NUL. */
  ghost predicate Dropped(buf: array<byte>, at: nat, text: seq<byte>)
    reads buf
  {
    var t := Unescape(text);
    at + |t| < buf.Length && Reads(buf, at, t) && buf[at + |t|] == NUL
  }

  /** The first i bytes are done; unescaping the others completes the text. */
  ghost predicate DoneTo(cur: seq<byte>, i: nat, s: seq<byte>) {
    && i <= |cur| + 1
    && if i <= |cur| then cur[..i] + Unescape(cur[i..]) == Unescape(s) else cur == Unescape(s)
  }

  /** One round of the loop below. */
  method UnescapeByte(buf: array<byte>, at: nat, i: nat, len: nat, ghost cur: seq<byte>, ghost s: seq<byte>)
    returns (left: nat, ghost now: seq<byte>)
    requires i < len == |cur| && Reads(buf, at, cur) && DoneTo(cur, i, s)
    modifies buf
    ensures left == |now| <= len && Reads(buf, at, now) && DoneTo(now, i + 1, s)
    ensures Outside(buf, at, at + len)
  {
    left, now := len, cur;
    UnescapeRound(cur, i);
    if buf[at + i] == BACKSLASH {
      left := len - 1;
      ShiftLeft(buf, at, i, left - i, cur);
      now := cur[..i] + cur[i + 1..];
    }
  }

  method UnescapeInPlace(buf: array<byte>, at: nat, n: nat, ghost s: seq<byte>)
    requires n == |s| && at + n < buf.Length && Reads(buf, at, s)
    modifies buf
    ensures Dropped(buf, at, s)
    ensures Outside(buf, at, at + n + 1)
  {
    var i, len := 0, n;
    ghost var cur := s;
    assert s[..0] + Unescape(s[0..]) == Unescape(s);
    while i < len
      invariant len == |cur| <= n && Reads(buf, at, cur) && DoneTo(cur, i, s)
      invariant Outside(buf, at, at + n + 1)
      decreases len - i
    {
      len, cur := UnescapeByte(buf, at, i, len, cur, s);
      i := i + 1;
    }
    assert i == len ==> cur[..i] + [] == cur;
    assert cur == Unescape(s);
    EndText(buf, at, len, cur);
  }

  /** Where the 8-bit length puts the closing quote, it is found exactly when it is there. */
  lemma {:induction false} ClosedWhere(buf: array<byte>, at: nat, s: seq<byte>, len: nat)
    requires Holds(buf, at, s) && s != [] && s[0] == QUOTE && len == (|s| % U8_RANGE - 1) % U8_RANGE
    ensures len < |s|
    ensures buf[at + len] == QUOTE && buf[at + 1 + len] == NUL <==> Closed(s) || s == [QUOTE]
    ensures Closed(s) || s == [QUOTE] ==> len == |s| - 1
  {
    assert len + 1 < |s| ==> buf[at + 1 + len] == s[len + 1] != NUL;
    assert buf[at + len] == s[len];
  }

  /** The text between the quotes has no NUL in it, escaped or not. */
  lemma {:induction false} InnerHolds(buf: array<byte>, at: nat, s: seq<byte>, inner: seq<byte>)
    requires NUL !in s && |s| >= 2 && inner == s[1..|s| - 1]
    requires Dropped(buf, at, inner)
    ensures Holds(buf, at, Unescape(inner))
  {
    assert forall j | 0 <= j < |inner| :: inner[j] == s[j + 1];
    UnescapeWithin(inner, NUL);
    ReadsHolds(buf, at, Unescape(inner));
  }

  /** The quoted text s without its quotes and backslashes; len is its 8-bit length
      without the opening quote. For a lone quote the length of what is left wraps
      to 255: the backslashes among the bytes behind it go, and a NUL ends them. */
  method DropQuotes(buf: array<byte>, at: nat, len: nat, ghost s: seq<byte>)
    requires Holds(buf, at, s) && len == |s| - 1
    requires Closed(s) || (s == [QUOTE] && at + U8_RANGE < buf.Length)
    modifies buf
    ensures Holds(buf, at + 1, if s == [QUOTE] then [] else Unescape(s[1..|s| - 1]))
    ensures Outside(buf, at, at + if s == [QUOTE] then U8_RANGE + 1 else |s|)
    ensures s == [QUOTE] ==> Dropped(buf, at + 1, old(buf[at + 1..at + U8_RANGE]))
  {
    ghost var was := buf[..];
    TextIs(buf, at, s);
    buf[at + len] := NUL;
    var left := (len - 1) % U8_RANGE;
    ghost var inner := buf[at + 1..at + 1 + left];
    if s == [QUOTE] {
      assert inner == was[at + 1..at + U8_RANGE];
    } else {
      InnerText(was, at, s);
      assert buf[..] == was[at + len := NUL];
      assert inner == buf[..][at + 1..at + len];
    }
    UnescapeInPlace(buf, at + 1, left, inner);
    if s == [QUOTE] {
      assert inner[0] == NUL && Unescape(inner)[0] == NUL;
    } else {
      InnerHolds(buf, at + 1, s, inner);
    }
  }

  lemma {:induction false} TextIs(buf: array<byte>, at: nat, s: seq<byte>)
    requires Holds(buf, at, s)
    ensures buf[at..at + |s|] == s && NUL !in s
  {
    assert forall j | 0 <= j < |s| :: s[j] == buf[at + j];
  }

  lemma {:induction false} InnerText(all: seq<byte>, at: nat, s: seq<byte>)
    requires at + |s| <= |all| && all[at..at + |s|] == s && |s| >= 2
    ensures all[at + |s| - 1 := NUL][at + 1..at + |s| - 1] == s[1..|s| - 1]
  {
    assert forall j | 0 <= j < |s| :: s[j] == all[at + j];
  }

  /** Returns where the argument begins once unquoted; bad tells a quoted one
      whose end was not found. A lone quote is taken for an empty text. */
  method QuotationFilter(buf: array<byte>, at: nat, ghost s: seq<byte>) returns (key: nat, bad: bool)
    requires Holds(buf, at, s) && s != [] && (s == [QUOTE] ==> at + U8_RANGE < buf.Length)
    modifies buf
    ensures Holds(buf, key, Unquote(s)) && at <= key && key + |Unquote(s)| <= at + |s|
    ensures bad <==> s[0] == QUOTE && s != [QUOTE] && !Closed(s)
    ensures Outside(buf, at, at + if s == [QUOTE] then U8_RANGE + 1 else |s|)
    ensures s == [QUOTE] ==> Dropped(buf, at + 1, old(buf[at + 1..at + U8_RANGE]))
  {
    var strlen := StrLen(buf, at, s);
    var len := strlen % U8_RANGE;
    key, bad := at, false;
    if buf[at] == QUOTE {
      key := at + 1;
      len := (len - 1) % U8_RANGE;
      ClosedWhere(buf, at, s, len);
      if buf[key + len - 1] == QUOTE && buf[key + len] == NUL {
        DropQuotes(buf, at, len, s);
      } else {
        bad := true;
      }
    }
  }

  // ----- Splitting -----

  /** Where the fields cut so far begin, the last one outermost. */
  datatype Layout = Empty | Then(before: Layout, at: nat, field: seq<byte>)

  function Starts(lay: Layout): seq<nat> {
    if lay.Empty? then [] else Starts(lay.before) + [lay.at]
  }

  function FieldsOf(lay: Layout): seq<seq<byte>> {
    if lay.Empty? then [] else FieldsOf(lay.before) + [lay.field]
  }

  /** The fields lie behind one another between low and end, each a C string of its own. */
  ghost predicate Laid(buf: array<byte>, low: nat, lay: Layout, end: int)
    reads buf
  {
    if lay.Empty? then low <= end + 1
    else
      && Holds(buf, lay.at, lay.field) && lay.at + |lay.field| <= end
      && Laid(buf, low, lay.before, lay.at - 1)
  }

  /** A change behind the fields leaves them alone. */
  twostate lemma {:induction false} LaidFrame(buf: array<byte>, new low: nat, new lay: Layout, new end: int)
    requires old(Laid(buf, low, lay, end))
    requires forall k {:trigger buf[k]} | 0 <= k < buf.Length && k <= end :: buf[k] == old(buf[k])
    ensures Laid(buf, low, lay, end)
  {
    if lay.Then? {
      assert old(Holds(buf, lay.at, lay.field));
      LaidFrame(buf, low, lay.before, lay.at - 1);
    }
  }

  /** The field at pos ends n bytes on: the byte there becomes NUL. */
  method Cut(buf: array<byte>, pos: nat, n: nat, ghost low: nat, ghost lay: Layout, ghost rest: seq<byte>)
    requires n < |rest| && Holds(buf, pos, rest) && Laid(buf, low, lay, pos - 1)
    modifies buf
    ensures Laid(buf, low, Then(lay, pos, rest[..n]), pos + n)
    ensures Holds(buf, pos + n + 1, rest[n + 1..])
    ensures Outside(buf, pos + n, pos + n + 1)
  {
    buf[pos + n] := NUL;
    LaidFrame(buf, low, lay, pos - 1);
  }

  /** The last field runs to the end, where the text already stops. */
  method CutLast(buf: array<byte>, pos: nat, end: nat, ghost low: nat, ghost lay: Layout, ghost rest: seq<byte>)
    requires pos + |rest| == end && Holds(buf, pos, rest) && Laid(buf, low, lay, pos - 1)
    modifies buf
    ensures Laid(buf, low, Then(lay, pos, rest), end)
    ensures Outside(buf, end, end + 1)
  {
    buf[end] := NUL;
    LaidFrame(buf, low, lay, pos - 1);
  }

  /** Ends the argument at pos, when the command takes left more. Returns the
      comma behind it, unless this argument is the last; f is the argument and
      tail what follows the comma. */
  method EndArgument(buf: array<byte>, pos: nat, end: nat, left: int, ghost low: nat, ghost lay: Layout,
                     ghost rest: seq<byte>)
    returns (r: Option<nat>, ghost f: seq<byte>, ghost tail: seq<byte>)
    requires pos + |rest| == end && Holds(buf, pos, rest) && Laid(buf, low, lay, pos - 1)
    modifies buf
    ensures Outside(buf, pos, end + 1)
    ensures r.None? ==> Laid(buf, low, Then(lay, pos, f), end) && Fields(rest, left) == [f]
    ensures r.Some? ==> left > 1 && r.value == pos + |f| && |f| + 1 + |tail| == |rest|
    ensures r.Some? ==> Laid(buf, low, Then(lay, pos, f), r.value) && Holds(buf, r.value + 1, tail)
    ensures r.Some? ==> Fields(rest, left) == [f] + Fields(tail, left - 1)
  {
    f, tail := rest, [];
    var remain := end - pos + 1;
    var comma := GetFirstComma(buf, pos, remain, rest);
    if comma == None {
      if left <= 1 {
        return None, f, tail;
      }
      CutLast(buf, pos, end, low, lay, rest);
      remain := remain - (end - pos);
      if remain > 1 {
        assert false;  // no argument is ever found behind the last one
      }
      return None, f, tail;
    }
    f, tail := rest[..FirstComma(rest)], rest[FirstComma(rest) + 1..];
    Cut(buf, pos, comma.value - pos, low, lay, rest);
    if left <= 1 {
      return None, f, tail;
    }
    return comma, f, tail;
  }

  /** A NUL for the closing parenthesis. */
  method Terminate(buf: array<byte>, pos: nat, end: nat, ghost text: seq<byte>)
    requires Reads(buf, pos, text) && pos + |text| == end < buf.Length && NUL !in text
    modifies buf
    ensures Holds(buf, pos, text)
    ensures Outside(buf, end, end + 1)
  {
    buf[end] := NUL;
    ReadsHolds(buf, pos, text);
  }

  /** Some fields are cut; rest, from pos to the end, is still to be. */
  ghost predicate Cutting(buf: array<byte>, low: nat, pos: nat, end: nat, lay: Layout, rest: seq<byte>)
    reads buf
  {
    pos + |rest| == end && Holds(buf, pos, rest) && Laid(buf, low, lay, pos - 1)
  }

  /** Ends the argument at pos and adds it to those cut so far. */
  method NextArgument(buf: array<byte>, pos: nat, end: nat, left: int, ghost low: nat, ghost lay: Layout,
                      ghost rest: seq<byte>, ghost all: seq<seq<byte>>)
    returns (comma: Option<nat>, ghost more: Layout, ghost next: seq<byte>)
    requires Cutting(buf, low, pos, end, lay, rest) && FieldsOf(lay) + Fields(rest, left) == all
    modifies buf
    ensures Outside(buf, pos, end + 1) && Starts(more) == Starts(lay) + [pos]
    ensures comma.None? ==> Laid(buf, low, more, end) && FieldsOf(more) == all
    ensures comma.Some? ==> left > 1 && pos <= comma.value < end
    ensures comma.Some? ==> Cutting(buf, low, comma.value + 1, end, more, next)
    ensures comma.Some? ==> FieldsOf(more) + Fields(next, left - 1) == all
  {
    ghost var f;
    comma, f, next := EndArgument(buf, pos, end, left, low, lay, rest);
    more := Then(lay, pos, f);
    if comma.Some? {
      Associate(FieldsOf(lay), [f], Fields(next, left - 1));
    }
  }

  /** Cuts the text between the parentheses at begin and end into arguments;
      returns where each begins. There are never more than the table allows. */
  method Split(buf: array<byte>, begin: nat, end: nat, cnt: int, ghost text: seq<byte>)
    returns (arg: seq<nat>, ghost lay: Layout)
    requires begin < end < buf.Length && cnt <= MAX_DEMO_ARG
    requires Reads(buf, begin + 1, text) && |text| == end - begin - 1 && NUL !in text
    modifies buf
    ensures 0 < |arg| <= MAX_DEMO_ARG && arg == Starts(lay)
    ensures Laid(buf, begin + 1, lay, end) && FieldsOf(lay) == Fields(text, cnt)
    ensures Outside(buf, begin + 1, end + 1)
  {
    var remain: int, pos: nat := end - begin, begin + 1;
    arg, lay := [], Empty;
    Terminate(buf, pos, end, text);
    ghost var rest, all := text, Fields(text, cnt);
    assert [] + all == all;
    while remain > 0
      invariant remain == end - pos + 1 && begin < pos <= end && Cutting(buf, begin + 1, pos, end, lay, rest)
      invariant |arg| < MAX_DEMO_ARG && (|arg| == 0 || |arg| < cnt) && arg == Starts(lay)
      invariant FieldsOf(lay) + Fields(rest, cnt - |arg|) == all
      invariant Outside(buf, begin + 1, end + 1)
      decreases remain
    {
      var comma;
      comma, lay, rest := NextArgument(buf, pos, end, cnt - |arg|, begin + 1, lay, rest, all);
      arg := arg + [pos];
      if comma == None {
        return;
      }
      remain := remain - (comma.value - pos + 1);
      pos := comma.value + 1;
    }
  }

  // ----- Values -----

  /** What a command gets for one parameter: nothing (a null pointer), a pointer
      to a string, the default of a missing number, or a number. */
  datatype Param = Absent | Text(at: nat) | Unset | Number(value: int)

  function Missing(numeric: bool): Param {
    if numeric then Unset else Absent
  }

  /** The argument of a number is none. */
  predicate Refused(numeric: bool, field: seq<byte>) {
    numeric && Trim(field) != [] && StrToDec(Trim(field)).None?
  }

  predicate LoneQuote(numeric: bool, field: seq<byte>) {
    !numeric && Trim(field) == [QUOTE]
  }

  /** p stands for the field that begins at the given position. */
  ghost predicate Delivers(buf: array<byte>, p: Param, numeric: bool, field: seq<byte>, at: nat)
    reads buf
  {
    if Trim(field) == [] then p == Missing(numeric)
    else if numeric then p.Number? && StrToDec(Trim(field)) == Some(p.value)
    else
      var text := Unquote(Trim(field));
      p.Text? && Holds(buf, p.at, text) && at <= p.at && p.at + |text| <= at + |field|
  }

  /** The first n bytes are digits, and dd is their value in 32 bits. */
  predicate ReadSoFar(d: seq<byte>, n: nat, dd: int) {
    && n <= |d| && (forall k | 0 <= k < n :: Decimals.ZERO <= d[k] < Decimals.ZERO + 10)
    && dd == ToI32(Decimals.Value(d[..n]))
  }

  lemma {:induction false} OneDigit(d: seq<byte>, n: nat, dd: int, i: nat)
    requires n < |d| && ReadSoFar(d, n, dd) && i < 10 && d[n] == Decimals.ZERO + i
    ensures ReadSoFar(d, n + 1, ToI32(dd * 10 + i))
  {
    assert d[..n + 1][..n] == d[..n];
    WrapsOn(Decimals.Value(d[..n]), i);
  }

  lemma {:induction false} AllDigits(d: seq<byte>, dd: int)
    requires ReadSoFar(d, |d|, dd)
    ensures d != [] ==> Decimals.IsDigits(d)
    ensures dd == ToI32(Decimals.Value(d)) == ToI32(dd) && ToI32(-dd) == ToI32(-(Decimals.Value(d) as int))
  {
    assert d[..|d|] == d;
    WrapsOn(Decimals.Value(d), 0);
  }

  /** Reads a decimal number into a 32-bit variable. */
  method ReadNumber(buf: array<byte>, at: nat, ghost s: seq<byte>) returns (r: Option<int>)
    requires Holds(buf, at, s)
    ensures r == StrToDec(s)
  {
    var p, i, dd, sign := at, -1, 0, 1;
    if buf[p] == Decimals.MINUS {
      p, sign := p + 1, -1;
    }
    ghost var from, digits := p, s[p - at..];
    while buf[p] != NUL
      invariant from <= p <= from + |digits| && (i < 0 <==> p == from)
      invariant ReadSoFar(digits, p - from, dd)
      decreases from + |digits| - p
    {
      i := if Decimals.ZERO <= buf[p] < Decimals.ZERO + 10 then buf[p] - Decimals.ZERO else -1;
      p := p + 1;
      if i < 0 {
        return None;
      }
      OneDigit(digits, p - from - 1, dd, i);
      dd := ToI32(dd * 10 + i);
    }
    AllDigits(digits, dd);
    return if i < 0 then None else Some(ToI32(dd * sign));
  }

  /** One argument; none when it should be a number and is not. */
  method TakeValue(buf: array<byte>, at: nat, numeric: bool, ghost field: seq<byte>) returns (p: Option<Param>)
    requires Holds(buf, at, field)
    requires LoneQuote(numeric, field) ==> at + |field| + U8_RANGE < buf.Length
    modifies buf
    ensures p.None? <==> Refused(numeric, field)
    ensures p.Some? ==> Delivers(buf, p.value, numeric, field, at)
    ensures Outside(buf, at, at + |field| + if LoneQuote(numeric, field) then U8_RANGE else 0)
  {
    var start, len := TrimField(buf, at, field);
    if len == 0 {
      return Some(Missing(numeric));
    }
    if numeric {
      var n := ReadNumber(buf, start, Trim(field));
      return if n.None? then None else Some(Number(n.value));
    }
    var key, bad := QuotationFilter(buf, start, Trim(field));
    return Some(Text(key));
  }

  /** The fields are apart: each has its own stretch of the buffer. */
  ghost predicate Apart(arg: seq<nat>, fields: seq<seq<byte>>, low: nat, end: int) {
    && |arg| == |fields|
    && (forall j | 0 <= j < |arg| :: low <= arg[j] && arg[j] + |fields[j]| <= end)
    && (forall j, k | 0 <= j < k < |arg| :: arg[j] + |fields[j]| < arg[k])
  }

  lemma {:induction false} LaidMeans(buf: array<byte>, low: nat, lay: Layout, end: int)
    requires Laid(buf, low, lay, end)
    ensures Apart(Starts(lay), FieldsOf(lay), low, end)
    ensures low <= end + 1
    ensures forall j | 0 <= j < |Starts(lay)| :: Holds(buf, Starts(lay)[j], FieldsOf(lay)[j])
  {
    if lay.Then? {
      LaidMeans(buf, low, lay.before, lay.at - 1);
    }
  }

  twostate lemma {:induction false} OneChanged(buf: array<byte>, new arg: seq<nat>, new fields: seq<seq<byte>>,
                                               new low: nat, new end: int, new params: seq<Param>,
                                               new numeric: set<nat>, new j: nat, new to: nat)
    requires j < |arg| && Apart(arg, fields, low, end) && |params| <= j
    requires Outside(buf, arg[j], to) && (to == arg[j] + |fields[j]| || j + 1 == |arg|)
    requires forall k | j < k < |arg| :: old(Holds(buf, arg[k], fields[k]))
    requires forall i: nat | i < |params| :: old(Delivers(buf, params[i], i in numeric, fields[i], arg[i]))
    ensures forall k | j < k < |arg| :: Holds(buf, arg[k], fields[k])
    ensures forall i: nat | i < |params| :: Delivers(buf, params[i], i in numeric, fields[i], arg[i])
  {
    forall k | j < k < |arg| ensures Holds(buf, arg[k], fields[k]) {
      assert old(Holds(buf, arg[k], fields[k]));
    }
    forall i: nat | i < |params| ensures Delivers(buf, params[i], i in numeric, fields[i], arg[i]) {
      assert old(Delivers(buf, params[i], i in numeric, fields[i], arg[i]));
    }
  }

  /** Some argument that should be a number is none. */
  predicate AnyRefused(numeric: set<nat>, fields: seq<seq<byte>>) {
    exists j: nat :: j < |fields| && Refused(j in numeric, fields[j])
  }

  /** No argument but perhaps the last is a lone quote, which rewrites the bytes behind it. */
  predicate Tame(numeric: set<nat>, fields: seq<seq<byte>>, end: nat, size: nat) {
    forall j: nat | j < |fields| && LoneQuote(j in numeric, fields[j]) ::
      j + 1 == |fields| && end + U8_RANGE < size
  }

  /** How far behind the arguments the buffer may change. */
  function Reach(numeric: set<nat>, fields: seq<seq<byte>>): nat {
    if fields != [] && LoneQuote(|fields| - 1 in numeric, fields[|fields| - 1]) then U8_RANGE else 0
  }

  /** The first arguments have become these parameters, and are none of them refused;
      those to come still hold their fields. */
  ghost predicate Taken(buf: array<byte>, params: seq<Param>, arg: seq<nat>, numeric: set<nat>, fields: seq<seq<byte>>)
    reads buf
  {
    && |params| <= |arg| == |fields|
    && (forall k | |params| <= k < |arg| :: Holds(buf, arg[k], fields[k]))
    && (forall i: nat | i < |params| :: !Refused(i in numeric, fields[i]))
    && (forall i: nat | i < |params| :: Delivers(buf, params[i], i in numeric, fields[i], arg[i]))
  }

  /** The next argument, the others undisturbed. */
  method TakeNext(buf: array<byte>, arg: seq<nat>, numeric: set<nat>, ghost fields: seq<seq<byte>>, ghost low: nat,
                  ghost end: nat, params: seq<Param>) returns (p: Option<Param>)
    requires Apart(arg, fields, low, end) && Tame(numeric, fields, end, buf.Length)
    requires Taken(buf, params, arg, numeric, fields) && |params| < |arg|
    modifies buf
    ensures p.None? <==> Refused(|params| in numeric, fields[|params|])
    ensures p.Some? ==> Taken(buf, params + [p.value], arg, numeric, fields)
    ensures Outside(buf, low, end + Reach(numeric, fields))
  {
    var j := |params|;
    ghost var to := arg[j] + |fields[j]| + if LoneQuote(j in numeric, fields[j]) then U8_RANGE else 0;
    p := TakeValue(buf, arg[j], j in numeric, fields[j]);
    OneChanged(buf, arg, fields, low, end, params, numeric, j, to);
  }

  /** Trims, reads and unquotes every argument in place; none when one is refused. */
  method TakeValues(buf: array<byte>, arg: seq<nat>, numeric: set<nat>, ghost fields: seq<seq<byte>>, ghost low: nat,
                    ghost end: nat) returns (r: Option<seq<Param>>)
    requires Apart(arg, fields, low, end) && Tame(numeric, fields, end, buf.Length)
    requires forall k | 0 <= k < |arg| :: Holds(buf, arg[k], fields[k])
    modifies buf
    ensures r.None? <==> AnyRefused(numeric, fields)
    ensures r.Some? ==> |r.value| == |arg|
    ensures r.Some? ==> forall i: nat | i < |arg| :: Delivers(buf, r.value[i], i in numeric, fields[i], arg[i])
    ensures Outside(buf, low, end + Reach(numeric, fields))
  {
    var params := [];
    while |params| < |arg|
      invariant Taken(buf, params, arg, numeric, fields)
      invariant Outside(buf, low, end + Reach(numeric, fields))
    {
      var p := TakeNext(buf, arg, numeric, fields, low, end, params);
      if p.None? {
        return None;
      }
      params := params + [p.value];
    }
    return Some(params);
  }

  /** Defaults for the parameters that are missing. */
  method Defaults(given: seq<Param>, cnt: int, numeric: set<nat>) returns (params: seq<Param>)
    ensures |params| == (if cnt > |given| then cnt else |given|)
    ensures forall i | 0 <= i < |given| :: params[i] == given[i]
    ensures forall i: nat | |given| <= i < |params| :: params[i] == Missing(i in numeric)
  {
    params := given;
    while |params| < cnt
      invariant |given| <= |params| && (|params| <= cnt || |params| == |given|)
      invariant forall i | 0 <= i < |given| :: params[i] == given[i]
      invariant forall i: nat | |given| <= i < |params| :: params[i] == Missing(i in numeric)
    {
      params := params + [Missing(|params| in numeric)];
    }
  }

  /** The values of the arguments, and defaults behind them. */
  method AllValues(buf: array<byte>, arg: seq<nat>, cnt: int, numeric: set<nat>, ghost fields: seq<seq<byte>>,
                   ghost low: nat, ghost end: nat) returns (r: Option<seq<Param>>)
    requires Apart(arg, fields, low, end) && Tame(numeric, fields, end, buf.Length)
    requires forall k | 0 <= k < |arg| :: Holds(buf, arg[k], fields[k])
    modifies buf
    ensures r.None? <==> AnyRefused(numeric, fields)
    ensures r.Some? ==> Parsed(buf, r.value, cnt, numeric, fields, arg)
    ensures Outside(buf, low, end + Reach(numeric, fields))
  {
    r := TakeValues(buf, arg, numeric, fields, low, end);
    if r.Some? {
      var params := Defaults(r.value, cnt, numeric);
      return Some(params);
    }
  }

  /** A parameter for each field and at least cnt in all, defaults behind the fields. */
  ghost predicate Parsed(buf: array<byte>, params: seq<Param>, cnt: int, numeric: set<nat>, fields: seq<seq<byte>>,
                         at: seq<nat>)
    reads buf
  {
    && |fields| == |at| <= |params| == (if cnt > |fields| then cnt else |fields|)
    && (forall i: nat | i < |fields| :: Delivers(buf, params[i], i in numeric, fields[i], at[i]))
    && (forall i: nat | |fields| <= i < |params| :: params[i] == Missing(i in numeric))
  }

  /** The parameters of a command taking cnt of them, out of the text between
      the parentheses at begin and end; none when one is refused. */
  method ParseArguments(buf: array<byte>, begin: nat, end: nat, cnt: int, numeric: set<nat>, ghost text: seq<byte>)
    returns (r: Option<seq<Param>>, ghost at: seq<nat>)
    requires begin < end < buf.Length && cnt <= MAX_DEMO_ARG
    requires Reads(buf, begin + 1, text) && |text| == end - begin - 1 && NUL !in text
    requires Tame(numeric, Fields(text, cnt), end, buf.Length)
    modifies buf
    ensures r.None? <==> AnyRefused(numeric, Fields(text, cnt))
    ensures r.Some? ==> Parsed(buf, r.value, cnt, numeric, Fields(text, cnt), at)
    ensures Outside(buf, begin + 1, end + 1 + Reach(numeric, Fields(text, cnt)))
  {
    var arg;
    ghost var lay;
    arg, lay := Split(buf, begin, end, cnt, text);
    at := arg;
    LaidMeans(buf, begin + 1, lay, end);
    r := AllValues(buf, arg, cnt, numeric, FieldsOf(lay), begin + 1, end);
  }

  /** How many parameters a command is called with: one that takes more than ten gets none. */
  function Arity(cnt: int): nat {
    if 0 <= cnt <= 10 then cnt else 0
  }

  /** Parses the parameters and calls the command; returns what it is called with,
      or none when it is not called. */
  method Execute(buf: array<byte>, begin: nat, end: nat, cnt: int, numeric: set<nat>, ghost text: seq<byte>)
    returns (call: Option<seq<Param>>, ghost at: seq<nat>)
    requires begin < end < buf.Length && cnt <= MAX_DEMO_ARG
    requires Reads(buf, begin + 1, text) && |text| == end - begin - 1 && NUL !in text
    requires Tame(numeric, Fields(text, cnt), end, buf.Length)
    modifies buf
    ensures call.None? <==> AnyRefused(numeric, Fields(text, cnt))
    ensures call.Some? ==> var fields := Fields(text, cnt);
      && (0 <= cnt <= 10 ==> |call.value| == cnt) && (cnt < 0 || cnt > 10 ==> |call.value| == 0)
      && |at| == |fields|
      && forall i: nat | i < |call.value| ::
           if i < |fields| then Delivers(buf, call.value[i], i in numeric, fields[i], at[i])
           else call.value[i] == if i in numeric then Unset else Absent
    ensures Outside(buf, begin + 1, end + 1 + Reach(numeric, Fields(text, cnt)))
  {
    var r;
    r, at := ParseArguments(buf, begin, end, cnt, numeric, text);
    if r.None? {
      return None, at;
    }
    return Some(r.value[..Arity(cnt)]), at;
  }

  lemma {:induction false} HoldsOne(buf: array<byte>, at: nat, s: seq<byte>, t: seq<byte>)
    requires Holds(buf, at, s) && Holds(buf, at, t)
    ensures s == t
  {
    assert buf[at + |s|] == buf[at + |t|] == NUL && |s| == |t|;
    assert forall j | 0 <= j < |s| :: s[j] == buf[at + j] == t[j];
  }

  /** What a delivered string parameter points to is the value of its field. */
  lemma {:induction false} DeliveredIs(buf: array<byte>, p: Param, field: seq<byte>, at: nat, s: seq<byte>)
    requires Delivers(buf, p, false, field, at)
    ensures p.Text? && Holds(buf, p.at, s) <==> StringValue(field) == Some(s)
  {
    if p.Text? && Holds(buf, p.at, s) {
      HoldsOne(buf, p.at, s, Unquote(Trim(field)));
    }
  }

  /** However a printed list was split, its strings are what the parameters point
      to exactly when it is printable and no longer than the command takes. */
  lemma {:induction false} PrintedArrives(buf: array<byte>, strs: seq<seq<byte>>, cnt: int, params: seq<Param>,
                                          at: seq<nat>)
    requires strs != [] && |Fields(Printed(strs), cnt)| == |at| <= |params|
    requires forall i: nat | i < |at| :: Delivers(buf, params[i], false, Fields(Printed(strs), cnt)[i], at[i])
    ensures |at| == |strs| && (forall i: nat | i < |strs| :: params[i].Text? && Holds(buf, params[i].at, strs[i]))
       <==> Printable(strs) && (|strs| == 1 || |strs| <= cnt)
  {
    var fields := Fields(Printed(strs), cnt);
    RoundTrip(strs, cnt);
    RecoversMeans(fields, strs);
    if |at| == |strs| {
      forall i: nat | i < |strs|
        ensures params[i].Text? && Holds(buf, params[i].at, strs[i]) <==> StringValue(fields[i]) == Some(strs[i])
      {
        DeliveredIs(buf, params[i], fields[i], at[i], strs[i]);
      }
    }
  }

  /** A buffer with a printable list between its parentheses: the command is
      called with these strings, as many as it takes. */
  method CallPrinted(buf: array<byte>, begin: nat, end: nat, cnt: int, ghost strs: seq<seq<byte>>)
    returns (args: seq<Param>)
    requires begin < end < buf.Length && cnt <= MAX_DEMO_ARG && strs != [] && Printable(strs)
    requires forall i | 0 <= i < |strs| :: NUL !in strs[i]
    requires buf[begin + 1..end] == Printed(strs)
    modifies buf
    ensures 0 <= cnt <= 10 ==> |args| == cnt
    ensures cnt < 0 || cnt > 10 ==> |args| == 0
    ensures forall i: nat | i < |args| ::
      if i < |strs| then args[i].Text? && Holds(buf, args[i].at, strs[i]) else args[i] == Absent
    ensures Outside(buf, begin + 1, end + 1)
  {
    ghost var text, fields := Printed(strs), Fields(Printed(strs), cnt);
    PrintedAddsNothing(strs, NUL);
    assert forall j | begin + 1 <= j < end :: buf[j] == text[j - (begin + 1)];
    FieldsOfPrinted(strs, cnt);
    PrintableMeans(strs);
    forall k: nat | k < |fields| ensures !LoneQuote(false, fields[k]) && StringValue(fields[k]) == Some(strs[k]) {
      TrimQuoted(Quoted(strs[k]));
      CleanField(strs[k]);
    }
    var call;
    ghost var at;
    call, at := Execute(buf, begin, end, cnt, {}, text);
    args := call.value;
    forall i: nat | i < |args| && i < |strs| ensures args[i].Text? && Holds(buf, args[i].at, strs[i]) {
      DeliveredIs(buf, args[i], fields[i], at[i], strs[i]);
    }
  }

  /** An argument as typed has come to the command: a string is pointed to, and so is
      a bare text without the blanks around it, if anything is left; a number is
      itself, as far as 32 bits hold it. */
  ghost predicate Arrived(buf: array<byte>, p: Param, a: Arg)
    reads buf
  {
    match a
    case Str(s) => p.Text? && Holds(buf, p.at, s)
    case Bare(s) => if Trim(s) == [] then p == Absent else p.Text? && Holds(buf, p.at, Trim(s))
    case Num(v) => p.Number? && (p.value - v) % 0x1_0000_0000 == 0 && -0x8000_0000 <= p.value < 0x8000_0000
  }

  /** A sound argument is not refused, does not disturb others, and is delivered as itself. */
  lemma {:induction false} SoundArrives(a: Arg, last: bool, numeric: bool)
    requires Sound(a, last) && (numeric <==> a.Num?)
    ensures !Refused(numeric, ConsoleArgs.Shown(a)) && !LoneQuote(numeric, ConsoleArgs.Shown(a))
    ensures a.Str? ==> StringValue(ConsoleArgs.Shown(a)) == Some(a.text)
  {
    match a
    case Str(s) =>
      TrimQuoted(Quoted(s));
      CleanField(s);
    case Bare(s) =>
    case Num(v) =>
      SignedText(v);
  }

  lemma {:induction false} DeliveredArrives(buf: array<byte>, p: Param, a: Arg, last: bool, at: nat)
    requires Sound(a, last) && Delivers(buf, p, a.Num?, ConsoleArgs.Shown(a), at)
    ensures Arrived(buf, p, a)
  {
    SoundArrives(a, last, a.Num?);
    match a
    case Str(s) =>
      DeliveredIs(buf, p, Quoted(s), at, s);
    case Bare(s) =>
    case Num(v) =>
      SignedText(v);
      ToI32Congruent(v);
  }

  /** A buffer with arguments of all kinds between its parentheses: the command is called
      with these, as many as it takes. */
  method CallGiven(buf: array<byte>, begin: nat, end: nat, cnt: int, numeric: set<nat>, ghost given: seq<Arg>)
    returns (args: seq<Param>)
    requires begin < end < buf.Length && cnt <= MAX_DEMO_ARG && given != [] && AllSound(given)
    requires forall i: nat | i < |given| :: i in numeric <==> given[i].Num?
    requires NUL !in Joined(ShownAll(given)) && buf[begin + 1..end] == Joined(ShownAll(given))
    modifies buf
    ensures 0 <= cnt <= 10 ==> |args| == cnt
    ensures cnt < 0 || cnt > 10 ==> |args| == 0
    ensures forall i: nat | i < |args| ::
      if i < |given| then Arrived(buf, args[i], given[i]) else args[i] == if i in numeric then Unset else Absent
    ensures Outside(buf, begin + 1, end + 1)
  {
    ghost var text, fields := Joined(ShownAll(given)), Fields(Joined(ShownAll(given)), cnt);
    assert forall j | begin + 1 <= j < end :: buf[j] == text[j - (begin + 1)];
    FieldsOfGiven(given, cnt);
    forall k: nat | k < |fields|
      ensures fields[k] == ConsoleArgs.Shown(given[k])
      ensures !Refused(k in numeric, fields[k]) && !LoneQuote(k in numeric, fields[k])
    {
      SoundArrives(given[k], k == |given| - 1, k in numeric);
    }
    var call;
    ghost var at;
    call, at := Execute(buf, begin, end, cnt, numeric, text);
    args := call.value;
    forall i: nat | i < |args| && i < |given| ensures Arrived(buf, args[i], given[i]) {
      DeliveredArrives(buf, args[i], given[i], i == |given| - 1, at[i]);
    }
  }
}
