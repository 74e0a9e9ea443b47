/**
 The argument text of the demo console: how it is split, trimmed and unquoted,
 and the printer it undoes.
 */
module ConsoleText {
  import opened Bits
  import opened Bytes
  import Decimals

  const NUL: byte := 0
  const SPACE: byte := 32
  const QUOTE: byte := 34
  const COMMA: byte := 44
  const BACKSLASH: byte := 92
  const U8_RANGE: nat := 256

  // ----- Splitting -----

  /** The comma at n ends the argument that begins with s: any comma for a bare
      argument; for a quoted one only a comma right after an unescaped quote. */
  predicate Separates(s: seq<byte>, n: nat) {
    && n < |s| && s[n] == COMMA
    && (s[0] == QUOTE ==> n >= 2 && s[n - 1] == QUOTE && (n == 2 || s[n - 2] != BACKSLASH))
  }

  /** The first separator at or behind k, or |s|. */
  function SeparatorFrom(s: seq<byte>, k: nat): (n: nat)
    requires k <= |s|
    ensures k <= n <= |s|
    decreases |s| - k
  {
    if k == |s| || Separates(s, k) then k else SeparatorFrom(s, k + 1)
  }

  function FirstComma(s: seq<byte>): (n: nat)
    ensures n <= |s|
  {
    SeparatorFrom(s, 0)
  }

  lemma {:induction false} SeparatorIsFirst(s: seq<byte>, k: nat)
    requires k <= |s|
    ensures var n := SeparatorFrom(s, k);
            (n < |s| ==> Separates(s, n)) && forall i | k <= i < n :: !Separates(s, i)
    decreases |s| - k
  {
    if k < |s| && !Separates(s, k) {
      SeparatorIsFirst(s, k + 1);
    }
  }

  /** At most cnt arguments (at least one); what follows the last one is dropped. */
  function Fields(s: seq<byte>, cnt: int): (r: seq<seq<byte>>)
    ensures |r| > 0
    decreases |s|
  {
    var n := FirstComma(s);
    if n == |s| then [s]
    else if cnt <= 1 then [s[..n]]
    else [s[..n]] + Fields(s[n + 1..], cnt - 1)
  }

  // ----- Trimming -----

  function TrimLeft(s: seq<byte>): seq<byte> {
    if s != [] && s[0] == SPACE then TrimLeft(s[1..]) else s
  }

  function TrimRight(s: seq<byte>): seq<byte> {
    if s != [] && s[|s| - 1] == SPACE then TrimRight(s[..|s| - 1]) else s
  }

  function Trim(s: seq<byte>): seq<byte> {
    TrimRight(TrimLeft(s))
  }

  // ----- Unquoting -----

  /** A backslash is dropped and the byte behind it is taken as it is. */
  function Unescape(s: seq<byte>): (r: seq<byte>)
    ensures |r| <= |s|
  {
    if s == [] then []
    else if s[0] != BACKSLASH then [s[0]] + Unescape(s[1..])
    else if |s| == 1 then []
    else [s[1]] + Unescape(s[2..])
  }

  lemma {:induction false} UnescapeWithin(s: seq<byte>, x: byte)
    requires x !in s
    ensures x !in Unescape(s)
  {
    if s == [] {
    } else if s[0] != BACKSLASH {
      UnescapeWithin(s[1..], x);
    } else if |s| > 1 {
      UnescapeWithin(s[2..], x);
    }
  }

  /** The closing quote is found where an 8-bit length says it is. */
  predicate Closed(s: seq<byte>) {
    2 <= |s| <= U8_RANGE && s[|s| - 1] == QUOTE
  }

  function Unquote(s: seq<byte>): seq<byte> {
    if s == [] || s[0] != QUOTE then s
    else if Closed(s) then Unescape(s[1..|s| - 1])
    else s[1..]
  }

  // ----- Values -----

  /** A string argument: absent when only spaces are left. */
  function StringValue(field: seq<byte>): Option<seq<byte>> {
    var t := Trim(field);
    if t == [] then None else Some(Unquote(t))
  }

  // ----- Numbers -----

  /** strtodec: decimal digits with a minus sign or none in front, in a signed 32-bit variable. */
  function StrToDec(s: seq<byte>): Option<int> {
    var negative := s != [] && s[0] == Decimals.MINUS;
    var digits := if negative then s[1..] else s;
    if !Decimals.IsDigits(digits) then None
    else Some(ToI32(if negative then -(Decimals.Value(digits) as int) else Decimals.Value(digits)))
  }

  lemma {:induction false} SignedReads(v: int)
    ensures StrToDec(Decimals.Signed(v)) == Some(ToI32(v))
  {
    var d := Decimals.Decimal(if v < 0 then -v else v);
    Decimals.DecimalValue(if v < 0 then -v else v);
    if v < 0 {
      assert Decimals.Signed(v)[1..] == d;
    } else {
      assert d[0] != Decimals.MINUS;
    }
  }

  /** A printed number is read as itself exactly when it fits the variable. */
  lemma {:induction false} NumberArrives(v: int)
    ensures StrToDec(Decimals.Signed(v)) == Some(v) <==> -(I32 as int) <= v < I32
  {
    SignedReads(v);
    ToI32Range(v);
  }

  // ----- The printer -----

  function Escape(s: seq<byte>): seq<byte> {
    if s == [] then []
    else (if s[0] == QUOTE || s[0] == BACKSLASH then [BACKSLASH, s[0]] else [s[0]]) + Escape(s[1..])
  }

  function Quoted(s: seq<byte>): seq<byte> {
    [QUOTE] + Escape(s) + [QUOTE]
  }

  /** Quoted, escaped and comma-joined. */
  function Printed(strs: seq<seq<byte>>): seq<byte>
    requires strs != []
  {
    if |strs| == 1 then Quoted(strs[0]) else Quoted(strs[0]) + [COMMA] + Printed(strs[1..])
  }

  predicate EndsInBackslash(s: seq<byte>) {
    s != [] && s[|s| - 1] == BACKSLASH
  }

  /** Each string fits the 8-bit length, and none but the last ends in a backslash. */
  predicate Printable(strs: seq<seq<byte>>) {
    strs != [] ==>
      && |Quoted(strs[0])| <= U8_RANGE
      && (|strs| > 1 ==> !EndsInBackslash(strs[0]))
      && Printable(strs[1..])
  }

  lemma {:induction false} PrintableMeans(strs: seq<seq<byte>>)
    ensures Printable(strs)
       <==> (forall i | 0 <= i < |strs| :: |Quoted(strs[i])| <= 256)
            && (forall i | 0 <= i < |strs| - 1 :: !EndsInBackslash(strs[i]))
  {
    if strs != [] {
      PrintableMeans(strs[1..]);
      assert forall i | 0 <= i < |strs| - 1 :: strs[1..][i] == strs[i + 1];
      assert forall i | 0 < i < |strs| :: strs[i] == strs[1..][i - 1];
    }
  }

  // ----- Unescape undoes Escape -----

  lemma {:induction false} EscapeShape(s: seq<byte>)
    ensures |s| <= |Escape(s)|
    ensures s != [] ==> Escape(s) != [] && Escape(s)[|Escape(s)| - 1] == s[|s| - 1]
    ensures s == [] ==> Escape(s) == []
    ensures forall k | 0 <= k < |Escape(s)| && Escape(s)[k] == QUOTE :: k >= 1 && Escape(s)[k - 1] == BACKSLASH
  {
    if s != [] {
      EscapeShape(s[1..]);
      var head := if s[0] == QUOTE || s[0] == BACKSLASH then [BACKSLASH, s[0]] else [s[0]];
      var tail := Escape(s[1..]);
      assert Escape(s) == head + tail;
      forall k | 0 <= k < |Escape(s)| && Escape(s)[k] == QUOTE
        ensures k >= 1 && Escape(s)[k - 1] == BACKSLASH
      {
        if k >= |head| {
          assert tail[k - |head|] == QUOTE;
        }
      }
    }
  }

  lemma {:induction false} UnescapeStep(s: seq<byte>, u: seq<byte>)
    requires s != []
    ensures Unescape((if s[0] == QUOTE || s[0] == BACKSLASH then [BACKSLASH, s[0]] else [s[0]]) + u)
         == [s[0]] + Unescape(u)
  {
    if s[0] == QUOTE || s[0] == BACKSLASH {
      assert ([BACKSLASH, s[0]] + u)[2..] == u;
    } else {
      assert ([s[0]] + u)[1..] == u;
    }
  }

  lemma {:induction false} UnescapeEscape(s: seq<byte>, t: seq<byte>)
    ensures Unescape(Escape(s) + t) == s + Unescape(t)
  {
    if s == [] {
      assert Escape(s) + t == t;
    } else {
      var head := if s[0] == QUOTE || s[0] == BACKSLASH then [BACKSLASH, s[0]] else [s[0]];
      var u := Escape(s[1..]) + t;
      Associate(head, Escape(s[1..]), t);
      UnescapeStep(s, u);
      UnescapeEscape(s[1..], t);
      Associate([s[0]], s[1..], Unescape(t));
      assert [s[0]] + s[1..] == s;
    }
  }

  /** A quoted string is unquoted to itself exactly when its length fits in eight bits. */
  lemma {:induction false} UnquoteQuoted(s: seq<byte>)
    ensures Unquote(Quoted(s)) == s <==> |Quoted(s)| <= 256
  {
    var q := Quoted(s);
    EscapeShape(s);
    UnescapeEscape(s, []);
    assert q[1..|q| - 1] == Escape(s) == Escape(s) + [];
    assert Unescape([]) == [];
    assert |q[1..]| > |s|;
  }

  // ----- Where a printed list is cut -----

  /** Inside a quoted string there is no separator; the comma behind it is one
      exactly when the string does not end in a backslash. */
  lemma {:induction false} QuotedHolds(s: seq<byte>, rest: seq<byte>)
    ensures forall i: nat | i < |Quoted(s)| :: !Separates(Quoted(s) + rest, i)
    ensures rest != [] && rest[0] == COMMA ==>
      (Separates(Quoted(s) + rest, |Quoted(s)|) <==> !EndsInBackslash(s))
  {
    EscapeShape(s);
    var q, e := Quoted(s), Escape(s);
    assert q[0] == QUOTE && q[|q| - 1] == QUOTE && |q| == |e| + 2;
    assert forall k | 0 <= k < |e| :: q[k + 1] == e[k];
    forall i: nat | i < |q| ensures !Separates(q + rest, i) {
      if 2 <= i < |q| - 1 && q[i - 1] == QUOTE {
        assert e[i - 2] == QUOTE;
        assert e[i - 3] == BACKSLASH;
      }
    }
    if e != [] {
      assert q[|q| - 2] == e[|e| - 1];
    }
  }

  lemma {:induction false} CutQuoted(s: seq<byte>, rest: seq<byte>)
    requires rest == [] || rest[0] == COMMA
    ensures rest == [] || !EndsInBackslash(s) ==> FirstComma(Quoted(s) + rest) == |Quoted(s)|
    ensures rest != [] && EndsInBackslash(s) ==> FirstComma(Quoted(s) + rest) > |Quoted(s)|
  {
    QuotedHolds(s, rest);
    SeparatorIsFirst(Quoted(s) + rest, 0);
  }

  lemma {:induction false} TrimQuoted(s: seq<byte>)
    requires s != [] && s[0] != SPACE && s[|s| - 1] != SPACE
    ensures Trim(s) == s
  {
  }

  lemma {:induction false} PrintedShape(strs: seq<seq<byte>>)
    requires strs != []
    ensures |Printed(strs)| >= 2 && Printed(strs)[0] == QUOTE && Printed(strs)[|Printed(strs)| - 1] == QUOTE
  {
    if |strs| > 1 {
      PrintedShape(strs[1..]);
    }
  }

  /** The value of the first field, when it is the whole first string. */
  lemma {:induction false} CleanField(s: seq<byte>)
    ensures StringValue(Quoted(s)) == Some(s) <==> |Quoted(s)| <= U8_RANGE
  {
    TrimQuoted(Quoted(s));
    UnquoteQuoted(s);
  }

  /** A field that runs on behind the first string never has its value. */
  lemma {:induction false} OverrunField(s: seq<byte>, more: seq<byte>)
    requires more != [] && more[0] == COMMA && more[|more| - 1] == QUOTE
    ensures StringValue(Quoted(s) + more) != Some(s)
  {
    var t := Quoted(s) + more;
    TrimQuoted(t);
    EscapeShape(s);
    if Closed(t) {
      var inner := [QUOTE] + more[..|more| - 1];
      assert t[1..|t| - 1] == Escape(s) + inner;
      UnescapeEscape(s, inner);
      assert Unescape(inner) != [];
    } else {
      assert |t[1..]| > |s|;
    }
  }

  lemma {:induction false} OverrunCut(s: seq<byte>, more: seq<byte>, n: nat)
    requires |Quoted(s)| < n <= |Quoted(s) + more| && more[0] == COMMA && (Quoted(s) + more)[n - 1] == QUOTE
    ensures StringValue((Quoted(s) + more)[..n]) != Some(s)
  {
    var behind := more[..n - |Quoted(s)|];
    assert (Quoted(s) + more)[..n] == Quoted(s) + behind;
    OverrunField(s, behind);
  }

  /** Field by field, the values are the strings. */
  predicate Recovers(fields: seq<seq<byte>>, strs: seq<seq<byte>>) {
    if strs == [] then fields == []
    else
      && fields != []
      && StringValue(fields[0]) == Some(strs[0])
      && Recovers(fields[1..], strs[1..])
  }

  lemma {:induction false} RecoversMeans(fields: seq<seq<byte>>, strs: seq<seq<byte>>)
    ensures Recovers(fields, strs)
       <==> |fields| == |strs| && forall i | 0 <= i < |strs| :: StringValue(fields[i]) == Some(strs[i])
  {
    if strs != [] && fields != [] {
      RecoversMeans(fields[1..], strs[1..]);
      assert forall i | 0 < i < |strs| :: strs[i] == strs[1..][i - 1];
      assert forall i | 0 < i < |fields| :: fields[i] == fields[1..][i - 1];
      assert forall i | 0 <= i < |strs| - 1 :: strs[1..][i] == strs[i + 1];
    }
  }

  lemma {:induction false} CutFirst(strs: seq<seq<byte>>, cnt: int)
    requires 1 < |strs| && 1 < cnt && !EndsInBackslash(strs[0])
    ensures Fields(Printed(strs), cnt) == [Quoted(strs[0])] + Fields(Printed(strs[1..]), cnt - 1)
  {
    var q, more := Quoted(strs[0]), [COMMA] + Printed(strs[1..]);
    var p := Printed(strs);
    assert p == q + more;
    CutQuoted(strs[0], more);
    assert p[..|q|] == q && p[|q| + 1..] == Printed(strs[1..]);
  }

  lemma {:induction false} OverrunText(s: seq<byte>, more: seq<byte>)
    requires EndsInBackslash(s) && |more| >= 2 && more[0] == COMMA && more[|more| - 1] == QUOTE
    ensures var p := Quoted(s) + more; StringValue(p[..FirstComma(p)]) != Some(s)
  {
    var p := Quoted(s) + more;
    CutQuoted(s, more);
    SeparatorIsFirst(p, 0);
    assert p[|p| - 1] == QUOTE;
    OverrunCut(s, more, FirstComma(p));
  }

  lemma {:induction false} FirstOf(p: seq<byte>, cnt: int)
    ensures Fields(p, cnt)[0] == p[..FirstComma(p)]
  {
    assert p[..|p|] == p;
  }

  lemma {:induction false} OverrunFirst(strs: seq<seq<byte>>, cnt: int)
    requires 1 < |strs| && EndsInBackslash(strs[0])
    ensures StringValue(Fields(Printed(strs), cnt)[0]) != Some(strs[0])
  {
    var more := [COMMA] + Printed(strs[1..]);
    assert Printed(strs) == Quoted(strs[0]) + more;
    PrintedShape(strs[1..]);
    OverrunText(strs[0], more);
    FirstOf(Printed(strs), cnt);
  }

  lemma {:induction false} RecoversCons(f: seq<byte>, rest: seq<seq<byte>>, strs: seq<seq<byte>>)
    requires strs != []
    ensures Recovers([f] + rest, strs) <==> StringValue(f) == Some(strs[0]) && Recovers(rest, strs[1..])
  {
    assert ([f] + rest)[1..] == rest;
  }

  /** How many of n arguments a command taking cnt of them gets. */
  function Arriving(n: nat, cnt: int): nat {
    if n <= 1 || n <= cnt then n else if cnt <= 1 then 1 else cnt
  }

  lemma {:induction false} FieldsCount(s: seq<byte>, cnt: int)
    ensures |Fields(s, cnt)| <= if cnt <= 1 then 1 else cnt
    decreases |s|
  {
    var n := FirstComma(s);
    if n < |s| && cnt > 1 {
      FieldsCount(s[n + 1..], cnt - 1);
    } else if cnt <= 1 {
      assert |Fields(s, cnt)| == 1;
    }
  }

  /** The fields of a printable list are its quoted strings, as many as the command takes. */
  lemma {:induction false} FieldsOfPrinted(strs: seq<seq<byte>>, cnt: int)
    requires strs != [] && Printable(strs)
    ensures |Fields(Printed(strs), cnt)| == Arriving(|strs|, cnt)
    ensures forall i | 0 <= i < Arriving(|strs|, cnt) :: Fields(Printed(strs), cnt)[i] == Quoted(strs[i])
  {
    if |strs| == 1 {
      CutQuoted(strs[0], []);
      assert Quoted(strs[0]) + [] == Quoted(strs[0]);
    } else if cnt > 1 {
      CutFirst(strs, cnt);
      FieldsOfPrinted(strs[1..], cnt - 1);
    } else {
      CutFirstOnly(strs, cnt);
    }
  }

  lemma {:induction false} CutFirstOnly(strs: seq<seq<byte>>, cnt: int)
    requires 1 < |strs| && cnt <= 1 && !EndsInBackslash(strs[0])
    ensures Fields(Printed(strs), cnt) == [Quoted(strs[0])]
  {
    var q, more := Quoted(strs[0]), [COMMA] + Printed(strs[1..]);
    assert Printed(strs) == q + more;
    CutQuoted(strs[0], more);
    assert (q + more)[..|q|] == q;
  }

  /** The splitter, the trimmer and the unquoter undo the printer exactly on the
      printable lists that are no longer than the command takes. */
  lemma {:induction false} RoundTrip(strs: seq<seq<byte>>, cnt: int)
    requires strs != []
    ensures Recovers(Fields(Printed(strs), cnt), strs) <==> Printable(strs) && (|strs| == 1 || |strs| <= cnt)
    decreases |strs|
  {
    if |strs| > 1 && |strs| > cnt {
      FieldsCount(Printed(strs), cnt);
      RecoversMeans(Fields(Printed(strs), cnt), strs);
    } else if |strs| == 1 {
      RoundTripOne(strs, cnt);
    } else {
      if EndsInBackslash(strs[0]) {
        OverrunFirst(strs, cnt);
      } else {
        RoundTrip(strs[1..], cnt - 1);
        RoundTripMore(strs, cnt);
      }
    }
  }

  lemma {:induction false} RoundTripMore(strs: seq<seq<byte>>, cnt: int)
    requires 1 < |strs| <= cnt && !EndsInBackslash(strs[0])
    requires Recovers(Fields(Printed(strs[1..]), cnt - 1), strs[1..]) <==> Printable(strs[1..])
    ensures Recovers(Fields(Printed(strs), cnt), strs) <==> Printable(strs)
  {
    CutFirst(strs, cnt);
    CleanField(strs[0]);
    RecoversCons(Quoted(strs[0]), Fields(Printed(strs[1..]), cnt - 1), strs);
  }

  lemma {:induction false} RoundTripOne(strs: seq<seq<byte>>, cnt: int)
    requires |strs| == 1
    ensures Recovers(Fields(Printed(strs), cnt), strs) <==> Printable(strs)
  {
    CutQuoted(strs[0], []);
    assert Quoted(strs[0]) + [] == Quoted(strs[0]);
    CleanField(strs[0]);
  }

  /** The printer adds nothing that could end the argument text. */
  lemma {:induction false} PrintedAddsNothing(strs: seq<seq<byte>>, x: byte)
    requires strs != [] && x != QUOTE && x != COMMA && x != BACKSLASH
    requires forall i | 0 <= i < |strs| :: x !in strs[i]
    ensures x !in Printed(strs)
  {
    EscapeAddsNothing(strs[0], x);
    if |strs| > 1 {
      PrintedAddsNothing(strs[1..], x);
    }
  }

  lemma {:induction false} EscapeAddsNothing(s: seq<byte>, x: byte)
    requires x != BACKSLASH && x !in s
    ensures x !in Escape(s)
  {
    if s != [] {
      EscapeAddsNothing(s[1..], x);
    }
  }
}
