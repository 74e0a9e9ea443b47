/**
 Arguments as they are typed: quoted strings, bare texts and numbers, joined by
 commas, and what a command gets out of them.
 */
module ConsoleArgs {
  import opened Bits
  import opened Bytes
  import opened ConsoleText
  import Decimals

  // ----- Joining and splitting -----

  /** Joined by commas. */
  function Joined(texts: seq<seq<byte>>): seq<byte>
    requires texts != []
  {
    if |texts| == 1 then texts[0] else texts[0] + [44] + Joined(texts[1..])
  }

  predicate Unquoted(t: seq<byte>) {
    t == [] || t[0] != 34
  }

  /** A text behind which the next comma is the first separator. */
  ghost predicate Separable(t: seq<byte>) {
    || (Unquoted(t) && 44 !in t)
    || exists s: seq<byte> :: t == Quoted(s) && !EndsInBackslash(s)
  }

  /** A text that holds no separator. */
  ghost predicate Whole(t: seq<byte>) {
    || (Unquoted(t) && 44 !in t)
    || exists s: seq<byte> :: t == Quoted(s)
  }

  /** In a text that starts without a quote the first comma of all separates. */
  lemma {:induction false} BareComma(t: seq<byte>)
    requires Unquoted(t)
    ensures FirstComma(t) == IndexOf(t, 44)
  {
    SeparatorIsFirst(t, 0);
    IndexOfFirst(t, 44);
    var n, i := FirstComma(t), IndexOf(t, 44);
    assert i < |t| ==> Separates(t, i) && n <= i;
    assert n < |t| ==> Separates(t, n) && t[n] == 44;
  }

  lemma {:induction false} CutSeparable(t: seq<byte>, rest: seq<byte>)
    requires if rest == [] then Whole(t) else Separable(t) && rest[0] == 44
    ensures FirstComma(t + rest) == |t|
  {
    if Unquoted(t) && 44 !in t {
      BareComma(t + rest);
      assert forall i | 0 <= i < |t| :: (t + rest)[i] == t[i] && t[i] in t;
      IndexOfUnique(t + rest, 44, |t|);
    } else if rest == [] {
      var s: seq<byte> :| t == Quoted(s);
      CutQuoted(s, rest);
    } else {
      var s: seq<byte> :| t == Quoted(s) && !EndsInBackslash(s);
      CutQuoted(s, rest);
    }
  }

  /** The first text of a joined list is cut off, and the others are left. */
  lemma {:induction false} CutJoined(texts: seq<seq<byte>>)
    requires |texts| > 1 && Separable(texts[0])
    ensures var s, n := Joined(texts), |texts[0]|;
      n < |s| && FirstComma(s) == n && s[..n] == texts[0] && s[n + 1..] == Joined(texts[1..])
  {
    var behind := [44] + Joined(texts[1..]);
    Associate(texts[0], [44], Joined(texts[1..]));
    assert Joined(texts) == texts[0] + behind;
    CutSeparable(texts[0], behind);
  }

  lemma {:induction false} TakenOn(texts: seq<seq<byte>>, n: nat)
    requires texts != [] && n < |texts|
    ensures texts[..n + 1] == [texts[0]] + texts[1..][..n]
  {
  }

  /** A joined list of such texts splits back into itself, as far as the command takes arguments. */
  lemma {:induction false} FieldsOfJoined(texts: seq<seq<byte>>, cnt: int)
    requires texts != [] && Whole(texts[|texts| - 1])
    requires forall i | 0 <= i < |texts| - 1 :: Separable(texts[i])
    ensures Fields(Joined(texts), cnt) == texts[..Arriving(|texts|, cnt)]
    decreases |texts|
  {
    if |texts| == 1 {
      CutSeparable(texts[0], []);
      assert texts[0] + [] == texts[0];
    } else {
      CutJoined(texts);
      if cnt > 1 {
        var more := texts[1..];
        assert forall i | 0 <= i < |more| :: more[i] == texts[i + 1];
        FieldsOfJoined(more, cnt - 1);
        TakenOn(texts, Arriving(|more|, cnt - 1));
      }
    }
  }

  lemma {:induction false} FirstField(texts: seq<seq<byte>>, cnt: int)
    requires texts != [] && Unquoted(texts[0]) && Fields(Joined(texts), cnt) == texts
    ensures 44 !in texts[0]
    ensures |texts| > 1 ==> cnt > 1 && Fields(Joined(texts[1..]), cnt - 1) == texts[1..]
  {
    var s := Joined(texts);
    var n := FirstComma(s);
    BareComma(s);
    IndexOfFirst(s, 44);
    assert texts[0] == s[..n];
    assert forall i | 0 <= i < n :: s[..n][i] == s[i];
    if |texts| > 1 {
      assert s == texts[0] + [44] + Joined(texts[1..]);
      assert s[n + 1..] == Joined(texts[1..]);
      var f := Fields(s[n + 1..], cnt - 1);
      assert texts == [s[..n]] + f;
      assert ([s[..n]] + f)[1..] == f;
    }
  }

  lemma {:induction false} NoCommas(texts: seq<seq<byte>>, cnt: int)
    requires texts != [] && (forall i | 0 <= i < |texts| :: Unquoted(texts[i]))
    requires Fields(Joined(texts), cnt) == texts
    ensures forall i | 0 <= i < |texts| :: 44 !in texts[i]
  {
    FirstField(texts, cnt);
    if |texts| > 1 {
      var more := texts[1..];
      assert forall i | 0 <= i < |more| :: more[i] == texts[i + 1];
      NoCommas(more, cnt - 1);
      assert forall i | 0 < i < |texts| :: texts[i] == more[i - 1];
    }
  }

  /** A list of texts without a quote in front splits back into itself exactly when no text
      holds a comma and the command takes that many. */
  lemma {:induction false} BareRoundTrip(texts: seq<seq<byte>>, cnt: int)
    requires texts != [] && forall i | 0 <= i < |texts| :: Unquoted(texts[i])
    ensures Fields(Joined(texts), cnt) == texts
       <==> (forall i | 0 <= i < |texts| :: 44 !in texts[i]) && (|texts| == 1 || |texts| <= cnt)
  {
    if (forall i | 0 <= i < |texts| :: 44 !in texts[i]) && (|texts| == 1 || |texts| <= cnt) {
      FieldsOfJoined(texts, cnt);
      assert texts[..|texts|] == texts;
    }
    if Fields(Joined(texts), cnt) == texts {
      FieldsCount(Joined(texts), cnt);
      NoCommas(texts, cnt);
    }
  }

  // ----- What the values mean -----

  /** Blanks around a text go, and nothing else. */
  lemma {:induction false} TrimMeans(a: nat, s: seq<byte>, b: nat)
    requires s != [] ==> s[0] != 32 && s[|s| - 1] != 32
    ensures Trim(Fill(32, a) + s + Fill(32, b)) == s
  {
    var t := s + Fill(32, b);
    Associate(Fill(32, a), s, Fill(32, b));
    TrimLeftMeans(a, t);
    if s == [] {
      assert t == Fill(32, b) == Fill(32, b) + [];
      TrimLeftMeans(b, []);
    } else {
      assert TrimLeft(t) == t;
      TrimRightMeans(s, b);
    }
  }

  lemma {:induction false} TrimLeftMeans(a: nat, t: seq<byte>)
    ensures TrimLeft(Fill(32, a) + t) == TrimLeft(t)
  {
    if a == 0 {
      assert Fill(32, 0) + t == t;
    } else {
      assert (Fill(32, a) + t)[1..] == Fill(32, a - 1) + t;
      TrimLeftMeans(a - 1, t);
    }
  }

  lemma {:induction false} TrimRightMeans(s: seq<byte>, b: nat)
    requires s != [] && s[|s| - 1] != 32
    ensures TrimRight(s + Fill(32, b)) == s
  {
    var t := s + Fill(32, b);
    if b == 0 {
      assert t == s;
    } else {
      assert t[..|t| - 1] == s + Fill(32, b - 1);
      TrimRightMeans(s, b - 1);
    }
  }

  /** A text with some of its bytes escaped, among them every backslash. */
  function Spelled(s: seq<byte>, escaped: seq<bool>): seq<byte>
    requires |s| == |escaped|
  {
    if s == [] then [] else (if escaped[0] then [92, s[0]] else [s[0]]) + Spelled(s[1..], escaped[1..])
  }

  /** Whichever bytes are escaped, the text comes back; an escaped byte stands for itself. */
  lemma {:induction false} UnescapeSpelled(s: seq<byte>, escaped: seq<bool>)
    requires |s| == |escaped| && forall i | 0 <= i < |s| && s[i] == 92 :: escaped[i]
    ensures Unescape(Spelled(s, escaped)) == s
  {
    if s != [] {
      var rest := Spelled(s[1..], escaped[1..]);
      UnescapeSpelled(s[1..], escaped[1..]);
      if escaped[0] {
        assert ([92, s[0]] + rest)[2..] == rest;
      } else {
        assert ([s[0]] + rest)[1..] == rest;
      }
      assert [s[0]] + s[1..] == s;
    }
  }

  predicate Digits(d: seq<byte>) {
    d != [] && forall i | 0 <= i < |d| :: 48 <= d[i] <= 57
  }

  /** Decimal digits, at least one, behind a minus sign or none. */
  predicate Numeral(s: seq<byte>) {
    if s != [] && s[0] == 45 then Digits(s[1..]) else Digits(s)
  }

  /** A number between blanks is refused exactly when it is none; blanks alone are no refusal. */
  lemma {:induction false} RefusedExactly(a: nat, s: seq<byte>, b: nat)
    requires s != [] ==> s[0] != 32 && s[|s| - 1] != 32
    ensures var field := Fill(32, a) + s + Fill(32, b);
      Trim(field) != [] && StrToDec(Trim(field)).None? <==> s != [] && !Numeral(s)
  {
    TrimMeans(a, s, b);
    var d := if s != [] && s[0] == 45 then s[1..] else s;
    assert Decimals.IsDigits(d) <==> Digits(d);
  }

  /** Zeros in front make no difference to a number. */
  lemma {:induction false} ZerosInFront(n: nat, d: seq<byte>)
    requires forall i | 0 <= i < |d| :: 48 <= d[i] <= 57
    ensures Decimals.Value(Fill(48, n) + d) == Decimals.Value(d)
    decreases |d| + n
  {
    var s := Fill(48, n) + d;
    if d != [] {
      ZerosInFront(n, d[..|d| - 1]);
      assert s[..|s| - 1] == Fill(48, n) + d[..|d| - 1];
    } else if n > 0 {
      ZerosInFront(n - 1, []);
      assert s[..|s| - 1] == Fill(48, n - 1) + [];
    }
  }

  // ----- Arguments of all kinds -----

  /** What is typed for one parameter. */
  datatype Arg = Str(text: seq<byte>) | Bare(text: seq<byte>) | Num(value: int)

  function Shown(a: Arg): seq<byte> {
    match a
    case Str(s) => Quoted(s)
    case Bare(s) => s
    case Num(v) => Decimals.Signed(v)
  }

  function ShownAll(given: seq<Arg>): seq<seq<byte>> {
    seq(|given|, i requires 0 <= i < |given| => Shown(given[i]))
  }

  /** A string fits the 8-bit length, and ends in a backslash only as the last; a bare text
      has no comma in it and no quote in front of all but blanks. */
  predicate Sound(a: Arg, last: bool) {
    match a
    case Str(s) => |Quoted(s)| <= 256 && (last || !EndsInBackslash(s))
    case Bare(s) => 44 !in s && Unquoted(s) && Unquoted(Trim(s))
    case Num(_) => true
  }

  predicate AllSound(given: seq<Arg>) {
    forall i | 0 <= i < |given| :: Sound(given[i], i == |given| - 1)
  }

  lemma {:induction false} SignedText(v: int)
    ensures Numeral(Decimals.Signed(v)) && StrToDec(Decimals.Signed(v)) == Some(ToI32(v))
    ensures Trim(Decimals.Signed(v)) == Decimals.Signed(v) && 44 !in Decimals.Signed(v)
    ensures Unquoted(Decimals.Signed(v))
  {
    SignedReads(v);
    var s := Decimals.Signed(v);
    var n := if v < 0 then -v else v;
    Decimals.DecimalValue(n);
    assert v < 0 ==> s[1..] == Decimals.Decimal(n);
    assert forall i | 0 <= i < |s| :: s[i] == 45 || 48 <= s[i] <= 57;
    TrimQuoted(s);
  }

  lemma {:induction false} SoundWhole(a: Arg, last: bool)
    requires Sound(a, last)
    ensures Whole(Shown(a)) && (!last ==> Separable(Shown(a)))
  {
    if a.Num? {
      SignedText(a.value);
    }
  }

  /** Typed arguments, separated by commas, are the fields of the text, as many as the command takes. */
  lemma {:induction false} FieldsOfGiven(given: seq<Arg>, cnt: int)
    requires given != [] && AllSound(given)
    ensures Fields(Joined(ShownAll(given)), cnt) == ShownAll(given)[..Arriving(|given|, cnt)]
  {
    var texts := ShownAll(given);
    forall i | 0 <= i < |texts| ensures Whole(texts[i]) && (i < |texts| - 1 ==> Separable(texts[i])) {
      SoundWhole(given[i], i == |given| - 1);
    }
    FieldsOfJoined(texts, cnt);
  }

  /** Printed numbers arrive as those numbers, as many as the command takes, exactly those
      that fit a signed 32-bit variable. */
  lemma {:induction false} NumbersArrive(vs: seq<int>, cnt: int, i: nat)
    requires i < |vs|
    ensures var texts := seq(|vs|, k requires 0 <= k < |vs| => Decimals.Signed(vs[k]));
      var fields := Fields(Joined(texts), cnt);
      && |fields| == (if cnt > |vs| then |vs| else if cnt < 1 then 1 else cnt)
      && (i < |fields| ==>
            (StrToDec(Trim(fields[i])) == Some(vs[i]) <==> -0x8000_0000 <= vs[i] < 0x8000_0000))
  {
    var given := seq(|vs|, k requires 0 <= k < |vs| => Num(vs[k]));
    var texts := seq(|vs|, k requires 0 <= k < |vs| => Decimals.Signed(vs[k]));
    assert ShownAll(given) == texts;
    FieldsOfGiven(given, cnt);
    SignedText(vs[i]);
    ToI32Range(vs[i]);
  }
}
