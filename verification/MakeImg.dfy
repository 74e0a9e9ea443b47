/**
 The tool that puts the image header in front of a binary: it counts the
 version up, describes the binary and pads it to whole words.
 */
module MakeImg {
  import opened Bits
  import opened Bytes
  import opened Decimals
  import opened ImageFile

  const DOT: byte := 46
  const PLUS: byte := 43
  const VERSION_LEN: nat := 16

  // ----- Numbers in text -----

  predicate IsSpace(c: byte) {
    c == 32 || 9 <= c <= 13 || 28 <= c <= 31
  }

  function StripLeft(s: seq<byte>): seq<byte> {
    if s != [] && IsSpace(s[0]) then StripLeft(s[1..]) else s
  }

  function StripRight(s: seq<byte>): seq<byte> {
    if s != [] && IsSpace(s[|s| - 1]) then StripRight(s[..|s| - 1]) else s
  }

  /** int() of a text: decimal digits, a sign in front, blanks around. */
  function ToInt(s: seq<byte>): Option<int> {
    var t := StripRight(StripLeft(s));
    if IsDigits(t) then Some(Value(t))
    else if t != [] && t[0] == MINUS && IsDigits(t[1..]) then Some(-(Value(t[1..]) as int))
    else if t != [] && t[0] == PLUS && IsDigits(t[1..]) then Some(Value(t[1..]))
    else None
  }

  /** '{:0>2d}': at least two characters, zeros in front. */
  function Format2(v: int): (s: seq<byte>)
    ensures |s| >= 2
  {
    var d := Signed(v);
    if |d| < 2 then [ZERO] + d else d
  }

  lemma {:induction false} LeadingZero(s: seq<byte>)
    requires IsDigits(s)
    ensures IsDigits([ZERO] + s) && Value([ZERO] + s) == Value(s)
  {
    var t := [ZERO] + s;
    assert t[..|t| - 1] == [ZERO] + s[..|s| - 1];
    if |s| > 1 {
      LeadingZero(s[..|s| - 1]);
    } else {
      assert t[..1][..0] == [];
    }
  }

  lemma {:induction false} Unstripped(s: seq<byte>)
    requires s != [] && !IsSpace(s[0]) && !IsSpace(s[|s| - 1])
    ensures StripRight(StripLeft(s)) == s
  {
  }

  lemma {:induction false} ReadsDigits(d: seq<byte>)
    requires IsDigits(d)
    ensures ToInt(d) == Some(Value(d))
    ensures ToInt([MINUS] + d) == Some(-(Value(d) as int))
  {
    var m := [MINUS] + d;
    Unstripped(d);
    assert m[|m| - 1] == d[|d| - 1];
    Unstripped(m);
    assert m[0] == MINUS && m[1..] == d;
  }

  predicate Blanks(s: seq<byte>) {
    forall i | 0 <= i < |s| :: s[i] == 32 || 9 <= s[i] <= 13 || 28 <= s[i] <= 31
  }

  lemma {:induction false} StripsLeft(pre: seq<byte>, s: seq<byte>)
    requires Blanks(pre) && (s != [] ==> !Blanks(s[..1]))
    ensures StripLeft(pre + s) == s
  {
    if pre == [] {
      assert pre + s == s;
      assert s != [] ==> s[..1][0] == s[0];
    } else {
      assert (pre + s)[1..] == pre[1..] + s;
      StripsLeft(pre[1..], s);
    }
  }

  lemma {:induction false} StripsRight(s: seq<byte>, post: seq<byte>)
    requires Blanks(post) && (s != [] ==> !Blanks(s[|s| - 1..]))
    ensures StripRight(s + post) == s
  {
    var t := s + post;
    if post == [] {
      assert t == s;
      assert s != [] ==> s[|s| - 1..][0] == s[|s| - 1];
    } else {
      assert t[..|t| - 1] == s + post[..|post| - 1];
      StripsRight(s, post[..|post| - 1]);
    }
  }

  /** Digits behind a sign or none, between blanks, are a number, and nothing else is. */
  lemma {:induction false} IntMeans(pre: seq<byte>, s: seq<byte>, post: seq<byte>)
    requires Blanks(pre) && Blanks(post) && s != [] && !Blanks(s[..1]) && !Blanks(s[|s| - 1..])
    ensures var d := if s[0] == 43 || s[0] == 45 then s[1..] else s;
      && (ToInt(pre + s + post).Some? <==> IsDigits(d))
      && (IsDigits(d) ==> ToInt(pre + s + post) == Some(if s[0] == 45 then -(Value(d) as int) else Value(d)))
  {
    Associate(pre, s, post);
    assert (s + post)[..1] == s[..1];
    StripsLeft(pre, s + post);
    StripsRight(s, post);
    assert !IsDigits(s) <== s[0] == 43 || s[0] == 45;
  }

  predicate NoDot(s: seq<byte>) {
    forall i | 0 <= i < |s| :: s[i] != DOT
  }

  /** A number printed this way is read as itself, a minus sign included. */
  lemma {:induction false} FormatReads(v: int)
    ensures ToInt(Format2(v)) == Some(v) && NoDot(Format2(v))
  {
    var d := Decimal(if v < 0 then -v else v);
    DecimalValue(if v < 0 then -v else v);
    ReadsDigits(d);
    LeadingZero(d);
    ReadsDigits([ZERO] + d);
  }

  /** Up to 99 it is two digits; any other number is printed without zeros in front. */
  lemma {:induction false} FormatIs(v: int)
    ensures 0 <= v <= 99 ==> Format2(v) == [48 + v / 10, 48 + v % 10]
    ensures v > 99 ==> Format2(v) == Decimal(v) && Format2(v)[0] != 48
    ensures v < 0 ==> Format2(v) == [45] + Decimal(-v) && Format2(v)[1] != 48
  {
    if v >= 10 {
      NoZeroInFront(v);
    } else if v < 0 {
      NoZeroInFront(-v);
    }
  }

  lemma {:induction false} NoZeroInFront(n: nat)
    requires n > 0
    ensures Decimal(n)[0] != 48
  {
    if n >= 10 {
      NoZeroInFront(n / 10);
    }
  }

  // ----- The version -----

  /** rfind of the dot: its last index, or -1. */
  function LastDot(s: seq<byte>): (p: int)
    ensures -1 <= p < |s|
    ensures p >= 0 ==> s[p] == DOT
  {
    if s == [] then -1 else if s[|s| - 1] == DOT then |s| - 1 else LastDot(s[..|s| - 1])
  }

  lemma {:induction false} LastDotMeans(s: seq<byte>, p: nat)
    requires p < |s| && s[p] == DOT && forall i | p < i < |s| :: s[i] != DOT
    ensures LastDot(s) == p
  {
    if p < |s| - 1 {
      LastDotMeans(s[..|s| - 1], p);
    }
  }

  /** The number behind the last dot. */
  function NumberBehind(version: seq<byte>): Option<int>
    requires LastDot(version) >= 0
  {
    ToInt(version[LastDot(version) + 1..])
  }

  /** The text of the new version, when the old one has a dot and a number behind the last. */
  function Bumped(version: seq<byte>): Option<seq<byte>>
    requires LastDot(version) >= 0
  {
    match NumberBehind(version)
    case None => None
    case Some(n) => Some(version[..LastDot(version) + 1] + Format2(n + 1))
  }

  /** "1.0.01" */
  const FIRST_VERSION: seq<byte> := [49, 46, 48, 46, 48, 49]

  /** A text as 16 bytes: zeros behind it, or cut off for one. */
  function Fitted(t: seq<byte>): (f: seq<byte>)
    ensures |f| == VERSION_LEN
  {
    if |t| < VERSION_LEN then t + Fill(0, VERSION_LEN - |t|) else t[..VERSION_LEN - 1] + [0]
  }

  function NewVersion(version: seq<byte>): Result<seq<byte>> {
    if LastDot(version) == -1 then Ok(FIRST_VERSION)
    else
      match Bumped(version)
      case None => Err(ValueError)
      case Some(t) => Ok(Fitted(t))
  }

  /** The field holds as much of the text as fits before a NUL, always 16 bytes, unless the old version had no dot. */
  lemma {:induction false} VersionField(version: seq<byte>)
    requires NewVersion(version).Ok?
    ensures |NewVersion(version).value| == if LastDot(version) == -1 then 6 else 16
    ensures LastDot(version) == -1 ==> NewVersion(version).value == [49, 46, 48, 46, 48, 49]
    ensures LastDot(version) >= 0 ==>
      NewVersion(version).value == (Bumped(version).value + Fill(0, 16))[..15] + [0]
  {
  }

  lemma {:induction false} LastDotKept(q: seq<byte>, f: seq<byte>)
    requires q != [] && q[|q| - 1] == DOT && NoDot(f)
    ensures LastDot(q + f) == |q| - 1
  {
    forall i | |q| <= i < |q + f| ensures (q + f)[i] != DOT {
      assert (q + f)[i] == f[i - |q|];
    }
    LastDotMeans(q + f, |q| - 1);
  }

  /**
   Reading the new text as a version again, the number behind the last dot is one
   more than it was, and everything before it is unchanged.
   */
  lemma {:induction false} BumpAddsOne(version: seq<byte>, t: seq<byte>)
    requires LastDot(version) >= 0 && Bumped(version) == Some(t)
    ensures LastDot(t) == LastDot(version)
    ensures t[..LastDot(t) + 1] == version[..LastDot(version) + 1]
    ensures NumberBehind(version).Some? && NumberBehind(t) == Some(NumberBehind(version).value + 1)
  {
    BehindDot(version[..LastDot(version) + 1], NumberBehind(version).value + 1);
  }

  lemma {:induction false} BehindDot(q: seq<byte>, n: int)
    requires q != [] && q[|q| - 1] == DOT
    ensures var t := q + Format2(n); LastDot(t) == |q| - 1 && t[..|q|] == q && NumberBehind(t) == Some(n)
  {
    FormatReads(n);
    LastDotKept(q, Format2(n));
    Cut(q, Format2(n));
  }

  // ----- The image -----

  /** The numbers the tool is given on its command line. */
  datatype Options = Options(imgType: int, zipType: int, storeAddr: int, runAddr: int)

  /** bin is what is stored; for a compressed image, original is what it was made from. */
  function MakeHeader(ver: seq<byte>, o: Options, bin: seq<byte>, original: seq<byte>, crc32: seq<byte> -> u32)
    : Header
  {
    var run := if o.zipType == 0 then bin else original;
    Header(o.imgType, o.zipType, o.runAddr, |run|, Checksum(crc32, run), o.storeAddr, |bin|, Checksum(crc32, bin), ver)
  }

  function Padding(n: nat): nat {
    if n % 4 != 0 then 4 - n % 4 else 0
  }

  function Padded(bin: seq<byte>): seq<byte> {
    bin + Fill(0, Padding(|bin|))
  }

  function Image(version: seq<byte>, o: Options, bin: seq<byte>, original: seq<byte>, crc32: seq<byte> -> u32)
    : Result<seq<byte>>
  {
    match NewVersion(version)
    case Err(e) => Err(e)
    case Ok(ver) =>
      var h := MakeHeader(ver, o, bin, original, crc32);
      if Fits(Values(h), WIDTHS) then Ok(HeaderBytes(h, crc32) + Padded(bin)) else Err(StructError)
  }

  /** The padded binary is the binary and then as few zeros as make whole words. */
  lemma {:induction false} PaddedMeans(bin: seq<byte>)
    ensures |Padded(bin)| % 4 == 0 && |bin| <= |Padded(bin)| < |bin| + 4 && Padded(bin)[..|bin|] == bin
    ensures forall i | |bin| <= i < |Padded(bin)| :: Padded(bin)[i] == 0
  {
  }

  /**
   The binary starts where a loader expects it, behind 56 bytes, exactly when the
   version had a dot. Without one the header is ten bytes short.
   */
  lemma {:induction false} BodyPlace(version: seq<byte>, o: Options, bin: seq<byte>, original: seq<byte>,
                                     crc32: seq<byte> -> u32)
    ensures Image(version, o, bin, original, crc32).Ok? ==> var f := Image(version, o, bin, original, crc32).value;
      && |f| == |Padded(bin)| + (if LastDot(version) == -1 then HEADER_LEN - 10 else HEADER_LEN)
      && (|f| >= HEADER_LEN && f[HEADER_LEN..] == Padded(bin) <==> LastDot(version) >= 0)
  {
    if NewVersion(version).Ok? {
      VersionField(version);
    }
  }

  /** With a dot in the version the header reads back, and its checksum covers it. */
  lemma {:induction false} ImageReadsBack(version: seq<byte>, o: Options, bin: seq<byte>, original: seq<byte>,
                                          crc32: seq<byte> -> u32)
    requires LastDot(version) >= 0
    ensures Image(version, o, bin, original, crc32).Ok? ==> var f := Image(version, o, bin, original, crc32).value;
      && |f| >= HEADER_LEN
      && ReadHeader(f) == MakeHeader(NewVersion(version).value, o, bin, original, crc32)
      && f[HEADER_LEN..][..ReadHeader(f).updImgLen] == bin
      && Unpack(f[..4]) == 0xA0FFFF9F && Unpack(f[52..56]) + crc32(f[..52]) == 0xFFFFFFFF
  {
    if Image(version, o, bin, original, crc32).Ok? {
      VersionField(version);
      BodyPlace(version, o, bin, original, crc32);
      PaddedMeans(bin);
      HeaderReadsBack(MakeHeader(NewVersion(version).value, o, bin, original, crc32), crc32, Padded(bin));
    }
  }

  /**
   Where an image holds what the tool was given, with or without a dot in the version:
   the type of image and compression, where it runs and how long it is then, where
   it is stored and how long it is there, the complements of the CRCs of both forms, the
   version, and the complement of the CRC of all that.
   */
  lemma {:induction false} FieldsInPlace(version: seq<byte>, o: Options, bin: seq<byte>, original: seq<byte>,
                                         crc32: seq<byte> -> u32)
    ensures Image(version, o, bin, original, crc32).Ok? ==>
      var f, run := Image(version, o, bin, original, crc32).value, if o.zipType == 0 then bin else original;
      var ver := NewVersion(version).value; var n := 36 + |ver|;
      && |f| >= n + 4
      && Unpack(f[0..4]) == 0xA0FFFF9F
      && Unpack(f[4..6]) == o.imgType && Unpack(f[6..8]) == o.zipType
      && Unpack(f[8..12]) == o.runAddr && Unpack(f[12..16]) == |run| && Unpack(f[16..20]) + crc32(run) == 0xFFFFFFFF
      && Unpack(f[20..24]) == o.storeAddr && Unpack(f[24..28]) == |bin| && Unpack(f[28..32]) + crc32(bin) == 0xFFFFFFFF
      && Unpack(f[32..36]) == 0 && f[36..n] == ver && Unpack(f[n..n + 4]) + crc32(f[..n]) == 0xFFFFFFFF
  {
    if Image(version, o, bin, original, crc32).Ok? {
      HeaderInPlace(MakeHeader(NewVersion(version).value, o, bin, original, crc32), crc32, Padded(bin));
    }
  }

  /** Any image starts with the magic number, so that the tool for FLS files takes it. */
  lemma {:induction false} ImageHasMagic(version: seq<byte>, o: Options, bin: seq<byte>, original: seq<byte>,
                                         crc32: seq<byte> -> u32)
    ensures Image(version, o, bin, original, crc32).Ok? ==>
      var f := Image(version, o, bin, original, crc32).value; |f| >= 46 && Unpack(f[..4]) == MAGIC_NO
  {
    if Image(version, o, bin, original, crc32).Ok? {
      VersionField(version);
      NumbersReadBack(MakeHeader(NewVersion(version).value, o, bin, original, crc32), crc32, Padded(bin));
    }
  }

  lemma {:induction false} VersionRefused(version: seq<byte>)
    ensures NewVersion(version).Ok? <==> (LastDot(version) >= 0 ==> NumberBehind(version).Some?)
    ensures NewVersion(version).Err? ==> NewVersion(version).error == ValueError
  {
  }

  lemma {:induction false} HeaderInRange(ver: seq<byte>, o: Options, bin: seq<byte>, original: seq<byte>,
                                         crc32: seq<byte> -> u32)
    ensures InRange(MakeHeader(ver, o, bin, original, crc32))
       <==> && 0 <= o.imgType < 0x10000 && 0 <= o.zipType < 0x10000
            && 0 <= o.storeAddr < U32 && 0 <= o.runAddr < U32
            && |bin| < U32 && (o.zipType != 0 ==> |original| < U32)
  {
  }

  /** The tool stops exactly for a version without a number behind its last dot, or a number too large for its field. */
  lemma {:induction false} RefusedWhen(version: seq<byte>, o: Options, bin: seq<byte>, original: seq<byte>,
                                       crc32: seq<byte> -> u32)
    ensures Image(version, o, bin, original, crc32).Ok?
       <==> && (LastDot(version) >= 0 ==> NumberBehind(version).Some?)
            && 0 <= o.imgType < 0x10000 && 0 <= o.zipType < 0x10000
            && 0 <= o.storeAddr < U32 && 0 <= o.runAddr < U32
            && |bin| < U32 && (o.zipType != 0 ==> |original| < U32)
  {
    VersionRefused(version);
    match NewVersion(version)
    case Err(_) =>
    case Ok(ver) =>
      FieldsFit(MakeHeader(ver, o, bin, original, crc32));
      HeaderInRange(ver, o, bin, original, crc32);
  }

  // ----- The tool -----

  method Fit(t: seq<byte>) returns (f: seq<byte>)
    ensures f == Fitted(t)
  {
    f := t;
    if |f| < VERSION_LEN {
      f := f + Fill(0, VERSION_LEN - |f|);
    } else {
      f := f[..VERSION_LEN - 1] + [0];
    }
  }

  method CountUp(version: seq<byte>) returns (r: Result<seq<byte>>)
    ensures r == NewVersion(version)
  {
    var p := LastDot(version);
    if p == -1 {
      return Ok(FIRST_VERSION);
    }
    var ver := ToInt(version[p + 1..]);
    if ver == None {
      return Err(ValueError);
    }
    var newversion := Fit(version[..p + 1] + Format2(ver.value + 1));
    r := Ok(newversion);
  }

  lemma {:induction false} WrittenLast(content: seq<byte>, data: seq<byte>)
    ensures Written(content, |content|, data) == content + data
  {
  }

  method Append(f: PyFile, data: seq<byte>)
    requires f.pos == |f.content|
    modifies f
    ensures f.content == old(f.content) + data && f.pos == |f.content|
  {
    WrittenLast(f.content, data);
    f.Write(data);
  }

  /** The binary, and zeros up to a whole word. */
  method WriteBody(fImg: PyFile, bin: seq<byte>)
    requires fImg.pos == |fImg.content|
    modifies fImg
    ensures fImg.content == old(fImg.content) + Padded(bin)
  {
    ghost var head := fImg.content;
    Append(fImg, bin);
    var dummy := |bin| % 4;
    if dummy != 0 {
      dummy := 4 - |bin| % 4;
      Append(fImg, Fill(0, dummy));
    }
    Associate(head, bin, Fill(0, Padding(|bin|)));
  }

  method WriteImage(fImg: PyFile, h: Header, bin: seq<byte>, crc32: seq<byte> -> u32)
    requires fImg.content == [] && fImg.pos == 0 && Fits(Values(h), WIDTHS)
    modifies fImg
    ensures fImg.content == HeaderBytes(h, crc32) + Padded(bin)
  {
    var head, check := Body(h), Pack(Checksum(crc32, Body(h)), 4);
    Append(fImg, head);
    Append(fImg, check);
    assert fImg.content == HeaderBytes(h, crc32);
    WriteBody(fImg, bin);
  }

  /** The output file, opened empty, ends as specified, or the tool stops with the error specified. */
  method Make(version: seq<byte>, o: Options, fBin: PyFile, original: seq<byte>, fImg: PyFile, crc32: seq<byte> -> u32)
    returns (r: Result<()>)
    requires fBin != fImg && fBin.pos == fImg.pos == 0 && fImg.content == []
    modifies fBin`pos, fImg
    ensures Image(version, o, fBin.content, original, crc32) == if r.Ok? then Ok(fImg.content) else Err(r.error)
  {
    var ver := CountUp(version);
    if ver.Err? {
      return Err(ver.error);
    }
    var bin := fBin.ReadAll();
    var run := if o.zipType == 0 then bin else original;
    var h := Header(o.imgType, o.zipType, o.runAddr, |run|, Checksum(crc32, run), o.storeAddr, |bin|,
                    Checksum(crc32, bin), ver.value);
    assert h == MakeHeader(ver.value, o, bin, original, crc32);
    if !Fits(Values(h), WIDTHS) {
      return Err(StructError);
    }
    WriteImage(fImg, h, bin, crc32);
    r := Ok(());
  }
}
