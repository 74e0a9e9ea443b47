/**
 What the two image tools share: little-endian fields, the image header, and a
 binary file that is written by seeking.
 */
module ImageFile {
  import opened Bits
  import opened Bytes

  const MAGIC_NO: nat := 0xA0FFFF9F
  const HEADER_LEN: nat := 56

  type u32 = x: int | 0 <= x < U32

  datatype Error = WrongMagic | StructError | ValueError
  datatype Result<T> = Ok(value: T) | Err(error: Error)

  // ----- Fields -----

  /** struct.pack of a little-endian number n bytes wide. */
  function Pack(v: nat, n: nat): (b: seq<byte>)
    ensures |b| == n
  {
    if n == 0 then [] else [v % 256] + Pack(v / 256, n - 1)
  }

  function Unpack(b: seq<byte>): nat {
    if b == [] then 0 else b[0] + 256 * Unpack(b[1..])
  }

  lemma {:induction false} Quarter(v: nat, n: nat)
    requires n > 0 && v < Pow2(8 * n)
    ensures v / 256 < Pow2(8 * (n - 1))
  {
    Pow2Split(8, 8 * n);
    assert Pow2(8) == 256;
  }

  lemma {:induction false} UnpackPack(v: nat, n: nat)
    requires v < Pow2(8 * n)
    ensures Unpack(Pack(v, n)) == v
  {
    if n > 0 {
      Quarter(v, n);
      UnpackPack(v / 256, n - 1);
      assert Pack(v, n)[1..] == Pack(v / 256, n - 1);
    }
  }

  predicate Fits(values: seq<int>, widths: seq<nat>) {
    |values| == |widths| && forall i | 0 <= i < |values| :: 0 <= values[i] < Pow2(8 * widths[i])
  }

  function Sum(widths: seq<nat>): nat {
    if widths == [] then 0 else widths[0] + Sum(widths[1..])
  }

  /** The fields behind one another. */
  function PackAll(values: seq<int>, widths: seq<nat>): (b: seq<byte>)
    requires Fits(values, widths)
    ensures |b| == Sum(widths)
  {
    if values == [] then [] else Pack(values[0], widths[0]) + PackAll(values[1..], widths[1..])
  }

  function UnpackAll(b: seq<byte>, widths: seq<nat>): (values: seq<int>)
    requires Sum(widths) <= |b|
    ensures |values| == |widths|
  {
    if widths == [] then [] else [Unpack(b[..widths[0]])] + UnpackAll(b[widths[0]..], widths[1..])
  }

  lemma {:induction false} Cut(a: seq<byte>, b: seq<byte>)
    ensures (a + b)[..|a|] == a && (a + b)[|a|..] == b
  {
  }

  /** Every field reads back as it was written, whatever follows. */
  lemma {:induction false} UnpackAllPackAll(values: seq<int>, widths: seq<nat>, rest: seq<byte>)
    requires Fits(values, widths)
    ensures UnpackAll(PackAll(values, widths) + rest, widths) == values
  {
    if values != [] {
      var first, more := Pack(values[0], widths[0]), PackAll(values[1..], widths[1..]);
      UnpackPack(values[0], widths[0]);
      UnpackAllPackAll(values[1..], widths[1..], rest);
      Associate(first, more, rest);
      Cut(first, more + rest);
    }
  }

  /** The field at a place, and those behind it. */
  lemma {:induction false} UnpackNext(b: seq<byte>, at: nat, w: nat, more: seq<nat>)
    requires at + w + Sum(more) <= |b|
    ensures Sum([w] + more) == w + Sum(more)
    ensures UnpackAll(b[at..], [w] + more) == [Unpack(b[at..at + w])] + UnpackAll(b[at + w..], more)
  {
    assert ([w] + more)[1..] == more;
    assert b[at..][..w] == b[at..at + w] && b[at..][w..] == b[at + w..];
  }

  // ----- The image header -----

  /** The numbers of the header, in order; the version and the checksum of all this follow. */
  datatype Header = Header(
    imgType: int, zipType: int, runImgAddr: int, runImgLen: int, runOrgChecksum: int,
    updImgAddr: int, updImgLen: int, updChecksum: int, ver: seq<byte>)

  const WIDTHS: seq<nat> := [4, 2, 2, 4, 4, 4, 4, 4, 4, 4]

  function Values(h: Header): (v: seq<int>)
    ensures |v| == |WIDTHS|
  {
    [MAGIC_NO, h.imgType, h.zipType, h.runImgAddr, h.runImgLen, h.runOrgChecksum, h.updImgAddr, h.updImgLen,
     h.updChecksum, 0]
  }

  predicate InRange(h: Header) {
    && 0 <= h.imgType < 0x10000 && 0 <= h.zipType < 0x10000
    && 0 <= h.runImgAddr < U32 && 0 <= h.runImgLen < U32 && 0 <= h.runOrgChecksum < U32
    && 0 <= h.updImgAddr < U32 && 0 <= h.updImgLen < U32 && 0 <= h.updChecksum < U32
  }

  lemma {:induction false} WidthsHold()
    ensures Pow2(8 * 2) == 0x10000 && Pow2(8 * 4) == U32
  {
    U32IsPow2();
    assert Pow2(8) == 256;
    Pow2Split(8, 16);
  }

  lemma {:induction false} LimitsAre(h: Header)
    ensures Fits(Values(h), WIDTHS)
       <==> forall i | 0 <= i < |WIDTHS| :: 0 <= Values(h)[i] < if i == 1 || i == 2 then 0x10000 else U32
  {
    WidthsHold();
    var v, w := Values(h), WIDTHS;
    assert forall i | 0 <= i < |w| :: Pow2(8 * w[i]) == if i == 1 || i == 2 then 0x10000 else U32;
  }

  /** struct.pack takes the header's numbers exactly when each is in range. */
  lemma {:induction false} FieldsFit(h: Header)
    ensures Fits(Values(h), WIDTHS) <==> InRange(h)
  {
    LimitsAre(h);
    var v := Values(h);
    assert v[1] == h.imgType && v[2] == h.zipType && v[3] == h.runImgAddr && v[4] == h.runImgLen;
    assert v[5] == h.runOrgChecksum && v[6] == h.updImgAddr && v[7] == h.updImgLen && v[8] == h.updChecksum;
  }

  lemma {:induction false} WidthsSum()
    ensures Sum(WIDTHS) == 36
  {
    assert WIDTHS[1..] == [2, 2, 4, 4, 4, 4, 4, 4, 4];
    assert WIDTHS[1..][1..] == [2, 4, 4, 4, 4, 4, 4, 4];
    assert Sum([4, 4, 4, 4]) == 16;
    assert [4, 4, 4, 4, 4, 4, 4][1..] == [4, 4, 4, 4, 4, 4];
    assert [4, 4, 4, 4, 4, 4][1..] == [4, 4, 4, 4, 4];
    assert [4, 4, 4, 4, 4][1..] == [4, 4, 4, 4];
  }

  const LAST_FOUR: seq<nat> := [4, 4, 4, 4]
  const LAST_SEVEN: seq<nat> := [4, 4, 4, 4, 4, 4, 4]

  lemma {:induction false} LastFour(b: seq<byte>)
    requires |b| >= 36
    ensures Sum(LAST_FOUR) == 16
    ensures UnpackAll(b[20..], LAST_FOUR)
         == [Unpack(b[20..24]), Unpack(b[24..28]), Unpack(b[28..32]), Unpack(b[32..36])]
  {
    UnpackNext(b, 32, 4, []);
    UnpackNext(b, 28, 4, [4]);
    UnpackNext(b, 24, 4, [4, 4]);
    UnpackNext(b, 20, 4, [4, 4, 4]);
  }

  lemma {:induction false} LastSeven(b: seq<byte>)
    requires |b| >= 36
    ensures Sum(LAST_SEVEN) == 28
    ensures var s := UnpackAll(b[8..], LAST_SEVEN);
      && s[0] == Unpack(b[8..12]) && s[1] == Unpack(b[12..16]) && s[2] == Unpack(b[16..20])
      && s[3..] == UnpackAll(b[20..], LAST_FOUR)
  {
    LastFour(b);
    var w := [4] + LAST_FOUR;
    UnpackNext(b, 16, 4, LAST_FOUR);
    UnpackNext(b, 12, 4, w);
    UnpackNext(b, 8, 4, [4] + w);
    assert [4] + ([4] + w) == LAST_SEVEN;
  }

  lemma {:induction false} WidthsAre()
    ensures [4] + ([2] + ([2] + LAST_SEVEN)) == WIDTHS
  {
  }

  lemma {:induction false} FirstThree(b: seq<byte>)
    requires |b| >= 36
    ensures Sum(WIDTHS) == 36 && Sum(LAST_SEVEN) == 28
    ensures var v := UnpackAll(b, WIDTHS);
      && v[0] == Unpack(b[0..4]) && v[1] == Unpack(b[4..6]) && v[2] == Unpack(b[6..8])
      && v[3..] == UnpackAll(b[8..], LAST_SEVEN)
  {
    LastSeven(b);
    var w := [2] + LAST_SEVEN;
    UnpackNext(b, 6, 2, LAST_SEVEN);
    UnpackNext(b, 4, 2, w);
    UnpackNext(b, 0, 4, [2] + w);
    WidthsAre();
    assert b[0..] == b;
  }

  /** The numbers of the header by the bytes they lie in. */
  lemma {:induction false} NumbersAre(b: seq<byte>)
    requires |b| >= 36
    ensures Sum(WIDTHS) == 36
    ensures var v := UnpackAll(b, WIDTHS);
      && v[0] == Unpack(b[0..4]) && v[1] == Unpack(b[4..6]) && v[2] == Unpack(b[6..8]) && v[3] == Unpack(b[8..12])
      && v[4] == Unpack(b[12..16]) && v[5] == Unpack(b[16..20]) && v[6] == Unpack(b[20..24])
      && v[7] == Unpack(b[24..28]) && v[8] == Unpack(b[28..32]) && v[9] == Unpack(b[32..36])
  {
    FirstThree(b);
    LastSeven(b);
    LastFour(b);
    var v, s := UnpackAll(b, WIDTHS), UnpackAll(b[8..], LAST_SEVEN);
    assert v[3] == s[0] && v[4] == s[1] && v[5] == s[2];
    assert v[6] == s[3] && v[7] == s[4] && v[8] == s[5] && v[9] == s[6];
    assert s[3] == s[3..][0] && s[4] == s[3..][1] && s[5] == s[3..][2] && s[6] == s[3..][3];
  }

  /** crc32(data) ^ 0xFFFFFFFF, whatever crc32 computes. */
  function Checksum(crc32: seq<byte> -> u32, data: seq<byte>): u32 {
    0xFFFFFFFF - crc32(data)
  }

  /** The header without its own checksum. */
  function Body(h: Header): (b: seq<byte>)
    requires Fits(Values(h), WIDTHS)
    ensures |b| == 36 + |h.ver|
  {
    WidthsSum();
    PackAll(Values(h), WIDTHS) + h.ver
  }

  function HeaderBytes(h: Header, crc32: seq<byte> -> u32): (b: seq<byte>)
    requires Fits(Values(h), WIDTHS)
    ensures |b| == 40 + |h.ver|
  {
    Body(h) + Pack(Checksum(crc32, Body(h)), 4)
  }

  /** The header a loader finds at the start of b, with a version of 16 bytes. */
  function ReadHeader(b: seq<byte>): Header
    requires |b| >= HEADER_LEN
  {
    WidthsSum();
    var v := UnpackAll(b, WIDTHS);
    Header(v[1], v[2], v[3], v[4], v[5], v[6], v[7], v[8], b[36..52])
  }

  lemma {:induction false} HeaderTail(h: Header, crc32: seq<byte> -> u32, rest: seq<byte>)
    requires Fits(Values(h), WIDTHS)
    ensures HeaderBytes(h, crc32) + rest
         == PackAll(Values(h), WIDTHS) + (h.ver + Pack(Checksum(crc32, Body(h)), 4) + rest)
  {
    var numbers, check := PackAll(Values(h), WIDTHS), Pack(Checksum(crc32, Body(h)), 4);
    Associate(numbers, h.ver, check);
    Associate(numbers, h.ver + check, rest);
  }

  lemma {:induction false} HeaderParts(h: Header, crc32: seq<byte> -> u32, rest: seq<byte>)
    requires Fits(Values(h), WIDTHS) && |h.ver| == 16
    ensures var b := HeaderBytes(h, crc32) + rest;
      b[36..52] == h.ver && b[..52] == Body(h) && b[52..56] == Pack(Checksum(crc32, Body(h)), 4)
  {
    WidthsSum();
  }

  lemma {:induction false} FirstField(b: seq<byte>)
    requires |b| >= 36
    ensures Sum(WIDTHS) == 36 && UnpackAll(b, WIDTHS)[0] == Unpack(b[..4])
  {
    WidthsSum();
  }

  /** The numbers read back, the magic number first, whatever the length of the version. */
  lemma {:induction false} NumbersReadBack(h: Header, crc32: seq<byte> -> u32, rest: seq<byte>)
    requires Fits(Values(h), WIDTHS)
    ensures var b := HeaderBytes(h, crc32) + rest;
      Sum(WIDTHS) == 36 && UnpackAll(b, WIDTHS) == Values(h) && Unpack(b[..4]) == MAGIC_NO
  {
    WidthsSum();
    HeaderTail(h, crc32, rest);
    UnpackAllPackAll(Values(h), WIDTHS, h.ver + Pack(Checksum(crc32, Body(h)), 4) + rest);
    FirstField(HeaderBytes(h, crc32) + rest);
  }

  lemma {:induction false} ComplementReads(crc32: seq<byte> -> u32, data: seq<byte>)
    ensures Unpack(Pack(Checksum(crc32, data), 4)) + crc32(data) == 0xFFFFFFFF
  {
    U32IsPow2();
    UnpackPack(Checksum(crc32, data), 4);
  }

  /** It finds what was written, with the magic number in front and behind it the complement
      of the CRC of it all. */
  lemma {:induction false} HeaderReadsBack(h: Header, crc32: seq<byte> -> u32, rest: seq<byte>)
    requires Fits(Values(h), WIDTHS) && |h.ver| == 16
    ensures var b := HeaderBytes(h, crc32) + rest;
      && ReadHeader(b) == h
      && Unpack(b[..4]) == 0xA0FFFF9F
      && Unpack(b[52..56]) + crc32(b[..52]) == 0xFFFFFFFF
  {
    HeaderParts(h, crc32, rest);
    NumbersReadBack(h, crc32, rest);
    ComplementReads(crc32, Body(h));
  }

  lemma {:induction false} PartsAnywhere(numbers: seq<byte>, ver: seq<byte>, check: seq<byte>, rest: seq<byte>)
    ensures var b, n := numbers + ver + check + rest, |numbers| + |ver|;
      b[|numbers|..n] == ver && b[..n] == numbers + ver && b[n..n + |check|] == check
  {
  }

  lemma {:induction false} VersionInPlace(h: Header, crc32: seq<byte> -> u32, rest: seq<byte>)
    requires Fits(Values(h), WIDTHS)
    ensures var b, n := HeaderBytes(h, crc32) + rest, 36 + |h.ver|;
      b[36..n] == h.ver && Unpack(b[n..n + 4]) + crc32(b[..n]) == 0xFFFFFFFF
  {
    WidthsSum();
    PartsAnywhere(PackAll(Values(h), WIDTHS), h.ver, Pack(Checksum(crc32, Body(h)), 4), rest);
    ComplementReads(crc32, Body(h));
  }

  /** Where the header's parts lie, whatever the length of the version: little-endian numbers at fixed
      places, the version, and the complement of the CRC of all that. */
  lemma {:induction false} HeaderInPlace(h: Header, crc32: seq<byte> -> u32, rest: seq<byte>)
    requires Fits(Values(h), WIDTHS)
    ensures var b, n := HeaderBytes(h, crc32) + rest, 36 + |h.ver|;
      && Unpack(b[0..4]) == 0xA0FFFF9F
      && Unpack(b[4..6]) == h.imgType && Unpack(b[6..8]) == h.zipType
      && Unpack(b[8..12]) == h.runImgAddr && Unpack(b[12..16]) == h.runImgLen
      && Unpack(b[16..20]) == h.runOrgChecksum
      && Unpack(b[20..24]) == h.updImgAddr && Unpack(b[24..28]) == h.updImgLen
      && Unpack(b[28..32]) == h.updChecksum && Unpack(b[32..36]) == 0
      && b[36..n] == h.ver && Unpack(b[n..n + 4]) + crc32(b[..n]) == 0xFFFFFFFF
  {
    var b := HeaderBytes(h, crc32) + rest;
    NumbersReadBack(h, crc32, rest);
    NumbersAre(b);
    VersionInPlace(h, crc32, rest);
  }

  // ----- Files -----

  /** A write of data at a position: it overwrites, and behind the end it leaves zeros. */
  function Written(content: seq<byte>, pos: nat, data: seq<byte>): (r: seq<byte>)
    ensures data != [] ==> |r| == if |content| < pos + |data| then pos + |data| else |content|
    ensures data == [] ==> r == content
  {
    if data == [] then content
    else
      var padded := if |content| < pos then content + Fill(0, pos - |content|) else content;
      padded[..pos] + data + if |padded| > pos + |data| then padded[pos + |data|..] else []
  }

  lemma {:induction false} WrittenAt(content: seq<byte>, pos: nat, data: seq<byte>, i: nat)
    requires i < |Written(content, pos, data)|
    ensures Written(content, pos, data)[i]
         == if pos <= i < pos + |data| then data[i - pos] else if i < |content| then content[i] else 0
  {
  }

  class PyFile {
    var content: seq<byte>
    var pos: nat

    constructor (content: seq<byte>)
      ensures this.content == content && pos == 0
    {
      this.content := content;
      pos := 0;
    }

    method Seek(to: nat)
      modifies this`pos
      ensures pos == to
    {
      pos := to;
    }

    method Write(data: seq<byte>)
      modifies this
      ensures content == Written(old(content), old(pos), data) && pos == old(pos) + |data|
    {
      if data != [] {
        if |content| < pos {
          content := content + Fill(0, pos - |content|);
        }
        content := content[..pos] + data + if |content| > pos + |data| then content[pos + |data|..] else [];
      }
      pos := pos + |data|;
    }

    /** Up to n bytes from the position. */
    method Read(n: nat) returns (data: seq<byte>)
      modifies this`pos
      ensures data == From(content, old(pos))[..Min(n, |From(content, old(pos))|)] && pos == old(pos) + |data|
    {
      var left := From(content, pos);
      data := left[..Min(n, |left|)];
      pos := pos + |data|;
    }

    method ReadAll() returns (data: seq<byte>)
      modifies this`pos
      ensures data == From(content, old(pos)) && pos == old(pos) + |data|
    {
      data := From(content, pos);
      pos := pos + |data|;
    }
  }

  function From(b: seq<byte>, pos: nat): seq<byte> {
    if pos <= |b| then b[pos..] else []
  }
}
