/**
 The tool that joins the second boot image and the application image into one
 FLS file, by writing over a blank file at fixed places.
 */
module FlsImage {
  import opened Bits
  import opened Bytes
  import opened ImageFile
  import MakeImg

  const SECBOOT_HEADER_POS: nat := 0x2000
  const SECBOOT_TOTAL_LEN: nat := 56 * 1024
  const RUN_HEADER_LEN: nat := 0x100
  const BLANK: byte := 0xFF

  const SEC_HEADER: nat := HEADER_LEN
  const SEC_IMAGE: nat := HEADER_LEN + 256
  const APP_HEADER: nat := HEADER_LEN + SECBOOT_TOTAL_LEN
  const APP_IMAGE: nat := HEADER_LEN + SECBOOT_TOTAL_LEN + RUN_HEADER_LEN

  /** The largest second boot image that ends before the application's header. */
  const SEC_MAX: nat := HEADER_LEN + APP_HEADER - SEC_IMAGE
  /** The smallest application image that leaves no hole behind the blank file. */
  const APP_MIN: nat := HEADER_LEN + 256

  /** The header of an image, and what follows it. */
  function Head(image: seq<byte>): seq<byte> {
    image[..Min(HEADER_LEN, |image|)]
  }

  function Tail(image: seq<byte>): seq<byte> {
    image[Min(HEADER_LEN, |image|)..]
  }

  predicate HasMagic(image: seq<byte>) {
    |image| >= 4 && Unpack(image[..4]) == MAGIC_NO
  }

  /** The blank file with the second boot image written over it. */
  function WithSec(sec: seq<byte>, len: nat): seq<byte> {
    Written(Written(Fill(BLANK, len), SEC_HEADER, Head(sec)), SEC_IMAGE, Tail(sec))
  }

  /** The file before its own header is written. */
  function Laid(sec: seq<byte>, app: seq<byte>): seq<byte> {
    Written(Written(WithSec(sec, SECBOOT_TOTAL_LEN + |app|), APP_HEADER, Head(app)), APP_IMAGE, Tail(app))
  }

  function FlsHeader(laid: seq<byte>, crc32: seq<byte> -> u32): Header
    requires |laid| >= HEADER_LEN
  {
    Header(0, 0, SECBOOT_HEADER_POS, |laid[HEADER_LEN..]|, Checksum(crc32, laid[HEADER_LEN..]), 0, 0, 0, Fill(0, 16))
  }

  lemma {:induction false} LaidLength(sec: seq<byte>, app: seq<byte>)
    ensures |Laid(sec, app)| >= SECBOOT_TOTAL_LEN + |app|
  {
  }

  function CheckMagic(image: seq<byte>): Result<()> {
    if |image| < 4 then Err(StructError) else if Unpack(image[..4]) != MAGIC_NO then Err(WrongMagic) else Ok(())
  }

  function Fls(sec: seq<byte>, app: seq<byte>, crc32: seq<byte> -> u32): Result<seq<byte>> {
    if CheckMagic(sec).Err? then Err(CheckMagic(sec).error)
    else if CheckMagic(app).Err? then Err(CheckMagic(app).error)
    else
      LaidLength(sec, app);
      var laid := Laid(sec, app);
      var h := FlsHeader(laid, crc32);
      if Fits(Values(h), WIDTHS) then Ok(Written(laid, 0, HeaderBytes(h, crc32))) else Err(StructError)
  }

  // ----- Where every byte ends up -----

  lemma {:induction false} WithSecAt(sec: seq<byte>, len: nat, i: nat)
    requires len >= SECBOOT_TOTAL_LEN && i < |WithSec(sec, len)|
    ensures WithSec(sec, len)[i] ==
            if SEC_IMAGE <= i < SEC_IMAGE + |sec| - HEADER_LEN then sec[i - SEC_IMAGE + HEADER_LEN]
            else if SEC_HEADER <= i < SEC_HEADER + Min(HEADER_LEN, |sec|) then sec[i - SEC_HEADER]
            else BLANK
  {
    var f := Written(Fill(BLANK, len), SEC_HEADER, Head(sec));
    WrittenAt(f, SEC_IMAGE, Tail(sec), i);
    if i < |f| {
      WrittenAt(Fill(BLANK, len), SEC_HEADER, Head(sec), i);
    }
  }

  /** The application's two parts over a file. */
  lemma {:induction false} AppOver(f: seq<byte>, app: seq<byte>, i: nat)
    requires i < |Written(Written(f, APP_HEADER, Head(app)), APP_IMAGE, Tail(app))|
    ensures Written(Written(f, APP_HEADER, Head(app)), APP_IMAGE, Tail(app))[i] ==
            if APP_IMAGE <= i < APP_IMAGE + |app| - HEADER_LEN then app[i - APP_IMAGE + HEADER_LEN]
            else if APP_HEADER <= i < APP_HEADER + Min(HEADER_LEN, |app|) then app[i - APP_HEADER]
            else if i < |f| then f[i]
            else 0
  {
    WrittenAt(Written(f, APP_HEADER, Head(app)), APP_IMAGE, Tail(app), i);
    if i < |Written(f, APP_HEADER, Head(app))| {
      WrittenAt(f, APP_HEADER, Head(app), i);
    }
  }

  lemma {:induction false} LaidAt(sec: seq<byte>, app: seq<byte>, i: nat)
    requires i < |Laid(sec, app)|
    ensures Laid(sec, app)[i] ==
            if APP_IMAGE <= i < APP_IMAGE + |app| - HEADER_LEN then app[i - APP_IMAGE + HEADER_LEN]
            else if APP_HEADER <= i < APP_HEADER + Min(HEADER_LEN, |app|) then app[i - APP_HEADER]
            else if SEC_IMAGE <= i < SEC_IMAGE + |sec| - HEADER_LEN then sec[i - SEC_IMAGE + HEADER_LEN]
            else if SEC_HEADER <= i < SEC_HEADER + Min(HEADER_LEN, |sec|) then sec[i - SEC_HEADER]
            else if i < SECBOOT_TOTAL_LEN + |app| then BLANK
            else 0
  {
    var f := WithSec(sec, SECBOOT_TOTAL_LEN + |app|);
    AppOver(f, app, i);
    if i < |f| {
      WithSecAt(sec, SECBOOT_TOTAL_LEN + |app|, i);
    }
  }

  /** Where the application ends: right behind its header when there is nothing more of it. */
  function AppEnd(app: seq<byte>): nat {
    if |app| > HEADER_LEN then APP_IMAGE + |app| - HEADER_LEN else APP_HEADER + |app|
  }

  lemma {:induction false} LaidSize(sec: seq<byte>, app: seq<byte>)
    requires app != []
    ensures var secEnd := SEC_IMAGE + |Tail(sec)|;
      |Laid(sec, app)| == if secEnd > AppEnd(app) then secEnd else AppEnd(app)
  {
  }

  predicate Region(f: seq<byte>, at: nat, data: seq<byte>) {
    at + |data| <= |f| && f[at..at + |data|] == data
  }

  predicate Gap(f: seq<byte>, from: nat, to: nat) {
    from <= to <= |f| && forall i | from <= i < to :: f[i] == 0xFF
  }

  /** The layout the tool's own description promises: each part at its place, all else blank, nothing behind. */
  predicate IsLayout(f: seq<byte>, sec: seq<byte>, app: seq<byte>) {
    && Region(f, 56, Head(sec)) && Gap(f, 56 + |Head(sec)|, 312)
    && Region(f, 312, Tail(sec)) && Gap(f, 312 + |Tail(sec)|, 57400)
    && Region(f, 57400, Head(app)) && Gap(f, 57400 + |Head(app)|, 57656)
    && Region(f, 57656, Tail(app)) && |f| == 57656 + |Tail(app)|
  }

  lemma {:induction false} SecPlaced(sec: seq<byte>, app: seq<byte>)
    requires |sec| <= SEC_MAX && app != []
    ensures var f := Laid(sec, app);
      && Region(f, SEC_HEADER, Head(sec)) && Gap(f, SEC_HEADER + |Head(sec)|, SEC_IMAGE)
      && Region(f, SEC_IMAGE, Tail(sec))
      && (|app| > HEADER_LEN ==> Gap(f, SEC_IMAGE + |Tail(sec)|, APP_HEADER))
  {
    var f := Laid(sec, app);
    LaidSize(sec, app);
    forall i | SEC_HEADER <= i < APP_HEADER
      ensures i < SEC_HEADER + |Head(sec)| ==> f[i] == Head(sec)[i - SEC_HEADER]
      ensures SEC_HEADER + |Head(sec)| <= i < SEC_IMAGE ==> f[i] == BLANK
      ensures SEC_IMAGE <= i < SEC_IMAGE + |Tail(sec)| ==> f[i] == Tail(sec)[i - SEC_IMAGE]
      ensures SEC_IMAGE + |Tail(sec)| <= i && |app| > HEADER_LEN ==> f[i] == BLANK
    {
      LaidAt(sec, app, i);
    }
  }

  /** The application is in place whatever the second boot image is. */
  lemma {:induction false} AppPlaced(sec: seq<byte>, app: seq<byte>)
    requires app != []
    ensures var f := Laid(sec, app);
      Region(f, APP_HEADER, Head(app)) && (|app| > HEADER_LEN ==> Region(f, APP_IMAGE, Tail(app)))
  {
    var f := Laid(sec, app);
    LaidSize(sec, app);
    forall i | APP_HEADER <= i < |f|
      ensures i < APP_HEADER + |Head(app)| ==> f[i] == Head(app)[i - APP_HEADER]
      ensures APP_IMAGE <= i < APP_IMAGE + |Tail(app)| ==> f[i] == Tail(app)[i - APP_IMAGE]
    {
      LaidAt(sec, app, i);
    }
  }

  lemma {:induction false} AppGap(sec: seq<byte>, app: seq<byte>)
    requires |sec| <= SEC_MAX && |app| > HEADER_LEN
    ensures Gap(Laid(sec, app), APP_HEADER + HEADER_LEN, APP_IMAGE) <==> |app| >= APP_MIN
  {
    var f := Laid(sec, app);
    LaidSize(sec, app);
    forall i | APP_HEADER + HEADER_LEN <= i < APP_IMAGE
      ensures f[i] == if i < SECBOOT_TOTAL_LEN + |app| then BLANK else 0
    {
      LaidAt(sec, app, i);
    }
    assert f[APP_IMAGE - 1] == if APP_IMAGE - 1 < SECBOOT_TOTAL_LEN + |app| then BLANK else 0;
  }

  /** With room for the second boot image, the file has the promised layout exactly for a large enough application. */
  lemma {:induction false} LayoutHolds(sec: seq<byte>, app: seq<byte>)
    requires |sec| <= 57144 && app != []
    ensures IsLayout(Laid(sec, app), sec, app) <==> |app| >= 312
  {
    LaidSize(sec, app);
    if |app| > HEADER_LEN {
      SecPlaced(sec, app);
      AppPlaced(sec, app);
      AppGap(sec, app);
    }
  }

  // ----- Too large a second boot image -----

  /** What the file holds where byte k of the second boot image belongs. */
  function Instead(sec: seq<byte>, app: seq<byte>, k: nat): byte
    requires k < |sec|
  {
    var i := k - SEC_MAX;
    if 0 <= i < Min(HEADER_LEN, |app|) then app[i]
    else if RUN_HEADER_LEN <= i && i - RUN_HEADER_LEN + HEADER_LEN < |app| then app[i - RUN_HEADER_LEN + HEADER_LEN]
    else sec[k]
  }

  lemma {:induction false} InsteadIs(sec: seq<byte>, app: seq<byte>, i: nat)
    requires SEC_IMAGE <= i < SEC_IMAGE + |sec| - HEADER_LEN
    ensures Instead(sec, app, i - SEC_IMAGE + HEADER_LEN)
         == if APP_IMAGE <= i < APP_IMAGE + |app| - HEADER_LEN then app[i - APP_IMAGE + HEADER_LEN]
            else if APP_HEADER <= i < APP_HEADER + Min(HEADER_LEN, |app|) then app[i - APP_HEADER]
            else sec[i - SEC_IMAGE + HEADER_LEN]
  {
    assert i - SEC_IMAGE + HEADER_LEN - SEC_MAX == i - APP_HEADER;
  }

  lemma {:induction false} InsteadAt(sec: seq<byte>, app: seq<byte>, k: nat)
    requires app != [] && HEADER_LEN <= k < |sec|
    ensures k + SEC_IMAGE - HEADER_LEN < |Laid(sec, app)|
    ensures Laid(sec, app)[k + SEC_IMAGE - HEADER_LEN] == Instead(sec, app, k)
  {
    LaidSize(sec, app);
    LaidAt(sec, app, k + SEC_IMAGE - HEADER_LEN);
    InsteadIs(sec, app, k + SEC_IMAGE - HEADER_LEN);
  }

  lemma {:induction false} RegionIs(f: seq<byte>, at: nat, data: seq<byte>)
    requires at + |data| <= |f|
    ensures Region(f, at, data) <==> forall j | 0 <= j < |data| :: f[at + j] == data[j]
  {
    var there := f[at..at + |data|];
    assert forall j | 0 <= j < |data| :: there[j] == f[at + j];
  }

  lemma {:induction false} TailAt(sec: seq<byte>, app: seq<byte>, j: nat)
    requires app != [] && j < |Tail(sec)|
    ensures SEC_IMAGE + |Tail(sec)| <= |Laid(sec, app)|
    ensures Laid(sec, app)[SEC_IMAGE + j] == Instead(sec, app, j + HEADER_LEN) && Tail(sec)[j] == sec[j + HEADER_LEN]
  {
    LaidSize(sec, app);
    InsteadAt(sec, app, j + HEADER_LEN);
  }

  /**
   The second boot image reads back from its place exactly when it ends before
   the application, or its bytes there happen to be the application's.
   */
  lemma {:induction false} SecSurvives(sec: seq<byte>, app: seq<byte>)
    requires app != []
    ensures Region(Laid(sec, app), SEC_IMAGE, Tail(sec))
       <==> forall k | SEC_MAX <= k < |sec| :: Instead(sec, app, k) == sec[k]
  {
    LaidSize(sec, app);
    RegionIs(Laid(sec, app), SEC_IMAGE, Tail(sec));
    if Region(Laid(sec, app), SEC_IMAGE, Tail(sec)) {
      forall k | SEC_MAX <= k < |sec| ensures Instead(sec, app, k) == sec[k] {
        TailAt(sec, app, k - HEADER_LEN);
      }
    }
    if forall k | SEC_MAX <= k < |sec| :: Instead(sec, app, k) == sec[k] {
      forall j | 0 <= j < |Tail(sec)| ensures Laid(sec, app)[SEC_IMAGE + j] == Tail(sec)[j] {
        TailAt(sec, app, j);
      }
    }
  }

  // ----- The finished file -----

  lemma {:induction false} WrittenFirst(f: seq<byte>, h: seq<byte>)
    requires 0 < |h| <= |f|
    ensures Written(f, 0, h) == h + f[|h|..]
  {
  }

  /**
   A finished file starts with a header that reads back: its length field counts
   what follows the header, and the checksums are the complements of the CRCs of that
   and of the header. No image is described but this.
   */
  lemma {:induction false} FlsHeaderReadsBack(sec: seq<byte>, app: seq<byte>, crc32: seq<byte> -> u32)
    ensures Fls(sec, app, crc32).Ok? ==> var f := Fls(sec, app, crc32).value; var laid := Laid(sec, app);
      && |f| == |laid| >= HEADER_LEN && f[HEADER_LEN..] == laid[HEADER_LEN..]
      && Unpack(f[0..4]) == 0xA0FFFF9F && Unpack(f[4..6]) == Unpack(f[6..8]) == 0
      && Unpack(f[8..12]) == 0x2000 && Unpack(f[12..16]) == |f| - 56
      && Unpack(f[16..20]) + crc32(f[56..]) == 0xFFFFFFFF
      && Unpack(f[20..24]) == Unpack(f[24..28]) == Unpack(f[28..32]) == Unpack(f[32..36]) == 0
      && f[36..52] == Fill(0, 16) && Unpack(f[52..56]) + crc32(f[..52]) == 0xFFFFFFFF
      && ReadHeader(f) == FlsHeader(laid, crc32)
  {
    var laid := Laid(sec, app);
    LaidLength(sec, app);
    var h := FlsHeader(laid, crc32);
    if Fls(sec, app, crc32).Ok? {
      HeaderReadsBack(h, crc32, laid[HEADER_LEN..]);
      HeaderInPlace(h, crc32, laid[HEADER_LEN..]);
      WrittenFirst(laid, HeaderBytes(h, crc32));
    }
  }

  lemma {:induction false} Behind(f: seq<byte>, laid: seq<byte>, from: nat, to: nat)
    requires |f| == |laid| && HEADER_LEN <= from <= to <= |f| && f[HEADER_LEN..] == laid[HEADER_LEN..]
    ensures f[from..to] == laid[from..to]
  {
    forall i | from <= i < to ensures f[i] == laid[i] {
      assert f[HEADER_LEN..][i - HEADER_LEN] == laid[HEADER_LEN..][i - HEADER_LEN];
    }
  }

  /** A slice that stops at the end of the file. */
  function Slice(f: seq<byte>, at: nat, n: nat): seq<byte> {
    From(f, at)[..Min(n, |From(f, at)|)]
  }

  lemma {:induction false} SliceIs(f: seq<byte>, laid: seq<byte>, at: nat, data: seq<byte>)
    requires HEADER_LEN <= |f| == |laid| && f[HEADER_LEN..] == laid[HEADER_LEN..]
    requires at >= HEADER_LEN && Region(laid, at, data)
    ensures Slice(f, at, |data|) == data
  {
    Behind(f, laid, at, at + |data|);
    assert From(f, at)[..|data|] == f[at..at + |data|];
  }

  lemma {:induction false} SecReadsBack(f: seq<byte>, sec: seq<byte>, app: seq<byte>)
    requires |sec| <= SEC_MAX && app != []
    requires |f| == |Laid(sec, app)| && f[HEADER_LEN..] == Laid(sec, app)[HEADER_LEN..]
    ensures Slice(f, SEC_HEADER, |Head(sec)|) + Slice(f, SEC_IMAGE, |Tail(sec)|) == sec
  {
    SecPlaced(sec, app);
    SliceIs(f, Laid(sec, app), SEC_HEADER, Head(sec));
    SliceIs(f, Laid(sec, app), SEC_IMAGE, Tail(sec));
    assert sec == Head(sec) + Tail(sec);
  }

  lemma {:induction false} AppReadsBack(f: seq<byte>, sec: seq<byte>, app: seq<byte>)
    requires |sec| <= SEC_MAX && app != []
    requires |f| == |Laid(sec, app)| && f[HEADER_LEN..] == Laid(sec, app)[HEADER_LEN..]
    ensures |f| == AppEnd(app)
    ensures Slice(f, APP_HEADER, HEADER_LEN) + From(f, APP_IMAGE) == app
  {
    AppPlaced(sec, app);
    LaidSize(sec, app);
    SliceIs(f, Laid(sec, app), APP_HEADER, Head(app));
    assert app == Head(app) + Tail(app);
    if |app| > HEADER_LEN {
      SliceIs(f, Laid(sec, app), APP_IMAGE, Tail(app));
      assert Slice(f, APP_IMAGE, |Tail(app)|) == From(f, APP_IMAGE);
    } else {
      assert Slice(f, APP_HEADER, HEADER_LEN) == Slice(f, APP_HEADER, |Head(app)|);
    }
  }

  /** From a file whose second boot image leaves room for the application, both are read back whole. */
  lemma {:induction false} ImagesReadBack(sec: seq<byte>, app: seq<byte>, crc32: seq<byte> -> u32)
    requires |sec| <= 57144
    ensures Fls(sec, app, crc32).Ok? ==> var f := Fls(sec, app, crc32).value;
      && |f| == (if |app| > 56 then 57600 + |app| else 57400 + |app|)
      && Slice(f, 56, |Head(sec)|) + Slice(f, 312, |Tail(sec)|) == sec
      && Slice(f, 57400, 56) + From(f, 57656) == app
  {
    if Fls(sec, app, crc32).Ok? {
      FlsHeaderReadsBack(sec, app, crc32);
      SecReadsBack(Fls(sec, app, crc32).value, sec, app);
      AppReadsBack(Fls(sec, app, crc32).value, sec, app);
    }
  }

  /** The file is refused exactly for an input without the magic number, or one longer than a length field holds. */
  lemma {:induction false} RefusedWhen(sec: seq<byte>, app: seq<byte>, crc32: seq<byte> -> u32)
    ensures Fls(sec, app, crc32).Ok? <==> HasMagic(sec) && HasMagic(app) && |Laid(sec, app)| - HEADER_LEN < U32
  {
    LaidLength(sec, app);
    FieldsFit(FlsHeader(Laid(sec, app), crc32));
  }

  /** The second boot image is looked at first; one that is too short for a magic number is an error of its own. */
  lemma {:induction false} RefusedWhy(sec: seq<byte>, app: seq<byte>, crc32: seq<byte> -> u32)
    ensures Fls(sec, app, crc32) == Err(WrongMagic)
       <==> |sec| >= 4 && if Unpack(sec[..4]) != 0xA0FFFF9F then true
                          else |app| >= 4 && Unpack(app[..4]) != 0xA0FFFF9F
    ensures Fls(sec, app, crc32) != Err(ValueError)
  {
    LaidLength(sec, app);
  }

  /** An output of the tool that puts the header in front of a binary. */
  ghost predicate Made(image: seq<byte>) {
    exists version, o, bin, original, crc32 :: MakeImg.Image(version, o, bin, original, crc32) == Ok(image)
  }

  /** Two images made by that tool are taken, and both come out of the file whole. */
  lemma {:induction false} MadeImagesJoin(sec: seq<byte>, app: seq<byte>, crc32: seq<byte> -> u32)
    requires Made(sec) && Made(app)
    requires |sec| <= SEC_MAX && |app| < U32 - APP_IMAGE
    ensures Fls(sec, app, crc32).Ok?
    ensures var f := Fls(sec, app, crc32).value;
      && Slice(f, SEC_HEADER, |Head(sec)|) + Slice(f, SEC_IMAGE, |Tail(sec)|) == sec
      && Slice(f, APP_HEADER, HEADER_LEN) + From(f, APP_IMAGE) == app
  {
    MadeHasMagic(sec);
    MadeHasMagic(app);
    LaidSize(sec, app);
    RefusedWhen(sec, app, crc32);
    ImagesReadBack(sec, app, crc32);
  }

  lemma {:induction false} MadeHasMagic(image: seq<byte>)
    requires Made(image)
    ensures HasMagic(image)
  {
    var version, o, bin, original, crc32 :| MakeImg.Image(version, o, bin, original, crc32) == Ok(image);
    MakeImg.ImageHasMagic(version, o, bin, original, crc32);
  }

  // ----- The tool -----

  /** Reads the magic number at the start of an input. */
  method TestMagic(f: PyFile) returns (r: Result<()>)
    requires f.pos == 0
    modifies f`pos
    ensures r == CheckMagic(f.content)
  {
    var magic := f.Read(4);
    r := if |magic| < 4 then Err(StructError) else if Unpack(magic) != MAGIC_NO then Err(WrongMagic) else Ok(());
  }

  /** The header of an input goes to one place, the rest of it to another. */
  method CopyImage(from: PyFile, to: PyFile, header: nat, image: nat)
    requires from != to
    modifies from`pos, to
    ensures to.content == Written(Written(old(to.content), header, Head(from.content)), image, Tail(from.content))
  {
    to.Seek(header);
    from.Seek(0);
    var head := from.Read(HEADER_LEN);
    to.Write(head);
    to.Seek(image);
    var tail := from.ReadAll();
    to.Write(tail);
  }

  lemma {:induction false} WrittenTwice(f: seq<byte>, a: seq<byte>, b: seq<byte>)
    requires a != [] && b != [] && |a| + |b| <= |f|
    ensures Written(Written(f, 0, a), |a|, b) == Written(f, 0, a + b)
  {
    WrittenFirst(f, a);
    WrittenFirst(f, a + b);
    WrittenNext(a, f[|a|..], b);
    Associate(a, b, f[|a| + |b|..]);
  }

  lemma {:induction false} WrittenNext(a: seq<byte>, rest: seq<byte>, b: seq<byte>)
    requires b != [] && |b| <= |rest|
    ensures Written(a + rest, |a|, b) == a + (b + rest[|b|..])
  {
    Cut(a, rest);
    assert (a + rest)[|a| + |b|..] == rest[|b|..];
    Associate(a, b, rest[|b|..]);
  }

  /** Blanks the output and puts both images in their places. */
  method LayOut(fSec: PyFile, fApp: PyFile, fOut: PyFile)
    requires fSec != fOut && fApp != fOut && fOut.content == [] && fOut.pos == 0
    modifies fSec`pos, fApp`pos, fOut
    ensures fOut.content == Laid(fSec.content, fApp.content)
  {
    fOut.Write(Fill(BLANK, SECBOOT_TOTAL_LEN + |fApp.content|));
    assert fOut.content == Fill(BLANK, SECBOOT_TOTAL_LEN + |fApp.content|);
    CopyImage(fSec, fOut, SEC_HEADER, SEC_IMAGE);
    assert fOut.content == WithSec(fSec.content, SECBOOT_TOTAL_LEN + |fApp.content|);
    CopyImage(fApp, fOut, APP_HEADER, APP_IMAGE);
  }

  /** Describes what lies behind the place of the header, and writes the header there. */
  method PutHeader(fOut: PyFile, crc32: seq<byte> -> u32) returns (r: Result<()>)
    requires |fOut.content| >= HEADER_LEN
    modifies fOut
    ensures var h := FlsHeader(old(fOut.content), crc32);
      if Fits(Values(h), WIDTHS) then r.Ok? && fOut.content == Written(old(fOut.content), 0, HeaderBytes(h, crc32))
      else r == Err(StructError)
  {
    ghost var laid := fOut.content;
    fOut.Seek(HEADER_LEN);
    var outData := fOut.ReadAll();
    var h := Header(0, 0, SECBOOT_HEADER_POS, |outData|, Checksum(crc32, outData), 0, 0, 0, Fill(0, 16));
    assert h == FlsHeader(laid, crc32);
    if !Fits(Values(h), WIDTHS) {
      return Err(StructError);
    }
    fOut.Seek(0);
    var head, check := Body(h), Pack(Checksum(crc32, Body(h)), 4);
    WrittenTwice(laid, head, check);
    fOut.Write(head);
    fOut.Write(check);
    r := Ok(());
  }

  /** The output file, opened empty, ends as specified, or the tool stops with the error specified. */
  method MakeFls(fSec: PyFile, fApp: PyFile, fOut: PyFile, crc32: seq<byte> -> u32) returns (r: Result<()>)
    requires fSec != fApp && fSec != fOut && fApp != fOut
    requires fSec.pos == fApp.pos == fOut.pos == 0 && fOut.content == []
    modifies fSec`pos, fApp`pos, fOut
    ensures Fls(fSec.content, fApp.content, crc32) == if r.Ok? then Ok(fOut.content) else Err(r.error)
  {
    r := TestMagic(fSec);
    if r.Err? {
      return;
    }
    r := TestMagic(fApp);
    if r.Err? {
      return;
    }
    LayOut(fSec, fApp, fOut);
    LaidLength(fSec.content, fApp.content);
    r := PutHeader(fOut, crc32);
  }
}
