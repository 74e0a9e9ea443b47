/**
 The traffic indication map: a set of association identifiers sent as a partial
 virtual bitmap (section 7.3.2.6 of IEEE 802.11-2007), and the station's lookup
 of its own identifier in it.
 */
module Tim {
  import opened Bits
  import opened Bytes

  const MAX_AID: nat := 2007
  const OCTETS: nat := 251

  type u16 = x: int | 0 <= x < 0x10000

  datatype Tim = Tim(dtimCount: byte, dtimPeriod: byte, bitmapCtrl: byte, virtualMap: seq<byte>)

  /** A value stored in an unsigned 8-bit variable. */
  function ToU8(x: int): byte {
    x % 256
  }

  // ----- The station -----

  /** sizeof(struct ieee80211_tim_ie): packed, with one map octet. */
  const TIM_SIZE: nat := 4

  function Index(aid: u16): byte {
    ToU8(And(aid, 0x3fff) / 8)
  }

  function Mask(aid: u16): byte {
    ToU8(Pow2(And(And(aid, 0x3fff), 7)))
  }

  function First(tim: Tim): byte {
    ToU8(And(tim.bitmapCtrl, 0xfe))
  }

  function Last(tim: Tim, timLen: byte): byte {
    ToU8(timLen + First(tim) - 4)
  }

  /** The lookup stays inside the map, whatever the control octet and the length say. */
  lemma {:induction false} LookupInMap(tim: Tim, timLen: byte, aid: u16)
    requires timLen >= TIM_SIZE && |tim.virtualMap| >= timLen - 3
    requires First(tim) <= Index(aid) <= Last(tim, timLen)
    ensures Index(aid) - First(tim) < |tim.virtualMap|
  {
  }

  /** ieee80211_check_tim; a null pointer is None. timLen counts the octets behind the length field. */
  function CheckTim(tim: Option<Tim>, timLen: byte, aid: u16): bool
    requires tim.Some? && timLen >= TIM_SIZE ==> |tim.value.virtualMap| >= timLen - 3
  {
    if tim == None || timLen < TIM_SIZE then false
    else
      var index, first, last := Index(aid), First(tim.value), Last(tim.value, timLen);
      if index < first || index > last then false
      else
        LookupInMap(tim.value, timLen, aid);
        And(tim.value.virtualMap[ToU8(index - first)], Mask(aid)) != 0
  }

  // ----- The access point -----

  /** The lowest k bits of octet j of the full bitmap of the identifiers in s. */
  function Octet(s: set<nat>, j: nat, k: nat): (b: nat)
    ensures b < Pow2(k)
  {
    if k == 0 then 0 else Octet(s, j, k - 1) + if 8 * j + k - 1 in s then Pow2(k - 1) else 0
  }

  function OctetAt(s: set<nat>, j: nat): (b: byte) {
    assert Pow2(8) == 256;
    Octet(s, j, 8)
  }

  /** The first octet at or behind j with a bit in it, or the number of octets. */
  function FirstOctet(s: set<nat>, j: nat): (n: nat)
    requires j <= OCTETS
    ensures j <= n <= OCTETS
    decreases OCTETS - j
  {
    if j == OCTETS || OctetAt(s, j) != 0 then j else FirstOctet(s, j + 1)
  }

  /** The last octet before j with a bit in it, or 0. */
  function LastOctet(s: set<nat>, j: nat): (n: nat)
    requires 0 < j <= OCTETS
    ensures n < j
  {
    if j == 1 || OctetAt(s, j - 1) != 0 then j - 1 else LastOctet(s, j - 1)
  }

  /** N1, the largest even number with no bit set in the octets before it (0 when no bit is set at all). */
  function N1(s: set<nat>): (n: nat)
    ensures n % 2 == 0
  {
    var f := FirstOctet(s, 0);
    if f == OCTETS then 0 else f - f % 2
  }

  function N2(s: set<nat>): nat {
    LastOctet(s, OCTETS)
  }

  function Octets(s: set<nat>, from: nat, n: nat): (r: seq<byte>)
    ensures |r| == n
  {
    if n == 0 then [] else Octets(s, from, n - 1) + [OctetAt(s, from + n - 1)]
  }

  /** The element for the identifiers in s, with the group traffic bit. */
  function Encode(s: set<nat>, mcast: bool, dtimCount: byte, dtimPeriod: byte): (tim: Tim)
    requires forall a | a in s :: 1 <= a <= MAX_AID
    ensures 1 <= |tim.virtualMap| <= OCTETS
  {
    EndsInOrder(s);
    Tim(dtimCount, dtimPeriod, N1(s) + if mcast then 1 else 0, Octets(s, N1(s), N2(s) - N1(s) + 1))
  }

  /** Its length field: the octets behind it. */
  function Length(tim: Tim): (n: byte)
    requires 1 <= |tim.virtualMap| <= OCTETS
  {
    3 + |tim.virtualMap|
  }

  // ----- Bits -----

  lemma {:induction false} Halve(b: nat, p: nat)
    ensures (b + 2 * p) / 2 == b / 2 + p && (b + 2 * p) % 2 == b % 2
  {
  }

  lemma {:induction false} BitAbove(b: nat, k: nat)
    requires b < Pow2(k)
    ensures And(b, Pow2(k)) == 0 && And(b + Pow2(k), Pow2(k)) != 0
  {
    if k > 0 {
      BitAbove(b / 2, k - 1);
      Halve(b, Pow2(k - 1));
      Halve(0, Pow2(k - 1));
    }
  }

  lemma {:induction false} LowBit(x: nat)
    ensures And(x, 1) == x % 2
  {
  }

  lemma {:induction false} BitBelowStep(b: nat, p: nat, q: nat)
    requires And(b / 2 + p, q) != 0 <==> And(b / 2, q) != 0
    ensures And(b + 2 * p, 2 * q) != 0 <==> And(b, 2 * q) != 0
  {
    Halve(b, p);
    AndDouble(b + 2 * p, q);
    AndDouble(b, q);
  }

  lemma {:induction false} BitBelow(b: nat, j: nat, k: nat)
    requires j < k
    ensures And(b + Pow2(k), Pow2(j)) != 0 <==> And(b, Pow2(j)) != 0
  {
    if j > 0 {
      BitBelow(b / 2, j - 1, k - 1);
      BitBelowStep(b, Pow2(k - 1), Pow2(j - 1));
    } else {
      Halve(b, Pow2(k - 1));
      LowBit(b + Pow2(k));
      LowBit(b);
    }
  }

  lemma {:induction false} OctetBit(s: set<nat>, j: nat, i: nat, k: nat)
    requires i < k
    ensures And(Octet(s, j, k), Pow2(i)) != 0 <==> 8 * j + i in s
  {
    var b := Octet(s, j, k - 1);
    if i == k - 1 {
      BitAbove(b, i);
    } else {
      OctetBit(s, j, i, k - 1);
      BitBelow(b, i, k - 1);
    }
  }

  lemma {:induction false} OctetsAt(s: set<nat>, from: nat, n: nat, i: nat)
    requires i < n
    ensures Octets(s, from, n)[i] == OctetAt(s, from + i)
  {
    if i < n - 1 {
      OctetsAt(s, from, n - 1, i);
    }
  }

  lemma {:induction false} OctetZero(s: set<nat>, j: nat, i: nat)
    requires OctetAt(s, j) == 0 && i < 8
    ensures 8 * j + i !in s
  {
    OctetBit(s, j, i, 8);
  }

  // ----- The ends of the map -----

  lemma {:induction false} FirstOctetMeans(s: set<nat>, j: nat, x: nat)
    requires j <= OCTETS && j <= x < FirstOctet(s, j)
    ensures OctetAt(s, x) == 0
    decreases OCTETS - j
  {
    if j < x {
      FirstOctetMeans(s, j + 1, x);
    }
  }

  lemma {:induction false} FirstOctetSet(s: set<nat>, j: nat)
    requires j <= OCTETS
    ensures FirstOctet(s, j) < OCTETS ==> OctetAt(s, FirstOctet(s, j)) != 0
    decreases OCTETS - j
  {
    if j < OCTETS && OctetAt(s, j) == 0 {
      FirstOctetSet(s, j + 1);
    }
  }

  lemma {:induction false} LastOctetMeans(s: set<nat>, j: nat, x: nat)
    requires 0 < j <= OCTETS && LastOctet(s, j) < x < j
    ensures OctetAt(s, x) == 0
  {
    if x < j - 1 {
      LastOctetMeans(s, j - 1, x);
    }
  }

  lemma {:induction false} EndsInOrder(s: set<nat>)
    ensures N1(s) <= N2(s) < OCTETS
  {
    var f := FirstOctet(s, 0);
    FirstOctetSet(s, 0);
    if f < OCTETS && N2(s) < f {
      LastOctetMeans(s, OCTETS, f);
    }
  }

  lemma {:induction false} LastOctetSet(s: set<nat>, j: nat)
    requires 0 < j <= OCTETS
    ensures LastOctet(s, j) > 0 ==> OctetAt(s, LastOctet(s, j)) != 0
  {
    if j > 1 && OctetAt(s, j - 1) == 0 {
      LastOctetSet(s, j - 1);
    }
  }

  lemma {:induction false} OctetSet(s: set<nat>, j: nat, k: nat) returns (i: nat)
    requires Octet(s, j, k) != 0
    ensures i < k && 8 * j + i in s
  {
    i := k - 1;
    if 8 * j + i !in s {
      i := OctetSet(s, j, k - 1);
    }
  }

  lemma {:induction false} LowEnd(s: set<nat>, a: nat) returns (low: nat)
    requires a in s && forall x | x in s :: 1 <= x <= MAX_AID
    ensures low in s && N1(s) <= low / 8 <= N1(s) + 1
  {
    var f := FirstOctet(s, 0);
    FirstOctetSet(s, 0);
    if f == OCTETS {
      assert a == 8 * (a / 8) + a % 8;
      FirstOctetMeans(s, 0, a / 8);
      OctetZero(s, a / 8, a % 8);
      assert false;
    }
    var i := OctetSet(s, f, 8);
    low := 8 * f + i;
  }

  lemma {:induction false} HighEnd(s: set<nat>, a: nat) returns (high: nat)
    requires a in s && forall x | x in s :: 1 <= x <= MAX_AID
    ensures high in s && high / 8 == N2(s)
  {
    LastOctetSet(s, OCTETS);
    if N2(s) == 0 && OctetAt(s, 0) == 0 {
      assert a == 8 * (a / 8) + a % 8;
      if a / 8 > 0 {
        LastOctetMeans(s, OCTETS, a / 8);
      }
      OctetZero(s, a / 8, a % 8);
      assert false;
    }
    var i := OctetSet(s, N2(s), 8);
    high := 8 * N2(s) + i;
  }

  /** The octets sent are as few as they can be: there are identifiers in the first two and in the last. */
  lemma {:induction false} EndsAreTight(s: set<nat>, a: nat) returns (low: nat, high: nat)
    requires a in s && forall x | x in s :: 1 <= x <= 2007
    ensures low in s && N1(s) <= low / 8 <= N1(s) + 1
    ensures high in s && high / 8 == N2(s)
  {
    low := LowEnd(s, a);
    high := HighEnd(s, a);
  }

  /** No identifier lies outside the octets sent. */
  lemma {:induction false} OutsideEnds(s: set<nat>, x: nat, i: nat)
    requires forall a | a in s :: 1 <= a <= MAX_AID
    requires (x < N1(s) || x > N2(s)) && i < 8
    ensures 8 * x + i !in s
  {
    if x < N1(s) {
      FirstOctetMeans(s, 0, x);
      OctetZero(s, x, i);
    } else if x < OCTETS {
      LastOctetMeans(s, OCTETS, x);
      OctetZero(s, x, i);
    }
  }

  // ----- The lookup in an encoded element -----

  lemma {:induction false} Masked14(aid: u16)
    ensures And(aid, 0x3fff) == aid % 0x4000
  {
    assert Pow2(7) == 128;
    Pow2Split(7, 14);
    AndMask(aid, 14);
  }

  lemma {:induction false} Masked3(a: nat)
    ensures And(a, 7) == a % 8
  {
    assert Pow2(3) == 8;
    AndMask(a, 3);
  }

  lemma {:induction false} SmallPow2(k: nat)
    requires k < 8
    ensures Pow2(k) < 256
  {
    assert Pow2(7) == 128;
    Pow2Mono(k, 7);
  }

  lemma {:induction false} OctetNumber(a: nat)
    ensures (a / 8) % 256 == (a % 2048) / 8 && a % 8 == (a % 2048) % 8
  {
    var q, r := a / 2048, a % 2048;
    assert a == 2048 * q + r;
    assert a / 8 == 256 * q + r / 8;
  }

  lemma {:induction false} Masks(aid: u16)
    ensures var m := (aid % 0x4000) % 2048; Index(aid) == m / 8 && Mask(aid) == Pow2(m % 8)
  {
    var a := aid % 0x4000;
    Masked14(aid);
    OctetNumber(a);
    MaskIs(aid, a);
  }

  lemma {:induction false} MaskIs(aid: u16, a: nat)
    requires And(aid, 0x3fff) == a
    ensures Mask(aid) == Pow2(a % 8)
  {
    Masked3(a);
    SmallPow2(a % 8);
    assert And(And(aid, 0x3fff), 7) == a % 8;
  }

  lemma {:induction false} AndEven(c: byte)
    ensures And(c, 0xfe) == c - c % 2
  {
    assert Pow2(7) == 128;
    AndMaskAbove(c, 7);
    SmallHalf(c);
    assert And(c, 0xfe) == 2 * ((c / 2) % 128);
  }

  lemma {:induction false} SmallHalf(c: byte)
    ensures 2 * ((c / 2) % 128) == c - c % 2
  {
  }

  lemma {:induction false} FirstIs(n: nat, low: nat)
    requires n % 2 == 0 && n < 256 && low < 2
    ensures ToU8(And(n + low, 0xfe)) == n
  {
    assert (n + low) % 2 == low;
    AndEven(n + low);
  }

  /** The station reads off the control octet and the length which octets were sent. */
  lemma {:induction false} EncodedEnds(s: set<nat>, mcast: bool, dtimCount: byte, dtimPeriod: byte)
    requires forall a | a in s :: 1 <= a <= MAX_AID
    ensures var tim := Encode(s, mcast, dtimCount, dtimPeriod);
      First(tim) == N1(s) <= N2(s) == Last(tim, Length(tim)) && Length(tim) + First(tim) - 4 == N2(s) < OCTETS
  {
    var tim := Encode(s, mcast, dtimCount, dtimPeriod);
    EndsInOrder(s);
    FirstIs(N1(s), if mcast then 1 else 0);
  }

  /** Octet x, bit i of the bitmap, as the station finds it in the element. */
  lemma {:induction false} Found(s: set<nat>, mcast: bool, dtimCount: byte, dtimPeriod: byte, x: byte, i: nat)
    requires (forall a | a in s :: 1 <= a <= MAX_AID) && N1(s) <= x <= N2(s) && i < 8
    ensures var tim := Encode(s, mcast, dtimCount, dtimPeriod);
      And(tim.virtualMap[x - N1(s)], Pow2(i)) != 0 <==> 8 * x + i in s
  {
    OctetBit(s, x, i, 8);
    OctetsAt(s, N1(s), N2(s) - N1(s) + 1, x - N1(s));
  }

  lemma {:induction false} CheckIs(tim: Tim, aid: u16, x: byte, i: nat, n1: byte, n2: byte)
    requires 1 <= |tim.virtualMap| <= OCTETS && n2 - n1 + 1 == |tim.virtualMap|
    requires Index(aid) == x && Mask(aid) == Pow2(i) && First(tim) == n1 && Last(tim, Length(tim)) == n2
    ensures CheckTim(Some(tim), Length(tim), aid)
       <==> n1 <= x <= n2 && And(tim.virtualMap[x - n1], Pow2(i)) != 0
  {
    if n1 <= x <= n2 {
      assert ToU8(x - n1) == x - n1;
    }
  }

  /**
   The lookup finds exactly the identifiers of the set: an identifier below 2048,
   with any two top bits, is in the set or not; above that the octet number does
   not fit eight bits, and the answer is that for the identifier modulo 2048.
   */
  lemma {:induction false} CheckIsMembership(s: set<nat>, mcast: bool, dtimCount: byte, dtimPeriod: byte, aid: u16)
    requires forall a | a in s :: 1 <= a <= 2007
    ensures var tim := Encode(s, mcast, dtimCount, dtimPeriod);
      CheckTim(Some(tim), Length(tim), aid) <==> (aid % 0x4000) % 2048 in s
  {
    var m := (aid % 0x4000) % 2048;
    Masks(aid);
    EncodedEnds(s, mcast, dtimCount, dtimPeriod);
    assert m == 8 * (m / 8) + m % 8;
    CheckIs(Encode(s, mcast, dtimCount, dtimPeriod), aid, m / 8, m % 8, N1(s), N2(s));
    if m / 8 < N1(s) || m / 8 > N2(s) {
      OutsideEnds(s, m / 8, m % 8);
    } else {
      Found(s, mcast, dtimCount, dtimPeriod, m / 8, m % 8);
    }
  }

  /** For the identifiers an access point hands out nothing is cut off to eight bits. */
  lemma {:induction false} NothingWraps(s: set<nat>, mcast: bool, dtimCount: byte, dtimPeriod: byte, aid: u16)
    requires (forall a | a in s :: 1 <= a <= 2007) && aid % 0x4000 <= 2007
    ensures var tim := Encode(s, mcast, dtimCount, dtimPeriod);
      && Index(aid) == (aid % 0x4000) / 8 < 251
      && Mask(aid) == Pow2((aid % 0x4000) % 8)
      && Last(tim, Length(tim)) == Length(tim) + First(tim) - 4 < 251
  {
    var a := aid % 0x4000;
    assert a % 2048 == a;
    Masks(aid);
    EncodedEnds(s, mcast, dtimCount, dtimPeriod);
  }

  // ----- The lookup in any element -----

  /** Bit i of a number, the lowest being bit 0. */
  predicate Bit(b: nat, i: nat) {
    if i == 0 then b % 2 == 1 else Bit(b / 2, i - 1)
  }

  lemma {:induction false} BitIs(b: nat, i: nat)
    ensures And(b, Pow2(i)) != 0 <==> Bit(b, i)
  {
    if i == 0 {
      LowBit(b);
    } else {
      BitIs(b / 2, i - 1);
      AndDouble(b, Pow2(i - 1));
    }
  }

  lemma {:induction false} Octet14(aid: u16)
    ensures var a := aid % 0x4000; Index(aid) == a / 8 % 256 && Mask(aid) == Pow2(a % 8)
  {
    Masked14(aid);
    MaskIs(aid, aid % 0x4000);
  }

  lemma {:induction false} FirstEven(tim: Tim)
    ensures First(tim) == tim.bitmapCtrl - tim.bitmapCtrl % 2
  {
    AndEven(tim.bitmapCtrl);
  }

  /** Bit i of octet x, out of octets n to last. */
  predicate BitSet(tim: Tim, n: nat, x: nat, last: nat, i: nat) {
    n <= x <= last && x - n < |tim.virtualMap| && Bit(tim.virtualMap[x - n], i)
  }

  lemma {:induction false} BitFound(tim: Tim, timLen: byte, aid: u16, i: nat)
    requires (timLen >= 4 ==> |tim.virtualMap| >= timLen - 3) && Mask(aid) == Pow2(i)
    ensures CheckTim(Some(tim), timLen, aid)
       <==> timLen >= 4 && BitSet(tim, First(tim), Index(aid), Last(tim, timLen), i)
  {
    if timLen >= 4 && First(tim) <= Index(aid) <= Last(tim, timLen) {
      LookupInMap(tim, timLen, aid);
      var k := Index(aid) - First(tim);
      BitIs(tim.virtualMap[k], i);
      assert ToU8(k) == k;
    }
  }

  /**
   Whatever the element holds: without one, or with one shorter than four octets, the
   answer is no; otherwise it is the identifier's bit, if its octet is among those
   from the even number in the control octet on that the length leaves room for, all in
   eight bits.
   */
  lemma {:induction false} LookupMeans(tim: Tim, timLen: byte, aid: u16)
    requires timLen >= 4 ==> |tim.virtualMap| >= timLen - 3
    ensures !CheckTim(None, timLen, aid)
    ensures var n, a := tim.bitmapCtrl - tim.bitmapCtrl % 2, aid % 0x4000;
      CheckTim(Some(tim), timLen, aid)
      <==> timLen >= 4 && BitSet(tim, n, a / 8 % 256, (timLen + n - 4) % 256, a % 8)
  {
    Octet14(aid);
    FirstEven(tim);
    BitFound(tim, timLen, aid, (aid % 0x4000) % 8);
    LastIs(tim, timLen, First(tim));
  }

  lemma {:induction false} LastIs(tim: Tim, timLen: byte, n: nat)
    requires n == First(tim)
    ensures Last(tim, timLen) == (timLen + n - 4) % 256
  {
  }
}
