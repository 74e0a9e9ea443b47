/**
 The ring buffer index macros of the UART driver: masked arithmetic on 32-bit
 unsigned indices, with the signed intermediate values the macros use.
 */
module RingIndex {
  import opened Bits

  // ----- The macros -----

  function CircCnt(head: nat, tail: nat, size: nat): nat
    requires size > 0
  {
    And(ToU32(head - tail), size - 1)
  }

  function CircSpace(head: nat, tail: nat, size: nat): nat
    requires size > 0
  {
    CircCnt(tail, ToU32(head + 1), size)
  }

  function CircCntToEnd(head: nat, tail: nat, size: nat): int
    requires size > 0
  {
    var end := ToI32(size - tail);
    var n := ToI32(And(ToU32(head + end), size - 1));
    if n < end then n else end
  }

  function CircSpaceToEnd(head: nat, tail: nat, size: nat): int
    requires size > 0
  {
    var end := ToI32(size - 1 - head);
    var n := ToI32(And(ToU32(end + tail), size - 1));
    if n <= end then n else ToI32(end + 1)
  }

  function CircSpaceToEndFull(head: nat, tail: nat, size: nat): int
    requires size > 0
  {
    var end := ToI32(size - 1 - head);
    var n := ToI32(And(ToU32(end + tail), size - 1));
    if n < end then n else ToI32(end + 1)
  }

  // ----- Wrapping at 32 bits -----

  lemma {:induction false} ModOfMod(x: int, m: nat, c: nat)
    requires m > 0 && c > 0
    ensures m * c > 0 && (x % (m * c)) % m == x % m
  {
    Multiple(c, m);
    var u := m * c;
    var q := x / u;
    assert x == x % u + q * u;
    assert q * u == (q * c) * m;
    ModAdd(x % u, q * c, m);
  }

  /** Wrapping at 32 bits first does not change what the mask leaves. */
  lemma {:induction false} MaskedWrap(x: int, k: nat)
    requires k <= 32
    ensures And(ToU32(x), Pow2(k) - 1) == x % Pow2(k)
  {
    AndMask(ToU32(x), k);
    U32IsPow2();
    Pow2Split(k, 32);
    ModOfMod(x, Pow2(k), Pow2(32 - k));
  }

  /** At most one size outside the range, the mask adds or takes away one size. */
  lemma {:induction false} MaskedNear(x: int, k: nat)
    requires k <= 32 && -(Pow2(k) as int) <= x < 2 * Pow2(k)
    ensures And(ToU32(x), Pow2(k) - 1) == if x < 0 then x + Pow2(k) else if x < Pow2(k) then x else x - Pow2(k)
  {
    MaskedWrap(x, k);
    var size := Pow2(k);
    if x < 0 {
      ModUnique(x, x + size, -1, size);
    } else if x < size {
      ModUnique(x, x, 0, size);
    } else {
      ModUnique(x, x - size, 1, size);
    }
  }

  // ----- What the macros compute -----

  /** Items from tail up to head, going round. */
  function Used(head: nat, tail: nat, size: nat): int {
    if tail <= head then head - tail else head - tail + size
  }

  /** Count and space, for every power of two the index type can hold. */
  lemma {:induction false} CountAndSpace(head: nat, tail: nat, k: nat)
    requires k <= 32 && head < Pow2(k) && tail < Pow2(k)
    ensures CircCnt(head, tail, Pow2(k)) == Used(head, tail, Pow2(k))
    ensures CircSpace(head, tail, Pow2(k)) == Pow2(k) - 1 - Used(head, tail, Pow2(k))
    ensures CircCnt(head, tail, Pow2(k)) + CircSpace(head, tail, Pow2(k)) == Pow2(k) - 1
  {
    MaskedNear(head - tail, k);
    SpaceCounted(head, tail, k);
  }

  lemma {:induction false} SpaceCounted(head: nat, tail: nat, k: nat)
    requires k <= 32 && head < Pow2(k) && tail < Pow2(k)
    ensures And(ToU32(tail - ToU32(head + 1)), Pow2(k) - 1) == Pow2(k) - 1 - Used(head, tail, Pow2(k))
  {
    U32IsPow2();
    Pow2Mono(k, 32);
    Increment(head);
    MaskedNear(tail - ToU32(head + 1), k);
  }

  lemma {:induction false} Increment(x: nat)
    requires x < U32
    ensures ToU32(x + 1) == if x + 1 < U32 then x + 1 else 0
  {
  }

  lemma {:induction false} I32IsPow2()
    ensures I32 == Pow2(31)
  {
    U32IsPow2();
  }

  lemma {:induction false} Fits(x: int)
    requires 0 <= x < I32
    ensures ToI32(x) == x && ToU32(x) == x
  {
  }

  lemma {:induction false} Overflows(x: int)
    requires x == I32
    ensures ToI32(x) == -x
  {
  }

  lemma {:induction false} SizesFit(k: nat)
    requires k <= 31
    ensures if k < 31 then Pow2(k) <= I32 / 2 else Pow2(k) == I32
  {
    I32IsPow2();
    Pow2Split(30, 31);
    assert Pow2(1) == 2;
    if k < 31 {
      Pow2Mono(k, 30);
    }
  }

  lemma {:induction false} CntToEndIs(head: nat, tail: nat, size: nat, end: int, n: nat)
    requires size > 0 && end == ToI32(size - tail)
    requires n == And(ToU32(head + end), size - 1) < I32
    ensures CircCntToEnd(head, tail, size) == if n < end then n else end
  {
    Fits(n);
  }

  lemma {:induction false} SpaceToEndIs(head: nat, tail: nat, size: nat, n: nat)
    requires head < size <= I32 && n == And(ToU32(size - 1 - head + tail), size - 1) < I32
    ensures CircSpaceToEnd(head, tail, size) == if n < size - head then n else ToI32(size - head)
    ensures CircSpaceToEndFull(head, tail, size) == if n < size - 1 - head then n else ToI32(size - head)
  {
    Fits(size - 1 - head);
    Fits(n);
  }

  /** The run of items up to the end of the buffer: correct for every size below
      2^31, and for 2^31 itself exactly when tail is not 0 (size - tail must fit
      a signed int). */
  lemma {:induction false} CountToEnd(head: nat, tail: nat, k: nat)
    requires k <= 31 && head < Pow2(k) && tail < Pow2(k)
    ensures CircCntToEnd(head, tail, Pow2(k)) == Min(Used(head, tail, Pow2(k)), Pow2(k) - tail)
       <==> k < 31 || tail > 0
  {
    if k < 31 || tail > 0 {
      CountToEndFits(head, tail, k);
    } else {
      CountToEndOverflows(head);
      assert Min(Used(head, tail, Pow2(k)), Pow2(k) - tail) == head;
    }
  }

  lemma {:induction false} CountToEndFits(head: nat, tail: nat, k: nat)
    requires k <= 31 && head < Pow2(k) && tail < Pow2(k) && (k < 31 || tail > 0)
    ensures CircCntToEnd(head, tail, Pow2(k)) == Min(Used(head, tail, Pow2(k)), Pow2(k) - tail)
  {
    var size := Pow2(k);
    SizesFit(k);
    Fits(size - tail);
    MaskedNear(head + (size - tail), k);
    CntToEndIs(head, tail, size, size - tail, if head < tail then head + (size - tail) else head - tail);
  }

  lemma {:induction false} CountToEndOverflows(head: nat)
    requires head < Pow2(31)
    ensures CircCntToEnd(head, 0, Pow2(31)) == -(Pow2(31) as int)
  {
    var size: int := Pow2(31);
    I32IsPow2();
    Overflows(size);
    MaskedNear(head - size, 31);
    CntToEndIs(head, 0, size, -size, head);
  }

  /** The run of free slots up to the end of the buffer. */
  lemma {:induction false} SpaceToEnd(head: nat, tail: nat, k: nat)
    requires k <= 31 && head < Pow2(k) && tail < Pow2(k)
    ensures CircSpaceToEnd(head, tail, Pow2(k)) == Min(Pow2(k) - 1 - Used(head, tail, Pow2(k)), Pow2(k) - head)
  {
    var size := Pow2(k);
    SizesFit(k);
    SpaceMasked(head, tail, k);
    SpaceToEndIs(head, tail, size, size - 1 - Used(head, tail, size));
    if 0 < tail <= head {
      Fits(size - head);
    }
  }

  lemma {:induction false} SpaceMasked(head: nat, tail: nat, k: nat)
    requires k <= 31 && head < Pow2(k) && tail < Pow2(k)
    ensures And(ToU32(Pow2(k) - 1 - head + tail), Pow2(k) - 1) == Pow2(k) - 1 - Used(head, tail, Pow2(k))
  {
    MaskedNear(Pow2(k) - 1 - head + tail, k);
  }

  /** The _FULL variant grants one slot more exactly when tail is 0: for every size
      below 2^31, and for 2^31 itself unless head and tail are both 0. */
  lemma {:induction false} SpaceToEndFull(head: nat, tail: nat, k: nat)
    requires k <= 31 && head < Pow2(k) && tail < Pow2(k)
    ensures CircSpaceToEndFull(head, tail, Pow2(k))
         == CircSpaceToEnd(head, tail, Pow2(k)) + (if tail == 0 then 1 else 0)
       <==> k < 31 || head > 0 || tail > 0
  {
    var size := Pow2(k);
    SizesFit(k);
    SpaceMasked(head, tail, k);
    SpaceToEndIs(head, tail, size, size - 1 - Used(head, tail, size));
    if size - head < I32 {
      Fits(size - head);
    } else {
      Overflows(size - head);
    }
  }
}
