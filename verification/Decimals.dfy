/** Numbers in decimal text. */
module Decimals {
  import opened Bytes

  const ZERO: byte := 48
  const MINUS: byte := 45

  predicate IsDigits(s: seq<byte>) {
    s != [] && forall i | 0 <= i < |s| :: ZERO <= s[i] < ZERO + 10
  }

  function Value(s: seq<byte>): nat
    requires forall i | 0 <= i < |s| :: ZERO <= s[i] < ZERO + 10
  {
    if s == [] then 0 else 10 * Value(s[..|s| - 1]) + (s[|s| - 1] - ZERO)
  }

  function Decimal(n: nat): (s: seq<byte>)
    ensures |s| > 0
  {
    if n < 10 then [ZERO + n] else Decimal(n / 10) + [ZERO + n % 10]
  }

  function Signed(v: int): (s: seq<byte>)
    ensures |s| > 0
  {
    if v < 0 then [MINUS] + Decimal(-v) else Decimal(v)
  }

  lemma {:induction false} DecimalValue(n: nat)
    ensures IsDigits(Decimal(n)) && Value(Decimal(n)) == n
  {
    if n >= 10 {
      DecimalValue(n / 10);
      assert Decimal(n)[..|Decimal(n)| - 1] == Decimal(n / 10);
    } else {
      assert Decimal(n)[..0] == [];
    }
  }
}
