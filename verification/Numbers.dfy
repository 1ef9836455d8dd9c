/** 64-bit integers, as the programs' two's-complement types hold them, decimal digits, and sums of waits. */
module Numbers {
  const TWO63: int := 0x8000_0000_0000_0000
  const TWO64: int := 0x1_0000_0000_0000_0000

  predicate IsI64(x: int) {
    -TWO63 <= x < TWO63
  }

  predicate IsU64(x: int) {
    0 <= x < TWO64
  }

  function Wrap64(x: int): (r: int)
    ensures IsI64(r) && (IsI64(x) ==> r == x)
  {
    (x + TWO63) % TWO64 - TWO63
  }

  function SaturatingAdd(x: int, y: int): int {
    if x + y >= TWO63 then TWO63 - 1 else if x + y < -TWO63 then -TWO63 else x + y
  }

  function Digit(d: nat): char
    requires d < 10
  {
    '0' + d as char
  }

  function Decimal(n: nat): (s: string)
    ensures |s| > 0 && forall i | 0 <= i < |s| :: '0' <= s[i] <= '9'
  {
    if n < 10 then [Digit(n)] else Decimal(n / 10) + [Digit(n % 10)]
  }

  lemma {:induction false} DecimalInjective(m: nat, n: nat)
    requires Decimal(m) == Decimal(n)
    ensures m == n
  {
    var a, b := Decimal(m), Decimal(n);
    assert a[|a| - 1] == Digit(m % 10) && b[|b| - 1] == Digit(n % 10);
    if m >= 10 && n >= 10 {
      assert a[..|a| - 1] == Decimal(m / 10) && b[..|b| - 1] == Decimal(n / 10);
      DecimalInjective(m / 10, n / 10);
    }
  }

  function Sum(waits: seq<nat>): nat {
    if waits == [] then 0 else Sum(waits[..|waits| - 1]) + waits[|waits| - 1]
  }
}
