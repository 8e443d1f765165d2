/** The retry delay of the cold-start open (localdb/localdb.go, sleepBackoff). */
module Backoff {

  const TWO_64 := 0x1_0000_0000_0000_0000
  const TWO_63 := 0x8000_0000_0000_0000
  const BASE := 1_000_000
  const MAX_DELAY := 50_000_000

  function Pow2(k: nat): nat { if k == 0 then 1 else 2 * Pow2(k - 1) }

  function Min(a: int, b: int): int { if a < b then a else b }

  /** Two's complement reading of the low 64 bits. */
  function ToInt64(x: int): int {
    var u := x % TWO_64;
    if u >= TWO_63 then u - TWO_64 else u
  }

  /** Go's `x << k` on int64: bits beyond the word are lost. */
  function ShiftLeft(x: int, k: nat): int { ToInt64(x * Pow2(k)) }

  lemma {:induction false} Pow2Split(a: nat, b: nat)
    ensures Pow2(a + b) == Pow2(a) * Pow2(b)
  {
    if a > 0 { Pow2Split(a - 1, b); }
  }

  lemma Pow2Values()
    ensures Pow2(5) == 32 && Pow2(6) == 64 && Pow2(26) == 0x400_0000
  {
    assert Pow2(3) == 8;
    assert Pow2(6) == 64;
    Pow2Split(6, 6);
    Pow2Split(12, 12);
    Pow2Split(24, 2);
  }

  lemma {:induction false} Pow2Mono(a: nat, b: nat)
    requires a <= b
    ensures Pow2(a) <= Pow2(b)
  {
    if a < b { Pow2Mono(a, b - 1); }
  }

  /** A wrapped product keeps its trailing zero bits: once the factor is a multiple
      of 2^26 a positive wrapped value is at least 2^26, past the 50 ms cap. */
  lemma WrappedStaysLarge(x: int)
    ensures ToInt64(0x400_0000 * x) <= 0 || ToInt64(0x400_0000 * x) >= 0x400_0000
  {
    var n := 0x400_0000 * x;
    var q := n / TWO_64;
    assert n % TWO_64 == 0x400_0000 * (x - q * 0x40_0000_0000);
  }

  /** Clamping the wrapped shift is the same as clamping the true power. */
  lemma {:induction false} ClampIsExact(attempt: nat)
    ensures var d := ShiftLeft(BASE, attempt);
            (if d > MAX_DELAY || d <= 0 then MAX_DELAY else d) == Min(BASE * Pow2(attempt), MAX_DELAY)
  {
    Pow2Values();
    if attempt <= 5 {
      Pow2Mono(attempt, 5);
      Pow2Mono(0, attempt);
    } else {
      Pow2Mono(6, attempt);
      if attempt <= 26 {
        Pow2Mono(attempt, 26);
      } else {
        Pow2Split(26, attempt - 26);
        WrappedStaysLarge(BASE * Pow2(attempt - 26));
        assert BASE * Pow2(attempt) == 0x400_0000 * (BASE * Pow2(attempt - 26));
      }
    }
  }

  /** The delay `sleepBackoff` waits for before retry number `attempt`. */
  method Delay(attempt: nat) returns (d: int)
    ensures d == Min(1_000_000 * Pow2(attempt), 50_000_000)
    ensures Pow2(0) == 1 && (attempt > 0 ==> Pow2(attempt) == 2 * Pow2(attempt - 1))
  {
    ClampIsExact(attempt);
    d := ShiftLeft(BASE, attempt);
    if d > MAX_DELAY || d <= 0 {
      d := MAX_DELAY;
    }
  }
}
