/** Powers of two. */
module PowersOfTwo {
  function Power2(n: nat): (p: nat)
    ensures p > 0
  {
    if n == 0 then 1 else 2 * Power2(n - 1)
  }

  predicate PowerOfTwo(n: nat) {
    n == 1 || (n > 1 && n % 2 == 0 && PowerOfTwo(n / 2))
  }

  /** A power of two has an exponent. */
  lemma {:induction false} Exponent(n: nat) returns (e: nat)
    requires PowerOfTwo(n)
    ensures Power2(e) == n
  {
    e := 0;
    if n > 1 {
      e := Exponent(n / 2);
      e := e + 1;
    }
  }

  lemma {:induction false} Power2Grows(a: nat, b: nat)
    requires a < b
    ensures 2 * Power2(a) <= Power2(b)
  {
    if a + 1 < b {
      Power2Grows(a, b - 1);
    }
  }

  /** From 128 on they are multiples of 64. */
  lemma InFrames(n: nat)
    requires PowerOfTwo(n) && n >= 128
    ensures n % 64 == 0
  {
    var e := Exponent(n);
    hide PowerOfTwo;
    Sixty4(e);
  }

  lemma {:induction false} Sixty4(e: nat)
    requires Power2(e) >= 128
    ensures Power2(e) % 64 == 0 && e >= 7
  {
    Small();
    if e < 6 {
      Power2Grows(e, 6);
    } else if e > 7 {
      if e > 8 {
        Power2Grows(7, e - 1);
      }
      Sixty4(e - 1);
    }
  }

  lemma Small()
    ensures Power2(6) == 64 && Power2(7) == 128
  {
    assert Power2(1) == 2 && Power2(2) == 4 && Power2(3) == 8 && Power2(4) == 16 && Power2(5) == 32;
  }
}
