/** Bit operations on unsigned words, bit by bit, and the word tricks of
    pkg/concurrent/sharded_lru.go built from them. */
module WordBits {
  type Word32 = x: int | 0 <= x < 0x1_0000_0000

  function Or(a: nat, b: nat): nat {
    if a == 0 && b == 0 then 0
    else 2 * Or(a / 2, b / 2) + (if a % 2 == 1 || b % 2 == 1 then 1 else 0)
  }

  function And(a: nat, b: nat): nat {
    if a == 0 || b == 0 then 0
    else 2 * And(a / 2, b / 2) + (if a % 2 == 1 && b % 2 == 1 then 1 else 0)
  }

  function Shr(a: nat, j: nat): nat { if j == 0 then a else Shr(a / 2, j - 1) }

  function Pow(k: nat): (r: nat)
    ensures r > 0
  {
    if k == 0 then 1 else 2 * Pow(k - 1)
  }

  /** All ones, as many as `a` has bits. */
  function Ones(a: nat): nat { if a == 0 then 0 else 2 * Ones(a / 2) + 1 }

  /** `a` or-ed with its first `j - 1` right shifts. */
  function Smear(a: nat, j: nat): nat { if j == 0 then 0 else Or(a, Smear(a / 2, j - 1)) }

  lemma {:induction false} OrZero(a: nat)
    ensures Or(a, 0) == a && Or(0, a) == a
  {
    if a != 0 {
      OrZero(a / 2);
    }
  }

  lemma SmearFirst(a: nat)
    ensures Smear(a, 1) == a
  {
    OrZero(a);
  }

  lemma {:induction false} OrAssoc(a: nat, b: nat, c: nat)
    ensures Or(Or(a, b), c) == Or(a, Or(b, c))
    decreases a + b + c
  {
    if a == 0 {
      OrZero(b);
      OrZero(Or(b, c));
    } else {
      OrAssoc(a / 2, b / 2, c / 2);
    }
  }

  lemma {:induction false} SmearHalf(a: nat, j: nat)
    ensures Smear(a, j) / 2 == Smear(a / 2, j)
    decreases j
  {
    if j > 0 {
      SmearHalf(a / 2, j - 1);
    }
  }

  lemma {:induction false} SmearShr(a: nat, j: nat, i: nat)
    ensures Shr(Smear(a, j), i) == Smear(Shr(a, i), j)
    decreases i
  {
    if i > 0 {
      SmearHalf(a, j);
      SmearShr(a / 2, j, i - 1);
    }
  }

  lemma {:induction false} SmearAdd(a: nat, i: nat, j: nat)
    ensures Smear(a, i + j) == Or(Smear(a, i), Smear(Shr(a, i), j))
    decreases i
  {
    if i == 0 {
      OrZero(Smear(a, j));
    } else {
      SmearAdd(a / 2, i - 1, j);
      OrAssoc(a, Smear(a / 2, i - 1), Smear(Shr(a, i), j));
    }
  }

  /** One doubling step of the word trick. */
  lemma SmearDouble(a: nat, j: nat)
    ensures Or(Smear(a, j), Shr(Smear(a, j), j)) == Smear(a, 2 * j)
  {
    SmearShr(a, j, j);
    SmearAdd(a, j, j);
    assert j + j == 2 * j;
  }

  lemma {:induction false} OrOnes(a: nat)
    ensures Or(a, Ones(a / 2)) == Ones(a)
  {
    if a > 1 {
      OrOnes(a / 2);
    }
  }

  lemma {:induction false} SmearOnes(a: nat, j: nat)
    requires a < Pow(j)
    ensures Smear(a, j) == Ones(a)
    decreases j
  {
    if j > 0 {
      SmearOnes(a / 2, j - 1);
      OrOnes(a);
    }
  }

  // ---- powers of two

  ghost predicate IsPow2(s: nat) { exists k: nat :: s == Pow(k) }

  lemma {:induction false} OnesIsPow(a: nat)
    ensures IsPow2(Ones(a) + 1) && Ones(a) >= a && (a > 0 ==> Ones(a) < 2 * a)
  {
    if a == 0 {
      assert Ones(a) + 1 == Pow(0);
    } else {
      OnesIsPow(a / 2);
      var k: nat :| Ones(a / 2) + 1 == Pow(k);
      assert Ones(a) + 1 == Pow(k + 1);
    }
  }

  lemma {:induction false} PowLeast(a: nat, k: nat)
    requires Pow(k) > a
    ensures Pow(k) >= Ones(a) + 1
    decreases k
  {
    if k > 0 && a > 0 {
      PowLeast(a / 2, k - 1);
    }
  }

  lemma {:induction false} PowMonotone(a: nat, b: nat)
    requires a <= b
    ensures Pow(a) <= Pow(b)
  {
    if a < b {
      PowMonotone(a, b - 1);
    }
  }

  /** No 32-bit word above 2^31 is a power of two. */
  lemma NoPowerAbove(n: Word32)
    requires n > 0
    ensures n > 0x8000_0000 ==> !IsPow2(n)
  {
    hide Pow;
    Pow31();
    if k: nat :| n == Pow(k) {
      if k <= 31 {
        PowMonotone(k, 31);
      } else {
        PowMonotone(32, k);
      }
    }
  }

  lemma Pow31()
    ensures Pow(31) == 0x8000_0000 && Pow(32) == 0x1_0000_0000
  {
    assert Pow(8) == 256;
    assert Pow(16) == 0x1_0000 by { assert Pow(12) == 4096; }
    assert Pow(24) == 0x100_0000 by { assert Pow(20) == 0x10_0000; }
    assert Pow(31) == 0x8000_0000 by { assert Pow(28) == 0x1000_0000; }
  }

  /** The least power of two that is at least `n`. */
  ghost predicate LeastPow2(n: nat, r: nat) {
    IsPow2(r) && r >= n && forall k: nat :: Pow(k) >= n ==> r <= Pow(k)
  }

  /** Rounds up to the next power of two by smearing the top bit down.  The result is the
      least power of two at least n exactly for 1 <= n <= 2^31; above that it wraps to zero. */
  method NextPowerOfTwo(n: Word32) returns (r: Word32)
    ensures n == 0 ==> r == 1
    ensures 1 <= n <= 0x8000_0000 ==> LeastPow2(n, r)
    ensures n > 0x8000_0000 ==> r == 0
  {
    hide Or, Shr, Smear, Ones, Pow, LeastPow2;
    if n == 0 {
      return 1;
    }
    var m: nat := n - 1;
    ghost var a := m;
    SmearFirst(a);
    m := Or(m, Shr(m, 1));
    SmearDouble(a, 1);
    m := Or(m, Shr(m, 2));
    SmearDouble(a, 2);
    m := Or(m, Shr(m, 4));
    SmearDouble(a, 4);
    m := Or(m, Shr(m, 8));
    SmearDouble(a, 8);
    m := Or(m, Shr(m, 16));
    SmearDouble(a, 16);
    assert m == Ones(a) by { Pow31(); SmearOnes(a, 32); }
    Rounded(n);
    r := (m + 1) % 0x1_0000_0000;
  }

  lemma Rounded(n: Word32)
    requires n > 0
    ensures n <= 0x8000_0000 ==> LeastPow2(n, Ones(n - 1) + 1) && Ones(n - 1) + 1 <= 0x8000_0000
    ensures n > 0x8000_0000 ==> Ones(n - 1) + 1 == 0x1_0000_0000
  {
    Pow31();
    OnesIsPow(n - 1);
    forall k: nat | Pow(k) >= n ensures Ones(n - 1) + 1 <= Pow(k) {
      PowLeast(n - 1, k);
    }
    if n > 0x8000_0000 {
      PowLeast(n - 1, 32);
      OnesAbove(n - 1, 31);
    }
  }

  lemma {:induction false} OnesAbove(a: nat, k: nat)
    requires a >= Pow(k)
    ensures Ones(a) + 1 >= 2 * Pow(k)
    decreases k
  {
    if k > 0 {
      OnesAbove(a / 2, k - 1);
    }
  }

  /** The test s & (s - 1) == 0 recognises exactly the powers of two. */
  lemma {:induction false} PowerTest(s: nat)
    requires s > 0
    ensures And(s, s - 1) == 0 <==> IsPow2(s)
  {
    if s == 1 {
      assert s == Pow(0);
    } else if s % 2 == 0 {
      PowerTest(s / 2);
      assert (s - 1) / 2 == s / 2 - 1;
      HalfIsPow2(s);
    } else {
      AndSelf(s / 2);
      assert (s - 1) / 2 == s / 2;
      OddIsNotPow2(s);
    }
  }

  lemma HalfIsPow2(s: nat)
    requires s > 1 && s % 2 == 0
    ensures IsPow2(s) <==> IsPow2(s / 2)
  {
    if IsPow2(s) {
      var k: nat :| s == Pow(k);
      assert k > 0 && s / 2 == Pow(k - 1);
    }
    if IsPow2(s / 2) {
      var k: nat :| s / 2 == Pow(k);
      assert s == Pow(k + 1);
    }
  }

  lemma OddIsNotPow2(s: nat)
    requires s > 1 && s % 2 == 1
    ensures !IsPow2(s)
  {
  }

  lemma {:induction false} AndSelf(a: nat)
    ensures And(a, a) == a
  {
    if a != 0 {
      AndSelf(a / 2);
    }
  }

  /** Masking with a power of two less one is the remainder by it. */
  lemma {:induction false} MaskIsMod(h: nat, k: nat)
    ensures And(h, Pow(k) - 1) == h % Pow(k)
    decreases k
  {
    hide And;
    AndZero(h, Pow(k) - 1);
    if h == 0 {
      SmallMod(0, Pow(k));
    } else if k > 0 {
      MaskIsMod(h / 2, k - 1);
      var p := Pow(k - 1);
      AndOdd(h, p - 1);
      ModDouble(h, p);
    }
  }

  lemma AndZero(h: nat, m: nat)
    ensures And(h, 0) == 0 && And(0, m) == 0
  {
  }

  lemma SmallMod(h: nat, m: nat)
    requires h < m
    ensures h % m == h
  {
  }

  lemma AndOdd(h: nat, m: nat)
    requires h > 0
    ensures And(h, 2 * m + 1) == 2 * And(h / 2, m) + h % 2
  {
    assert (2 * m + 1) / 2 == m;
  }

  lemma ModDouble(h: nat, m: nat)
    requires m > 0
    ensures h % (2 * m) == 2 * (h / 2 % m) + h % 2
  {
    var q, r := h / 2 / m, h / 2 % m;
    assert h == 2 * (q * m + r) + h % 2;
    assert h == q * (2 * m) + (2 * r + h % 2) by {
      assert 2 * (q * m) == q * (2 * m);
    }
    ModUnique(h, 2 * m, q, 2 * r + h % 2);
  }

  lemma AtLeastOnce(a: int, m: int)
    requires a >= 1 && m >= 0
    ensures a * m >= m
  {
  }

  lemma ModUnique(h: nat, m: nat, q: nat, r: nat)
    requires m > 0 && h == q * m + r && r < m
    ensures h % m == r
  {
    var q' := h / m;
    assert h == m * q' + h % m;
    assert (q - q') * m == q * m - q' * m;
    if q > q' {
      AtLeastOnce(q - q', m);
    } else if q' > q {
      AtLeastOnce(q' - q, m);
    }
  }
}
