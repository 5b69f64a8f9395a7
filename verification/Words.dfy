/** Fixed-width unsigned words of the C sources as ranges of integers, and the C operators on
    them.  The C standard defines `<<` and `>>` on unsigned words by multiplication and division
    with a power of two, so that is how they are written here; `&`, `|` and `^` are defined bit
    by bit.  Everything else in the project reasons about bits through the lemmas of this module. */
module Words {
  const TWO8: nat := 0x100
  const TWO32: nat := 0x1_0000_0000
  const TWO64: nat := 0x1_0000_0000_0000_0000

  type byte = b: int | 0 <= b < 0x100
  type u32 = w: int | 0 <= w < 0x1_0000_0000
  type u64 = w: int | 0 <= w < 0x1_0000_0000_0000_0000

  function Pow2(n: nat): (p: nat)
    ensures p > 0
  {
    if n == 0 then 1 else 2 * Pow2(n - 1)
  }

  /** Bit `i` of `w`, bit 0 being the least significant one. */
  predicate Bit(w: nat, i: nat) {
    if i == 0 then w % 2 == 1 else Bit(w / 2, i - 1)
  }

  function Or(a: nat, b: nat): nat {
    if a == 0 && b == 0 then 0
    else 2 * Or(a / 2, b / 2) + (if a % 2 == 1 || b % 2 == 1 then 1 else 0)
  }

  function And(a: nat, b: nat): nat {
    if a == 0 || b == 0 then 0
    else 2 * And(a / 2, b / 2) + (if a % 2 == 1 && b % 2 == 1 then 1 else 0)
  }

  function Xor(a: nat, b: nat): nat {
    if a == 0 && b == 0 then 0
    else 2 * Xor(a / 2, b / 2) + (if a % 2 != b % 2 then 1 else 0)
  }

  /** Unsigned arithmetic wraps around. */
  function Wrap32(x: int): u32 {
    x % 0x1_0000_0000
  }

  function Wrap64(x: int): u64 {
    x % 0x1_0000_0000_0000_0000
  }

  /** `w + 1` on 32-bit words. */
  function Succ32(w: u32): u32 {
    if w == TWO32 - 1 then 0 else w + 1
  }

  /** `w + 1` on 64-bit words. */
  function Succ64(w: u64): u64 {
    if w == TWO64 - 1 then 0 else w + 1
  }

  /** `w << s` on 64-bit words: `s` doublings, each losing the top bit. */
  function Shl64(w: u64, s: nat): u64
    decreases s
  {
    if s == 0 then w else Shl64(2 * w % TWO64, s - 1)
  }

  /** `w >> s`: `s` halvings. */
  function Shr(w: nat, s: nat): (r: nat)
    ensures r <= w
    decreases s
  {
    if s == 0 then w else Shr(w / 2, s - 1)
  }

  function Or64(a: u64, b: u64): u64 {
    Pow2Values();
    OrBound(a, b, 64);
    Or(a, b)
  }

  function XorByte(a: byte, b: byte): (r: byte) {
    Pow2Values();
    XorBound(a, b, 8);
    Xor(a, b)
  }

  // ---- powers of two ----

  lemma Pow2Byte(n: nat)
    ensures Pow2(n + 8) == 0x100 * Pow2(n)
  {
    assert Pow2(n + 1) == 2 * Pow2(n) && Pow2(n + 2) == 2 * Pow2(n + 1) && Pow2(n + 3) == 2 * Pow2(n + 2);
    assert Pow2(n + 4) == 2 * Pow2(n + 3) && Pow2(n + 5) == 2 * Pow2(n + 4) && Pow2(n + 6) == 2 * Pow2(n + 5);
    assert Pow2(n + 7) == 2 * Pow2(n + 6);
  }

  lemma Pow2Values()
    ensures Pow2(6) == 64 && Pow2(8) == TWO8 && Pow2(16) == 0x1_0000 && Pow2(32) == TWO32 && Pow2(64) == TWO64
  {
    Pow2Byte(0); Pow2Byte(8); Pow2Byte(16); Pow2Byte(24);
    Pow2Byte(32); Pow2Byte(40); Pow2Byte(48); Pow2Byte(56);
  }

  lemma {:induction false} Pow2Add(m: nat, n: nat)
    ensures Pow2(m + n) == Pow2(m) * Pow2(n)
  {
    if m > 0 {
      Pow2Add(m - 1, n);
      assert m + n - 1 == (m - 1) + n;
    }
  }

  lemma {:induction false} Pow2Monotone(m: nat, n: nat)
    requires m <= n
    ensures Pow2(m) <= Pow2(n)
  {
    if m < n { Pow2Monotone(m, n - 1); }
  }

  // ---- division and remainder by twice a number ----

  lemma HalfOfMod(x: nat, p: nat)
    requires p > 0
    ensures x % (2 * p) / 2 == x / 2 % p
    ensures x % (2 * p) % 2 == x % 2
  {
    QuotientOfQuotient(x, 2, p);
    var y := x / 2;
    var q, r := y / p, y % p;
    assert y == p * q + r;
    assert x == (2 * p) * q + (2 * r + x % 2);
    ModUnique(x, 2 * p, q, 2 * r + x % 2);
  }

  lemma ProductGap(p: nat, q: nat, q': nat)
    requires q < q'
    ensures p * q + p <= p * q'
  {
    var d := q' - q - 1;
    assert p * q' == p * q + p * d + p;
  }

  lemma EuclidUnique(p: nat, q: nat, r: nat, q': nat, r': nat)
    requires r < p && r' < p && p * q + r == p * q' + r'
    ensures q == q' && r == r'
  {
    if q < q' { ProductGap(p, q, q'); }
    if q' < q { ProductGap(p, q', q); }
  }

  lemma ModUnique(x: nat, p: nat, q: nat, r: nat)
    requires p > 0 && r < p && x == p * q + r
    ensures x % p == r && x / p == q
  {
    EuclidUnique(p, q, r, x / p, x % p);
  }

  lemma ModProduct(a: nat, p: nat, m: nat)
    requires m > 0
    ensures a % m * p % m == a * p % m
  {
    var q, r := a / m, a % m;
    QuotientBound(a, m);
    var x := r * p;
    var k, t := x / m, x % m;
    QuotientBound(x, m);
    assert a * p == m * (q * p) + x by { assert a == m * q + r; assert m * q * p == m * (q * p); }
    assert m * (q * p + k) == m * (q * p) + m * k;
    ModUnique(a * p, m, q * p + k, t);
  }

  lemma RoundDown(x: nat, p: nat)
    requires p > 0
    ensures 0 <= x % p < p && x - x % p >= 0 && (x - x % p) % p == 0
  {
    var q := x / p;
    QuotientBound(x, p);
    assert x - x % p == p * q + 0;
    ModUnique(x - x % p, p, q, 0);
  }

  /** A multiple of `p` is what `x` rounds down to exactly when `x` is among the `p` numbers from it. */
  lemma RoundsTo(x: nat, n: nat, p: nat)
    requires p > 0 && n % p == 0
    ensures x - x % p == n <==> n <= x < n + p
  {
    RoundDown(x, p);
    if n <= x < n + p {
      var q := n / p;
      QuotientBound(n, p);
      assert x == p * q + (x - n);
      ModUnique(x, p, q, x - n);
    }
  }

  /** A multiple of `p` below `p * m` is at least `p` below it. */
  lemma MultipleBelow(x: nat, p: nat, m: nat)
    requires p > 0 && x % p == 0 && x < p * m
    ensures x + p <= p * m
  {
    var q := x / p;
    QuotientBound(x, p);
    assert x == p * q;
    if m < q { ProductGap(p, m, q); }
    if q < m { ProductGap(p, q, m); }
  }

  lemma QuotientBound(x: nat, p: nat)
    requires p > 0
    ensures 0 <= x / p <= x
  {
    var q := x / p;
    assert x == p * q + x % p;
    if p > 1 { ProductGap(q, 1, p); }
  }

  lemma QuotientOfQuotient(x: nat, m: nat, p: nat)
    requires m > 0 && p > 0
    ensures m * p > 0 && x / (m * p) == x / m / p
  {
    var y := x / m;
    var q, r := y / p, y % p;
    assert x == m * y + x % m && y == p * q + r;
    assert x == m * p * q + (m * r + x % m) by { assert m * (p * q) == m * p * q; }
    ProductGap(m, r, p);
    ModUnique(x, m * p, q, m * r + x % m);
  }

  // ---- bits of the operators ----

  lemma {:induction false} BitOfZero(i: nat)
    ensures !Bit(0, i)
  {
    if i > 0 { BitOfZero(i - 1); }
  }

  lemma {:induction false} BitOfOr(a: nat, b: nat, i: nat)
    ensures Bit(Or(a, b), i) <==> Bit(a, i) || Bit(b, i)
    decreases i
  {
    if a == 0 && b == 0 {
      BitOfZero(i);
    } else if i > 0 {
      BitOfOr(a / 2, b / 2, i - 1);
    }
  }

  lemma {:induction false} BitOfPow2(j: nat, i: nat)
    ensures Bit(Pow2(j), i) <==> i == j
  {
    if i > 0 {
      if j == 0 { BitOfZero(i - 1); } else { BitOfPow2(j - 1, i - 1); }
    }
  }

  lemma {:induction false} AndPow2(w: nat, j: nat)
    ensures And(w, Pow2(j)) != 0 <==> Bit(w, j)
    decreases j
  {
    if w == 0 {
      BitOfZero(j);
    } else if j > 0 {
      AndPow2(w / 2, j - 1);
    } else {
      assert And(w / 2, 0) == 0;
    }
  }

  lemma {:induction false} BitOfMod(w: nat, n: nat, i: nat)
    ensures Bit(w % Pow2(n), i) <==> i < n && Bit(w, i)
    decreases n
  {
    if n == 0 {
      BitOfZero(i);
    } else {
      HalfOfMod(w, Pow2(n - 1));
      if i > 0 { BitOfMod(w / 2, n - 1, i - 1); }
    }
  }

  lemma {:induction false} BitOfShr(w: nat, s: nat, i: nat)
    ensures Bit(Shr(w, s), i) <==> Bit(w, i + s)
    decreases s
  {
    if s > 0 { BitOfShr(w / 2, s - 1, i); }
  }

  lemma BitOfDouble(w: u64, i: nat)
    requires i < 64
    ensures Bit(2 * w % TWO64, i) <==> i > 0 && Bit(w, i - 1)
  {
    Pow2Values();
    BitOfMod(2 * w, 64, i);
  }

  lemma {:induction false} BitOfShl64(w: u64, s: nat, i: nat)
    requires i < 64
    ensures Bit(Shl64(w, s), i) <==> s <= i && Bit(w, i - s)
    decreases s
  {
    if s > 0 {
      BitOfShl64(2 * w % TWO64, s - 1, i);
      if s - 1 <= i { BitOfDouble(w, i - (s - 1)); }
    }
  }

  /** The shifts of the C standard: multiplication modulo 2^64, and division, by a power of two. */
  lemma {:induction false} Shl64IsProduct(w: u64, s: nat)
    ensures Shl64(w, s) == w * Pow2(s) % TWO64
    decreases s
  {
    if s > 0 {
      Shl64IsProduct(2 * w % TWO64, s - 1);
      ModProduct(2 * w, Pow2(s - 1), TWO64);
      assert 2 * w * Pow2(s - 1) == w * Pow2(s);
    }
  }

  lemma {:induction false} ShrIsQuotient(w: nat, s: nat)
    ensures Shr(w, s) == w / Pow2(s)
    decreases s
  {
    if s > 0 {
      ShrIsQuotient(w / 2, s - 1);
      QuotientOfQuotient(w, 2, Pow2(s - 1));
    }
  }

  lemma {:induction false} OrBound(a: nat, b: nat, n: nat)
    requires a < Pow2(n) && b < Pow2(n)
    ensures Or(a, b) < Pow2(n)
  {
    if n > 0 { OrBound(a / 2, b / 2, n - 1); }
  }

  lemma {:induction false} OrZero(a: nat)
    ensures Or(a, 0) == a && Or(0, a) == a
  {
    if a > 0 { OrZero(a / 2); }
  }

  /** Or-ing a shifted word onto a smaller one is addition. */
  lemma {:induction false} OrDisjoint(a: nat, b: nat, k: nat)
    requires a < Pow2(k)
    ensures Or(a, b * Pow2(k)) == a + b * Pow2(k)
    decreases k
  {
    if k == 0 {
      OrZero(b);
    } else {
      var c := b * Pow2(k - 1);
      assert b * Pow2(k) == 2 * c;
      OrDisjoint(a / 2, b, k - 1);
    }
  }

  lemma {:induction false} BitBeyond(w: nat, n: nat, i: nat)
    requires w < Pow2(n) && n <= i
    ensures !Bit(w, i)
  {
    if n == 0 { BitOfZero(i); } else { BitBeyond(w / 2, n - 1, i - 1); }
  }

  /** Words with the same bits are the same word. */
  lemma {:induction false} SameBits(a: nat, b: nat, n: nat)
    requires a < Pow2(n) && b < Pow2(n)
    requires forall i: nat | i < n :: Bit(a, i) == Bit(b, i)
    ensures a == b
  {
    if n > 0 {
      forall i: nat | i < n - 1 ensures Bit(a / 2, i) == Bit(b / 2, i) {
        assert Bit(a, i + 1) == Bit(b, i + 1);
      }
      SameBits(a / 2, b / 2, n - 1);
      assert Bit(a, 0) == Bit(b, 0);
    }
  }

  // ---- masks and exclusive or ----

  /** A mask of ones takes the remainder. */
  lemma {:induction false} AndMask(x: nat, n: nat)
    ensures And(x, Pow2(n) - 1) == x % Pow2(n) && And(Pow2(n) - 1, x) == x % Pow2(n)
    decreases n
  {
    hide And;
    AndStep(x, Pow2(n) - 1);
    AndStep(Pow2(n) - 1, x);
    if n == 0 {
      AndOfZero(x);
    } else {
      AndMask(x / 2, n - 1);
      HalfOfMod(x, Pow2(n - 1));
      assert (Pow2(n) - 1) / 2 == Pow2(n - 1) - 1;
    }
  }

  lemma {:induction false} AndBound(a: nat, b: nat)
    ensures And(a, b) <= a
  {
    if a != 0 && b != 0 { AndBound(a / 2, b / 2); }
  }

  lemma {:induction false} AndSwap(a: nat, b: nat)
    ensures And(a, b) == And(b, a)
  {
    if a != 0 && b != 0 { AndSwap(a / 2, b / 2); }
  }

  /** Or-ing onto a mask of ones changes nothing. */
  lemma {:induction false} OrOnes(b: nat, n: nat)
    requires b < Pow2(n)
    ensures Or(Pow2(n) - 1, b) == Pow2(n) - 1
    decreases n
  {
    hide Or;
    OrStep(Pow2(n) - 1, b);
    if n == 0 {
      OrZero(0);
    } else {
      OrOnes(b / 2, n - 1);
      assert (Pow2(n) - 1) / 2 == Pow2(n - 1) - 1 && (Pow2(n) - 1) % 2 == 1;
    }
  }

  lemma OrStep(a: nat, b: nat)
    ensures Or(a, b) == 2 * Or(a / 2, b / 2) + (if a % 2 == 1 || b % 2 == 1 then 1 else 0)
  {}

  lemma AndStep(a: nat, b: nat)
    ensures And(a, b) == 2 * And(a / 2, b / 2) + (if a % 2 == 1 && b % 2 == 1 then 1 else 0)
  {}

  lemma AndOfZero(x: nat)
    ensures And(x, 0) == 0 && And(0, x) == 0
  {}

  lemma {:induction false} XorLaws(a: nat, b: nat)
    ensures Xor(Xor(a, b), b) == a && Xor(0, b) == b
    decreases a + b
  {
    hide Xor;
    XorStep(a, b);
    XorStep(0, b);
    XorStep(Xor(a, b), b);
    if a > 0 || b > 0 {
      XorLaws(a / 2, b / 2);
    } else {
      XorStep(0, 0);
    }
  }

  lemma {:induction false} XorBound(a: nat, b: nat, n: nat)
    requires a < Pow2(n) && b < Pow2(n)
    ensures Xor(a, b) < Pow2(n)
  {
    if n > 0 { XorBound(a / 2, b / 2, n - 1); }
  }

  lemma LowByte(x: nat)
    ensures And(x, 0xFF) == x % 0x100 && And(0xFF, x) == x % 0x100 && And(0, x) == And(x, 0) == 0
  {
    Pow2Values();
    AndMask(x, 8);
  }

  lemma OrIsZero(a: nat, b: nat)
    ensures Or(a, b) == 0 <==> a == 0 && b == 0
  {}

  lemma {:induction false} BitOfAnd(a: nat, b: nat, i: nat)
    ensures Bit(And(a, b), i) <==> Bit(a, i) && Bit(b, i)
    decreases i
  {
    if a == 0 || b == 0 {
      BitOfZero(i);
    } else if i > 0 {
      BitOfAnd(a / 2, b / 2, i - 1);
    }
  }

  lemma BitIsQuotient(w: nat, i: nat)
    ensures Bit(w, i) <==> w / Pow2(i) % 2 == 1
  {
    BitOfShr(w, i, 0);
    ShrIsQuotient(w, i);
  }

  /** `n & (b - 1)` is the remainder when `b & (b - 1)` is zero. */
  lemma {:induction false} PowerOfTwoMask(n: nat, b: nat)
    requires b > 0 && And(b, b - 1) == 0
    ensures And(n, b - 1) == n % b
    decreases b
  {
    if b % 2 == 1 {
      AndSame(b / 2);
      assert b == 1;
    } else {
      assert (b - 1) / 2 == b / 2 - 1;
      PowerOfTwoMask(n / 2, b / 2);
      HalfOfMod(n, b / 2);
    }
  }

  lemma {:induction false} AndSame(a: nat)
    ensures And(a, a) == a
  {
    if a > 0 { AndSame(a / 2); }
  }

  lemma XorIsZero(a: nat, b: nat)
    ensures Xor(a, b) == 0 <==> a == b
  {
    XorLaws(a, b);
    XorLaws(b, b);
  }

  lemma {:induction false} XorHigh(a: nat, b: nat, c: nat, n: nat)
    requires b < Pow2(n) && c < Pow2(n)
    ensures Xor(Pow2(n) * a + b, c) == Pow2(n) * a + Xor(b, c)
    decreases n
  {
    hide Xor;
    if n == 0 {
      XorLaws(0, a);
      XorSwap(a, 0);
      XorLaws(0, 0);
    } else {
      XorHigh(a, b / 2, c / 2, n - 1);
      var p, h := Pow2(n - 1), Pow2(n - 1) * a;
      assert 2 * p * a == 2 * h;
      XorHighStep(h, b, c);
    }
  }

  lemma XorHighStep(h: nat, b: nat, c: nat)
    requires Xor(h + b / 2, c / 2) == h + Xor(b / 2, c / 2)
    ensures Xor(2 * h + b, c) == 2 * h + Xor(b, c)
  {
    hide Xor;
    assert (2 * h + b) / 2 == h + b / 2 && (2 * h + b) % 2 == b % 2;
    XorStep(2 * h + b, c);
    XorStep(b, c);
  }

  lemma XorStep(a: nat, b: nat)
    ensures Xor(a, b) == 2 * Xor(a / 2, b / 2) + (if a % 2 != b % 2 then 1 else 0)
  {}

  lemma {:induction false} BitOfXor(a: nat, b: nat, i: nat)
    ensures Bit(Xor(a, b), i) <==> (Bit(a, i) != Bit(b, i))
    decreases i
  {
    hide Xor;
    XorStep(a, b);
    if i > 0 { BitOfXor(a / 2, b / 2, i - 1); }
  }

  lemma {:induction false} XorSwap(a: nat, b: nat)
    ensures Xor(a, b) == Xor(b, a)
    decreases a + b
  {
    if a > 0 || b > 0 { XorSwap(a / 2, b / 2); }
  }
}
