/** Powers of two and bitwise operations on natural numbers.
    The C code works on 32-bit words; a word is a natural number below 2^32 here and `|`, `&` and
    `>>` are defined digit by digit. */
module Bits {

  function Pow2(k: nat): (r: nat)
    ensures r >= 1
  {
    if k == 0 then 1 else 2 * Pow2(k - 1)
  }

  function BitOr(a: nat, b: nat): nat
  {
    if a == 0 && b == 0 then 0
    else 2 * BitOr(a / 2, b / 2) + (if a % 2 == 1 || b % 2 == 1 then 1 else 0)
  }

  function BitAnd(a: nat, b: nat): nat
  {
    if a == 0 || b == 0 then 0
    else 2 * BitAnd(a / 2, b / 2) + (if a % 2 == 1 && b % 2 == 1 then 1 else 0)
  }

  function Shr(n: nat, k: nat): nat
  {
    if k == 0 then n else Shr(n / 2, k - 1)
  }

  /** Number of binary digits of n. */
  function BitLength(n: nat): nat
  {
    if n == 0 then 0 else 1 + BitLength(n / 2)
  }

  lemma {:induction false} Pow2Add(a: nat, b: nat)
    ensures Pow2(a + b) == Pow2(a) * Pow2(b)
  {
    if a == 0 {
    } else {
      Pow2Add(a - 1, b);
      assert Pow2(a + b) == 2 * Pow2(a - 1 + b);
    }
  }

  lemma {:induction false} Pow2Monotone(a: nat, b: nat)
    requires a <= b
    ensures Pow2(a) <= Pow2(b)
    ensures a < b ==> Pow2(a) < Pow2(b)
  {
    if a < b {
      Pow2Monotone(a, b - 1);
    }
  }

  lemma DivUnique(n: nat, d: nat, q: nat, r: nat)
    requires n == d * q + r && r < d
    ensures n / d == q && n % d == r
  {
    var x := n / d - q;
    assert d * x == d * (n / d) - d * q;
    MulWithin(d, x);
  }

  lemma MulWithin(d: nat, x: int)
    requires 0 < d * x + d && d * x < d
    ensures x == 0
  {
    assert d * -x == -(d * x);
    if x != 0 {
      MulGrows(d, if x > 0 then x else -x);
    }
  }

  lemma {:induction false} MulGrows(d: nat, y: nat)
    requires y > 0
    ensures d * y >= d
  {
    assert d * y == d * (y - 1) + d;
  }

  lemma {:induction false} ShrShr(n: nat, a: nat, b: nat)
    ensures Shr(Shr(n, a), b) == Shr(n, a + b)
  {
    if a > 0 {
      ShrShr(n / 2, a - 1, b);
    }
  }

  lemma {:induction false} ShrBelow(n: nat, k: nat)
    requires n < Pow2(k)
    ensures Shr(n, k) == 0
  {
    if k > 0 {
      ShrBelow(n / 2, k - 1);
    }
  }

  lemma {:induction false} ShrTop(n: nat, k: nat)
    requires Pow2(k) <= n < 2 * Pow2(k)
    ensures Shr(n, k) == 1
  {
    if k > 0 {
      ShrTop(n / 2, k - 1);
    }
  }

  /** BitLength is the position just above the top bit. */
  lemma {:induction false} BitLengthBounds(n: nat)
    ensures n < Pow2(BitLength(n))
    ensures n > 0 ==> BitLength(n) > 0 && Pow2(BitLength(n) - 1) <= n
  {
    if n > 0 {
      BitLengthBounds(n / 2);
    }
  }

  /** The top digit of a positive number. */
  lemma TopBitBounds(n: nat)
    requires n > 0
    ensures BitLength(n) > 0 && Pow2(BitLength(n) - 1) <= n < 2 * Pow2(BitLength(n) - 1)
  {
    BitLengthBounds(n);
  }

  lemma {:induction false} BitLengthUnique(n: nat, k: nat)
    requires Pow2(k) <= n < 2 * Pow2(k)
    ensures BitLength(n) == k + 1
  {
    if k > 0 {
      BitLengthUnique(n / 2, k - 1);
    }
  }

  // ----- flp2 -----

  /** Or distributes over a right shift. */
  lemma {:induction false} BitOrShr(a: nat, b: nat, k: nat)
    ensures Shr(BitOr(a, b), k) == BitOr(Shr(a, k), Shr(b, k))
  {
    if k > 0 {
      assert BitOr(a, b) / 2 == BitOr(a / 2, b / 2);
      BitOrShr(a / 2, b / 2, k - 1);
    }
  }

  /** A word whose upper digits (above the lowest j) are h ones, or-ed with j ones, is h + j ones. */
  lemma {:induction false} BitOrOnes(x: nat, j: nat, h: nat)
    requires Shr(x, j) == Pow2(h) - 1
    ensures BitOr(x, Pow2(j) - 1) == Pow2(h + j) - 1
  {
    if j == 0 {
      BitOrZero(x);
    } else {
      BitOrOnes(x / 2, j - 1, h);
      assert (Pow2(j) - 1) / 2 == Pow2(j - 1) - 1;
    }
  }

  lemma {:induction false} BitOrZero(x: nat)
    ensures BitOr(x, 0) == x
  {
    if x > 0 {
      BitOrZero(x / 2);
    }
  }

  /** n has length len and its top j digits are ones. */
  predicate TopOnes(n: nat, len: nat, j: nat)
  {
    j <= len && Shr(n, len - j) == Pow2(j) - 1
  }

  /** One doubling step of flp2: smearing by j turns j leading ones into min(2j, len) ones. */
  lemma Smear(n: nat, len: nat, j: nat)
    requires TopOnes(n, len, j)
    ensures TopOnes(SmearBy(n, j), len, if 2 * j <= len then 2 * j else len)
  {
    if 2 * j <= len {
      var k := len - 2 * j;
      BitOrShr(n, Shr(n, j), k);
      ShrShr(n, j, k);
      assert Shr(Shr(n, j), k) == Pow2(j) - 1;
      ShrShr(n, k, j);
      BitOrOnes(Shr(n, k), j, j);
    } else {
      // n >> j still has len - j digits, all of them ones
      var x := Shr(n, j);
      ShrShr(n, len - j, 2 * j - len);
      assert x == Shr(Pow2(j) - 1, 2 * j - len);
      OnesShr(j, 2 * j - len);
      BitOrOnes(n, len - j, j);
    }
  }

  lemma {:induction false} OnesShr(j: nat, k: nat)
    requires k <= j
    ensures Shr(Pow2(j) - 1, k) == Pow2(j - k) - 1
  {
    if k > 0 {
      OnesShr(j - 1, k - 1);
      assert (Pow2(j) - 1) / 2 == Pow2(j - 1) - 1;
    }
  }

  /** One line of flp2. */
  function SmearBy(n: nat, j: nat): nat
  {
    BitOr(n, Shr(n, j))
  }

  /** The largest power of two not above n: a doubling cascade of shifts and ors. */
  function Flp2(n: nat): nat
  {
    var m := SmearBy(SmearBy(SmearBy(SmearBy(SmearBy(n, 1), 2), 4), 8), 16);
    if m >= Shr(m, 1) then m - Shr(m, 1) else 0
  }

  /** One line of flp2 on a word of len digits whose top j digits, or all of them, are ones. */
  lemma SmearStep(n: nat, len: nat, j: nat)
    requires TopOnes(n, len, if j <= len then j else len)
    ensures TopOnes(SmearBy(n, j), len, if 2 * j <= len then 2 * j else len)
  {
    if j <= len {
      Smear(n, len, j);
    } else {
      assert n == Pow2(len) - 1 by { assert Pow2(0) == 1; }
      Pow2Monotone(len, j);
      ShrBelow(n, j);
      BitOrZero(n);
    }
  }

  lemma SmearedIsOnes(n: nat, len: nat)
    requires len <= 32 && TopOnes(n, len, if 1 <= len then 1 else len)
    ensures SmearBy(SmearBy(SmearBy(SmearBy(SmearBy(n, 1), 2), 4), 8), 16) == Pow2(len) - 1
  {
    var n1 := SmearBy(n, 1);
    SmearStep(n, len, 1);
    var n2 := SmearBy(n1, 2);
    SmearStep(n1, len, 2);
    var n3 := SmearBy(n2, 4);
    SmearStep(n2, len, 4);
    var n4 := SmearBy(n3, 8);
    SmearStep(n3, len, 8);
    var n5 := SmearBy(n4, 16);
    SmearStep(n4, len, 16);
    assert Pow2(0) == 1;
  }

  /** For every 32-bit word, Flp2 is the word's top bit, and 0 exactly for 0. */
  lemma Flp2IsTopBit(n: nat)
    requires n < 0x1_0000_0000
    ensures n == 0 ==> Flp2(n) == 0
    ensures n > 0 ==> BitLength(n) > 0 && Flp2(n) == Pow2(BitLength(n) - 1) && Flp2(n) <= n < 2 * Flp2(n)
  {
    if n > 0 {
      LengthOfWord(n);
      Flp2OfLength(n, BitLength(n));
    } else {
      SmearedIsOnes(0, 0);
    }
  }

  lemma Flp2OfLength(n: nat, len: nat)
    requires 0 < len <= 32 && Pow2(len - 1) <= n < Pow2(len)
    ensures Flp2(n) == Pow2(len - 1)
  {
    var top := Pow2(len - 1);
    assert Pow2(len) == 2 * top;
    assert TopOnes(n, len, 1) by { ShrTop(n, len - 1); }
    SmearedIsOnes(n, len);
    assert Shr(2 * top - 1, 1) == Shr(top - 1, 0) == top - 1;
  }

  lemma LengthOfWord(n: nat)
    requires 0 < n < 0x1_0000_0000
    ensures 0 < BitLength(n) <= 32
    ensures Pow2(BitLength(n) - 1) <= n < Pow2(BitLength(n))
  {
    BitLengthBounds(n);
    Pow2Values();
    if BitLength(n) > 32 {
      Pow2Monotone(32, BitLength(n) - 1);
    }
  }

  lemma Pow2Values()
    ensures Pow2(16) == 0x1_0000 && Pow2(30) == 0x4000_0000 && Pow2(32) == 0x1_0000_0000
  {
    assert Pow2(8) == 256;
    Pow2Add(8, 8);
    Pow2Add(16, 14);
    assert Pow2(14) == 64 * Pow2(8);
    Pow2Add(16, 16);
  }

  /** Masking with one bit tests that bit. */
  lemma {:induction false} BitAndPow2(n: nat, k: nat)
    ensures BitAnd(n, Pow2(k)) == if Shr(n, k) % 2 == 1 then Pow2(k) else 0
  {
    if n == 0 {
      ShrBelow(0, k);
    } else if k > 0 {
      BitAndPow2(n / 2, k - 1);
    }
  }

  // ----- lowest set bit -----

  function LowBit(n: nat): (r: nat)
    requires n > 0
    ensures 1 <= r <= n
  {
    if n % 2 == 1 then 1 else 2 * LowBit(n / 2)
  }

  /** m is a multiple of 2^i. */
  predicate IsMultiple(m: nat, i: nat)
  {
    i == 0 || (m % 2 == 0 && IsMultiple(m / 2, i - 1))
  }

  lemma {:induction false} MultipleIsMod(m: nat, i: nat)
    ensures IsMultiple(m, i) <==> m % Pow2(i) == 0
  {
    if i > 0 {
      MultipleIsMod(m / 2, i - 1);
      ModDouble(m, Pow2(i - 1));
    }
  }

  lemma ModDouble(r: nat, d: nat)
    requires d > 0
    ensures r % (2 * d) == 2 * (r / 2 % d) + r % 2
  {
    var q, s := r / 2 / d, r / 2 % d;
    assert r / 2 == d * q + s;
    assert r == (2 * d) * q + (2 * s + r % 2);
    DivUnique(r, 2 * d, q, 2 * s + r % 2);
  }

  /** A multiple of 2^i below 2^n leaves room for 2^i more. */
  lemma {:induction false} MultipleRoom(m: nat, i: nat, n: nat)
    requires IsMultiple(m, i) && m < Pow2(n) && i <= n
    ensures m + Pow2(i) <= Pow2(n)
  {
    if i > 0 {
      MultipleRoom(m / 2, i - 1, n - 1);
    }
  }

  /** The residue test of the pairing: r is 2^i modulo 2^(i+1) exactly when its lowest set bit is 2^i. */
  lemma {:induction false} LowBitResidue(r: nat, i: nat)
    requires r > 0
    ensures r % Pow2(i + 1) == Pow2(i) <==> LowBit(r) == Pow2(i)
    ensures LowBit(r) == Pow2(i) <==> IsMultiple(r, i) && !IsMultiple(r, i + 1)
  {
    ModDouble(r, Pow2(i));
    if i == 0 {
      assert Pow2(0) == 1;
      assert IsMultiple(r, 1) <==> r % 2 == 0;
    } else if r % 2 == 0 {
      LowBitResidue(r / 2, i - 1);
    }
  }

  lemma {:induction false} MultipleSplit(m: nat, i: nat)
    requires IsMultiple(m, i + 1)
    ensures IsMultiple(m, i)
    ensures IsMultiple(m + Pow2(i), i) && !IsMultiple(m + Pow2(i), i + 1) && LowBit(m + Pow2(i)) == Pow2(i)
  {
    if i == 0 {
      assert IsMultiple(m, 1) ==> m % 2 == 0;
    } else {
      MultipleSplit(m / 2, i - 1);
      assert (m + Pow2(i)) / 2 == m / 2 + Pow2(i - 1);
    }
  }

  /** Adding a multiple of a higher power of two leaves the lowest set bit alone. */
  lemma {:induction false} LowBitShift(m: nat, k: nat, i: nat)
    requires IsMultiple(m, i) && 0 < k < Pow2(i)
    ensures LowBit(m + k) == LowBit(k)
  {
    if i > 0 && k % 2 == 0 {
      LowBitShift(m / 2, k / 2, i - 1);
      assert (m + k) / 2 == m / 2 + k / 2;
    }
  }

  function LowBitIndex(r: nat): nat
    requires r > 0
  {
    if r % 2 == 1 then 0 else 1 + LowBitIndex(r / 2)
  }

  lemma {:induction false} LowBitIndexIsMultiplicity(r: nat, i: nat)
    requires r > 0
    ensures IsMultiple(r, i) <==> i <= LowBitIndex(r)
    ensures LowBit(r) == Pow2(LowBitIndex(r)) <= r
  {
    if i > 0 && r % 2 == 0 {
      LowBitIndexIsMultiplicity(r / 2, i - 1);
    } else if r % 2 == 0 {
      LowBitIndexIsMultiplicity(r / 2, 0);
    }
  }
}
