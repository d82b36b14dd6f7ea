/** Numbers by their binary digits: powers of two, shifts and single bits. */
module Bits {

  function Pow2(n: nat): (p: nat)
    ensures p >= 1
  {
    if n == 0 then 1 else 2 * Pow2(n - 1)
  }

  /** A number shifted right by n bits. */
  function Shr(x: nat, n: nat): nat
    decreases n
  {
    if n == 0 then x else Shr(x / 2, n - 1)
  }

  lemma {:induction false} ShrAdd(x: nat, a: nat, b: nat)
    ensures Shr(x, a + b) == Shr(Shr(x, a), b)
    decreases a
  {
    if a > 0 {
      ShrAdd(x / 2, a - 1, b);
    }
  }

  /** Shifting out the low bits leaves the high ones. */
  lemma {:induction false} ShrHigh(q: nat, k: nat, r: nat)
    requires r < Pow2(k)
    ensures Shr(q * Pow2(k) + r, k) == q
    decreases k
  {
    if k > 0 {
      HalfHigh(q, Pow2(k - 1), r);
      ShrHigh(q, k - 1, r / 2);
    }
  }

  lemma HalfHigh(q: nat, p: nat, r: nat)
    ensures (q * (2 * p) + r) / 2 == q * p + r / 2
  {
    Double(q, p);
    Halve(q * p, r);
  }

  lemma Double(q: nat, p: nat)
    ensures q * (2 * p) == 2 * (q * p)
  {
  }

  lemma Halve(x: nat, r: nat)
    ensures (2 * x + r) / 2 == x + r / 2
  {
  }

  lemma {:induction false} ShrLow(x: nat, k: nat) returns (r: nat)
    ensures r < Pow2(k) && x == Shr(x, k) * Pow2(k) + r
    decreases k
  {
    if k == 0 {
      r := 0;
    } else {
      var s := ShrLow(x / 2, k - 1);
      r := 2 * s + x % 2;
      Unhalve(Shr(x / 2, k - 1), Pow2(k - 1), s, x);
    }
  }

  lemma Unhalve(q: nat, p: nat, s: nat, x: nat)
    requires s < p && x / 2 == q * p + s
    ensures 2 * s + x % 2 < 2 * p && x == q * (2 * p) + (2 * s + x % 2)
  {
  }

  /** Bit i of a number. */
  function Bit(x: nat, i: nat): nat {
    Shr(x, i) % 2
  }

  lemma MulAssoc(a: nat, b: nat, c: nat)
    ensures a * (b * c) == (a * b) * c
  {
  }

  lemma {:induction false} Pow2Add(a: nat, b: nat)
    ensures Pow2(a + b) == Pow2(a) * Pow2(b)
  {
    if a > 0 {
      Pow2Add(a - 1, b);
      MulAssoc(2, Pow2(a - 1), Pow2(b));
      assert a + b - 1 == (a - 1) + b;
    }
  }

  lemma EightBits()
    ensures Pow2(8) == 256
  {
    assert Pow2(4) == 16;
  }

  lemma Scale(a: nat, b: nat, m: nat)
    requires a <= b
    ensures a * m <= b * m
  {
  }

  lemma QuotientIs(q: nat, m: nat, r: nat)
    requires r < m
    ensures (q * m + r) / m == q
  {
    var d := (q * m + r) / m;
    assert q * m + r == d * m + (q * m + r) % m;
    if d < q {
      Scale(d + 1, q, m);
    } else if d > q {
      Scale(q + 1, d, m);
    }
  }

  /** Shifting right is dividing by a power of two. */
  lemma ShrDivides(x: nat, k: nat)
    ensures x / Pow2(k) == Shr(x, k)
  {
    hide Shr;
    var r := ShrLow(x, k);
    QuotientIs(Shr(x, k), Pow2(k), r);
  }

  /** Adding a power of two whose bit is clear sets that bit and no other. */
  lemma {:induction false} AddBit(x: nat, k: nat, i: nat)
    requires Bit(x, k) == 0
    ensures Bit(x + Pow2(k), i) == if i == k then 1 else Bit(x, i)
    decreases k
  {
    if k == 0 {
      assert (x + 1) / 2 == x / 2;
    } else {
      assert (x + Pow2(k)) / 2 == x / 2 + Pow2(k - 1) && (x + Pow2(k)) % 2 == x % 2;
      if i > 0 {
        AddBit(x / 2, k - 1, i - 1);
      }
    }
  }

  /** Taking away a power of two whose bit is set clears that bit and no other. */
  lemma TakeBit(x: nat, k: nat, i: nat)
    requires Bit(x, k) == 1
    ensures Pow2(k) <= x && Bit(x - Pow2(k), i) == if i == k then 0 else Bit(x, i)
    decreases k
  {
    if k > 0 {
      TakeBit(x / 2, k - 1, if i > 0 then i - 1 else 0);
      assert (x - Pow2(k)) / 2 == x / 2 - Pow2(k - 1) && (x - Pow2(k)) % 2 == x % 2;
    } else {
      assert (x - 1) / 2 == x / 2;
    }
  }

  /** The bits below k of a number are those of its remainder. */
  lemma {:induction false} LowBits(q: nat, k: nat, r: nat, i: nat)
    requires i < k
    ensures Bit(q * Pow2(k) + r, i) == Bit(r, i)
    decreases i
  {
    HalfHigh(q, Pow2(k - 1), r);
    Double(q, Pow2(k - 1));
    if i == 0 {
      EvenPart(q * Pow2(k - 1), r);
    } else {
      LowBits(q, k - 1, r / 2, i - 1);
    }
  }

  lemma EvenPart(x: nat, r: nat)
    ensures (2 * x + r) % 2 == r % 2
  {
  }

  /** The bits from k on are those of the quotient. */
  lemma HighBits(q: nat, k: nat, r: nat, i: nat)
    requires r < Pow2(k)
    ensures Bit(q * Pow2(k) + r, k + i) == Bit(q, i)
  {
    hide Shr, Pow2;
    ShrHigh(q, k, r);
    ShrAdd(q * Pow2(k) + r, k, i);
  }

  /** Bitwise XOR. */
  function Xor(a: nat, b: nat): nat
    decreases a + b
  {
    if a == 0 then b
    else if b == 0 then a
    else (a % 2 + b % 2) % 2 + 2 * Xor(a / 2, b / 2)
  }

  /** Bit by bit, it is the parity of the two. */
  lemma {:induction false} XorBit(a: nat, b: nat, i: nat)
    ensures Bit(Xor(a, b), i) == (Bit(a, i) + Bit(b, i)) % 2
    decreases i
  {
    if a == 0 || b == 0 {
      NoBits(i);
    } else {
      var rest := Xor(a / 2, b / 2);
      assert Xor(a, b) / 2 == rest && Xor(a, b) % 2 == (a % 2 + b % 2) % 2;
      if i > 0 {
        XorBit(a / 2, b / 2, i - 1);
      }
    }
  }

  lemma {:induction false} NoBits(i: nat)
    ensures Bit(0, i) == 0
  {
    if i > 0 {
      NoBits(i - 1);
    }
  }

  lemma {:induction false} XorBelow(a: nat, b: nat, n: nat)
    requires a < Pow2(n) && b < Pow2(n)
    ensures Xor(a, b) < Pow2(n)
    decreases n
  {
    if a > 0 && b > 0 {
      XorBelow(a / 2, b / 2, n - 1);
    }
  }

  /** Numbers with the same bits are the same. */
  lemma {:induction false} SameBits(x: nat, y: nat, n: nat)
    requires x < Pow2(n) && y < Pow2(n) && forall j: nat :: j < n ==> Bit(x, j) == Bit(y, j)
    ensures x == y
    decreases n
  {
    if n > 0 {
      assert Bit(x, 0) == Bit(y, 0);
      forall j: nat | j < n - 1
        ensures Bit(x / 2, j) == Bit(y / 2, j)
      {
        assert Bit(x, j + 1) == Bit(y, j + 1);
      }
      SameBits(x / 2, y / 2, n - 1);
    }
  }

  /** The highest bit in which two numbers differ orders them. */
  lemma {:induction false} HighestBitDecides(x: nat, y: nat, n: nat, i: nat)
    requires x < Pow2(n) && y < Pow2(n) && i < n && Bit(x, i) == 0 && Bit(y, i) == 1
    requires forall j: nat :: i < j < n ==> Bit(x, j) == Bit(y, j)
    ensures x < y
    decreases i
  {
    forall j: nat | j < n - 1 && i <= j
      ensures Bit(x / 2, j) == Bit(y / 2, j)
    {
      assert Bit(x, j + 1) == Bit(y, j + 1);
    }
    if i == 0 {
      SameBits(x / 2, y / 2, n - 1);
    } else {
      HighestBitDecides(x / 2, y / 2, n - 1, i - 1);
    }
  }
}
