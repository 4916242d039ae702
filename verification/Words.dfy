/** Machine words as naturals: shifts, masks and the bitwise operators, each defined bit by bit. */
module Words {
  type Byte = b: nat | b < 256
  type Word32 = w: nat | w < 0x1_0000_0000
  type Word64 = w: nat | w < 0x1_0000_0000_0000_0000

  function Pow2(n: nat): (r: nat)
    ensures r > 0
  {
    if n == 0 then 1 else 2 * Pow2(n - 1)
  }

  predicate Bit(w: nat, i: nat) { if i == 0 then w % 2 == 1 else Bit(w / 2, i - 1) }

  function B2N(b: bool): nat { if b then 1 else 0 }

  function Xor(a: nat, b: nat): nat {
    if a == 0 then b else if b == 0 then a else 2 * Xor(a / 2, b / 2) + B2N((a % 2 == 1) != (b % 2 == 1))
  }

  function Or(a: nat, b: nat): nat {
    if a == 0 then b else if b == 0 then a else 2 * Or(a / 2, b / 2) + B2N(a % 2 == 1 || b % 2 == 1)
  }

  function And(a: nat, b: nat): nat {
    if a == 0 || b == 0 then 0 else 2 * And(a / 2, b / 2) + B2N(a % 2 == 1 && b % 2 == 1)
  }

  function Shl(w: nat, k: nat): nat { if k == 0 then w else 2 * Shl(w, k - 1) }

  function Shr(w: nat, k: nat): nat { if k == 0 then w else Shr(w / 2, k - 1) }

  /** CountTrailingZeros64. */
  function Ctz(w: nat): nat
    requires w != 0
  {
    if w % 2 == 1 then 0 else 1 + Ctz(w / 2)
  }

  lemma {:induction false} ZeroBits(i: nat)
    ensures !Bit(0, i)
  {
    if i > 0 { ZeroBits(i - 1); }
  }

  lemma {:induction false} XorBit(a: nat, b: nat, i: nat)
    ensures Bit(Xor(a, b), i) <==> Bit(a, i) != Bit(b, i)
  {
    ZeroBits(i);
    if a != 0 && b != 0 && i > 0 { XorBit(a / 2, b / 2, i - 1); }
  }

  lemma {:induction false} OrBit(a: nat, b: nat, i: nat)
    ensures Bit(Or(a, b), i) <==> Bit(a, i) || Bit(b, i)
  {
    ZeroBits(i);
    if a != 0 && b != 0 && i > 0 { OrBit(a / 2, b / 2, i - 1); }
  }

  lemma {:induction false} AndBit(a: nat, b: nat, i: nat)
    ensures Bit(And(a, b), i) <==> Bit(a, i) && Bit(b, i)
  {
    ZeroBits(i);
    if a != 0 && b != 0 && i > 0 { AndBit(a / 2, b / 2, i - 1); }
  }

  lemma {:induction false} Pow2Bit(k: nat, i: nat)
    ensures Bit(Pow2(k), i) <==> i == k
  {
    if k == 0 {
      if i > 0 { ZeroBits(i - 1); }
    } else if i > 0 {
      Pow2Bit(k - 1, i - 1);
    }
  }

  /** A word is determined by its bits. */
  lemma {:induction false} SameBits(a: nat, b: nat)
    requires forall i: nat :: Bit(a, i) == Bit(b, i)
    ensures a == b
    decreases a + b
  {
    if a + b > 0 {
      assert Bit(a, 0) == Bit(b, 0);
      forall i: nat ensures Bit(a / 2, i) == Bit(b / 2, i) {
        assert Bit(a, i + 1) == Bit(b, i + 1);
      }
      SameBits(a / 2, b / 2);
    }
  }

  lemma {:induction false} XorComm(a: nat, b: nat)
    ensures Xor(a, b) == Xor(b, a)
  {
    if a != 0 && b != 0 { XorComm(a / 2, b / 2); }
  }

  lemma XorAssoc(a: nat, b: nat, c: nat)
    ensures Xor(Xor(a, b), c) == Xor(a, Xor(b, c))
  {
    forall i: nat ensures Bit(Xor(Xor(a, b), c), i) == Bit(Xor(a, Xor(b, c)), i) {
      XorBit(Xor(a, b), c, i);
      XorBit(a, b, i);
      XorBit(a, Xor(b, c), i);
      XorBit(b, c, i);
    }
    SameBits(Xor(Xor(a, b), c), Xor(a, Xor(b, c)));
  }

  lemma {:induction false} XorSelf(a: nat)
    ensures Xor(a, a) == 0
  {
    if a != 0 { XorSelf(a / 2); }
  }

  /** Adding a term twice cancels it. */
  lemma XorCancel(a: nat, b: nat)
    ensures Xor(Xor(a, b), b) == a
    ensures Xor(b, Xor(b, a)) == a
  {
    XorAssoc(a, b, b);
    XorSelf(b);
    XorAssoc(b, b, a);
  }

  lemma {:induction false} XorBound(a: nat, b: nat, n: nat)
    requires a < Pow2(n) && b < Pow2(n)
    ensures Xor(a, b) < Pow2(n)
  {
    if a != 0 && b != 0 { XorBound(a / 2, b / 2, n - 1); }
  }

  lemma {:induction false} OrBound(a: nat, b: nat, n: nat)
    requires a < Pow2(n) && b < Pow2(n)
    ensures Or(a, b) < Pow2(n)
  {
    if a != 0 && b != 0 { OrBound(a / 2, b / 2, n - 1); }
  }

  lemma {:induction false} Pow2Mono(m: nat, n: nat)
    requires m <= n
    ensures Pow2(m) <= Pow2(n)
  {
    if m < n { Pow2Mono(m, n - 1); }
  }

  lemma {:induction false} Pow2Add(m: nat, n: nat)
    ensures Pow2(m + n) == Pow2(m) * Pow2(n)
  {
    if m > 0 {
      Pow2Add(m - 1, n);
      assert Pow2(m - 1) * Pow2(n) * 2 == Pow2(m) * Pow2(n);
    }
  }

  lemma Pow2Double(n: nat, m: nat, v: nat)
    requires Pow2(n) == v && m == n + n
    ensures Pow2(m) == v * v
  {
    Pow2Add(n, n);
  }

  lemma Pow2Values()
    ensures Pow2(8) == 0x100 && Pow2(16) == 0x1_0000 && Pow2(32) == 0x1_0000_0000 && Pow2(64) == 0x1_0000_0000_0000_0000
  {
    Pow2Double(8, 16, 0x100);
    Pow2Double(16, 32, 0x1_0000);
    Pow2Double(32, 64, 0x1_0000_0000);
  }

  lemma {:induction false} ShrBound(w: nat, k: nat, n: nat)
    requires w < Pow2(n + k)
    ensures Shr(w, k) < Pow2(n)
  {
    if k > 0 { ShrBound(w / 2, k - 1, n); }
  }

  lemma {:induction false} ShrCtzOdd(w: nat)
    requires w != 0
    ensures Shr(w, Ctz(w)) % 2 == 1
  {
    if w % 2 == 0 { ShrCtzOdd(w / 2); }
  }

  /** BitMask(n) and masking with it: the low `n` bits. */
  function Mask(w: nat, n: nat): nat { And(w, Pow2(n) - 1) }

  function Low(w: nat, n: nat): nat { if n == 0 then 0 else w % 2 + 2 * Low(w / 2, n - 1) }

  lemma {:induction false} MaskIsLow(w: nat, n: nat)
    ensures Mask(w, n) == Low(w, n) < Pow2(n)
  {
    if n > 0 {
      MaskIsLow(w / 2, n - 1);
      assert (Pow2(n) - 1) / 2 == Pow2(n - 1) - 1 && (Pow2(n) - 1) % 2 == 1;
      if w == 0 { LowZero(n); }
    }
  }

  lemma {:induction false} LowZero(n: nat)
    ensures Low(0, n) == 0
  {
    if n > 0 { LowZero(n - 1); }
  }

  lemma {:induction false} LowSmall(w: nat, n: nat)
    requires w < Pow2(n)
    ensures Low(w, n) == w
  {
    if n > 0 { LowSmall(w / 2, n - 1); }
  }

  /** The high half of a 32x32-bit product: a hash scaled to a range. */
  function FastRange32(hash: Word32, range: Word32): nat {
    var a: nat, b: nat := hash, range;
    a * b / 0x1_0000_0000
  }

  lemma FastRangeBound(hash: Word32, range: Word32)
    requires range > 0
    ensures FastRange32(hash, range) < range
  {
    var a: nat, b: nat := hash, range;
    assert a * b < 0x1_0000_0000 * b;
  }

  predicate AllBelow(sol: seq<nat>, bits: nat) { forall q :: 0 <= q < |sol| ==> sol[q] < Pow2(bits) }

  // ---- little-endian bit strings -------------------------------------------------------------

  /** The low `n` bits of `w`, lowest first. */
  function ToBits(w: nat, n: nat): (r: seq<bool>)
    ensures |r| == n
  {
    if n == 0 then [] else [w % 2 == 1] + ToBits(w / 2, n - 1)
  }

  function FromBits(b: seq<bool>): nat { if |b| == 0 then 0 else B2N(b[0]) + 2 * FromBits(b[1..]) }

  lemma {:induction false} FromToBits(w: nat, n: nat)
    ensures FromBits(ToBits(w, n)) == Low(w, n)
  {
    if n > 0 {
      FromToBits(w / 2, n - 1);
      assert ToBits(w, n)[1..] == ToBits(w / 2, n - 1);
    }
  }

  lemma {:induction false} ToBitsSplit(w: nat, m: nat, n: nat)
    ensures ToBits(w, m + n) == ToBits(w, m) + ToBits(Shr(w, m), n)
  {
    if m > 0 { ToBitsSplit(w / 2, m - 1, n); }
  }

  lemma {:induction false} ToBitsLow(w: nat, n: nat)
    ensures ToBits(Low(w, n), n) == ToBits(w, n)
  {
    if n > 0 { ToBitsLow(w / 2, n - 1); }
  }

  /** Or-ing a value in above the pending bits appends its bits. */
  lemma {:induction false} OrShlBits(p: nat, k: nat, v: nat, n: nat)
    requires p < Pow2(k)
    ensures ToBits(Or(p, Shl(v, k)), k + n) == ToBits(p, k) + ToBits(v, n)
  {
    if k > 0 {
      OrShlBits(p / 2, k - 1, v, n);
      assert Shl(v, k) / 2 == Shl(v, k - 1) && Shl(v, k) % 2 == 0;
      OrHalf(p, Shl(v, k));
    } else {
      assert p == 0;
    }
  }

  lemma OrHalf(a: nat, b: nat)
    ensures Or(a, b) / 2 == Or(a / 2, b / 2)
    ensures Or(a, b) % 2 == B2N(a % 2 == 1 || b % 2 == 1)
  {
  }

  lemma {:induction false} ShlBound(v: nat, n: nat, k: nat)
    requires v < Pow2(n)
    ensures Shl(v, k) < Pow2(n + k)
  {
    if k > 0 { ShlBound(v, n, k - 1); }
  }
}
