/** 64-bit words and the bit operations the bitmap uses on them. */
module Words {
  import opened MachineTypes

  function Pow2(k: nat): (r: nat)
    ensures r >= 1
  {
    if k == 0 then 1 else 2 * Pow2(k - 1)
  }

  /** Bit i of w. */
  predicate Bit(w: nat, i: nat) { if i == 0 then w % 2 == 1 else Bit(w / 2, i - 1) }

  /** The operator & */
  function And(a: nat, b: nat): nat {
    if a == 0 || b == 0 then 0 else 2 * And(a / 2, b / 2) + if a % 2 == 1 && b % 2 == 1 then 1 else 0
  }

  /** The operator | */
  function Or(a: nat, b: nat): nat
    decreases a + b
  {
    if a == 0 && b == 0 then 0 else 2 * Or(a / 2, b / 2) + if a % 2 == 1 || b % 2 == 1 then 1 else 0
  }

  /** The operator ~ on 64 bits. */
  function Not(w: Word64): Word64 { TWO64 - 1 - w }

  /** The operator << on 64 bits. */
  function Shl(w: nat, k: nat): Word64 { w * Pow2(k) % TWO64 }

  lemma {:induction false} BitZero(i: nat)
    ensures !Bit(0, i)
  {
    if i > 0 { BitZero(i - 1); }
  }

  lemma {:induction false} BitAnd(a: nat, b: nat, i: nat)
    ensures Bit(And(a, b), i) <==> Bit(a, i) && Bit(b, i)
    decreases i
  {
    if a == 0 || b == 0 {
      BitZero(i);
    } else if i > 0 {
      assert And(a, b) / 2 == And(a / 2, b / 2);
      BitAnd(a / 2, b / 2, i - 1);
    }
  }

  lemma {:induction false} BitOr(a: nat, b: nat, i: nat)
    ensures Bit(Or(a, b), i) <==> Bit(a, i) || Bit(b, i)
    decreases i
  {
    if a == 0 && b == 0 {
      BitZero(i);
    } else if i > 0 {
      assert Or(a, b) / 2 == Or(a / 2, b / 2);
      BitOr(a / 2, b / 2, i - 1);
    }
  }

  /** Bits lo to hi - 1 of w are clear. */
  ghost predicate NoBits(w: nat, lo: nat, hi: nat) { forall i: nat :: lo <= i < hi ==> !Bit(w, i) }

  /** A number below 2^k is zero exactly when its k bits are clear. */
  lemma {:induction false} ZeroBits(w: nat, k: nat)
    requires w < Pow2(k)
    ensures w == 0 <==> NoBits(w, 0, k)
    decreases k
  {
    if w == 0 {
      forall i: nat
        ensures !Bit(w, i)
      {
        BitZero(i);
      }
    } else if w % 2 == 1 {
      assert Bit(w, 0);
    } else {
      ZeroBits(w / 2, k - 1);
      var i: nat :| i < k - 1 && Bit(w / 2, i);
      assert Bit(w, i + 1);
    }
  }

  lemma {:induction false} HighBitsClear(w: nat, k: nat, i: nat)
    requires w < Pow2(k) && k <= i
    ensures !Bit(w, i)
    decreases k
  {
    if k == 0 {
      BitZero(i);
    } else {
      HighBitsClear(w / 2, k - 1, i - 1);
    }
  }

  lemma {:induction false} OrBound(a: nat, b: nat, k: nat)
    requires a < Pow2(k) && b < Pow2(k)
    ensures Or(a, b) < Pow2(k)
    decreases k
  {
    if k > 0 { OrBound(a / 2, b / 2, k - 1); }
  }

  lemma {:induction false} AndBound(a: nat, b: nat)
    ensures And(a, b) <= a
    decreases a
  {
    if a > 0 && b > 0 { AndBound(a / 2, b / 2); }
  }

  /** The bits of 2^k - 1 - w are the complement of w's. */
  lemma {:induction false} BitComplement(w: nat, k: nat, i: nat)
    requires w < Pow2(k) && i < k
    ensures Bit(Pow2(k) - 1 - w, i) <==> !Bit(w, i)
    decreases i
  {
    assert Pow2(k) == 2 * Pow2(k - 1);
    if i > 0 {
      assert (Pow2(k) - 1 - w) / 2 == Pow2(k - 1) - 1 - w / 2;
      BitComplement(w / 2, k - 1, i - 1);
    }
  }

  /** The bits of (2^n - 1) shifted left by off. */
  lemma {:induction false} BitMask(n: nat, off: nat, i: nat)
    ensures Bit((Pow2(n) - 1) * Pow2(off), i) <==> off <= i < off + n
    decreases off, n
  {
    if off > 0 {
      var m := (Pow2(n) - 1) * Pow2(off - 1);
      assert (Pow2(n) - 1) * Pow2(off) == 2 * m;
      if i > 0 { BitMask(n, off - 1, i - 1); }
    } else if n > 0 {
      assert Pow2(n) - 1 == 2 * (Pow2(n - 1) - 1) + 1;
      assert (Pow2(n) - 1) * Pow2(0) == Pow2(n) - 1;
      if i > 0 {
        BitMask(n - 1, 0, i - 1);
        assert (Pow2(n - 1) - 1) * Pow2(0) == Pow2(n - 1) - 1;
      }
    } else {
      BitZero(i);
    }
  }

  lemma {:induction false} PowSum(a: nat, b: nat)
    ensures Pow2(a) * Pow2(b) == Pow2(a + b)
    decreases a
  {
    if a > 0 { PowSum(a - 1, b); }
  }

  lemma {:induction false} PowMonotone(a: nat, b: nat)
    requires a <= b
    ensures Pow2(a) <= Pow2(b)
    decreases b
  {
    if a < b { PowMonotone(a, b - 1); }
  }

  lemma Pow64()
    ensures Pow2(64) == TWO64
  {
    assert Pow2(8) == 0x100;
    hide Pow2;
    PowSum(8, 8);
    assert Pow2(16) == 0x1_0000;
    PowSum(16, 16);
    assert Pow2(32) == 0x1_0000_0000;
    PowSum(32, 32);
  }

  lemma Small(x: nat)
    requires x < TWO64
    ensures x % TWO64 == x
  {
  }

  // ---------- the expressions the allocator uses ----------

  /** 1UL << b */
  lemma OneBit(b: nat, i: nat)
    requires b < 64
    ensures Bit(Shl(1, b), i) <==> i == b
  {
    Pow64();
    PowMonotone(b + 1, 64);
    assert Pow2(b + 1) == 2 * Pow2(b);
    Small(1 * Pow2(b));
    BitMask(1, b, i);
    assert (Pow2(1) - 1) * Pow2(b) == Pow2(b);
  }

  function SetBit(w: Word64, b: nat): (r: Word64)
    requires b < 64
  {
    Pow64(); OrBound(w, Shl(1, b), 64);
    Or(w, Shl(1, b))
  }

  function ClearBit(w: Word64, b: nat): (r: Word64)
    requires b < 64
  {
    AndBound(w, Not(Shl(1, b)));
    And(w, Not(Shl(1, b)))
  }

  lemma BitAfterSet(w: Word64, b: nat, i: nat)
    requires b < 64 && i < 64
    ensures Bit(SetBit(w, b), i) <==> Bit(w, i) || i == b
  {
    BitOr(w, Shl(1, b), i);
    OneBit(b, i);
  }

  lemma BitAfterClear(w: Word64, b: nat, i: nat)
    requires b < 64 && i < 64
    ensures Bit(ClearBit(w, b), i) <==> Bit(w, i) && i != b
  {
    BitAnd(w, Not(Shl(1, b)), i);
    Pow64();
    BitComplement(Shl(1, b), 64, i);
    OneBit(b, i);
  }

  /** (1UL << n) - 1, with the subtraction of 64-bit words. */
  function LowMask(n: nat): Word64 { (Shl(1, n) + TWO64 - 1) % TWO64 }

  /** ((1UL << n) - 1) << off */
  function Mask(n: nat, off: nat): Word64 { Shl(LowMask(n), off) }

  lemma LowMaskValue(n: nat)
    requires n < 64
    ensures LowMask(n) == Pow2(n) - 1
  {
    assert Pow2(n + 1) == 2 * Pow2(n);
    hide Pow2;
    Pow64();
    PowMonotone(n + 1, 64);
    hide Shl;
    hide Bit;
    ShlNoOverflow(1, n);
    WrapDecrement(Pow2(n));
  }

  lemma WrapDecrement(x: nat)
    requires 1 <= x < TWO64
    ensures (x + TWO64 - 1) % TWO64 == x - 1
  {
  }

  lemma MaskValue(n: nat, off: nat)
    requires n < 64 && off + n <= 64
    ensures Mask(n, off) == (Pow2(n) - 1) * Pow2(off)
  {
    LowMaskValue(n);
    MaskFits(n, off);
    ShlNoOverflow(Pow2(n) - 1, off);
  }

  lemma MaskFits(n: nat, off: nat)
    requires off + n <= 64
    ensures (Pow2(n) - 1) * Pow2(off) < TWO64
  {
    MulPred(Pow2(n), Pow2(off));
    PowSum(n, off);
    PowMonotone(n + off, 64);
    Pow64();
  }

  lemma MulPred(p: nat, q: nat)
    requires p >= 1
    ensures (p - 1) * q == p * q - q
  {
  }

  lemma ShlNoOverflow(w: nat, k: nat)
    requires w * Pow2(k) < TWO64
    ensures Shl(w, k) == w * Pow2(k)
  {
    Small(w * Pow2(k));
  }

  /** Testing a word against the mask tests exactly the bits off to off + n - 1. */
  lemma MaskTest(w: Word64, n: nat, off: nat)
    requires n < 64 && off + n <= 64
    ensures And(w, Mask(n, off)) == 0 <==> NoBits(w, off, off + n)
  {
    var m := Mask(n, off);
    MaskValue(n, off);
    forall i: nat
      ensures Bit(And(w, m), i) <==> Bit(w, i) && off <= i < off + n
    {
      BitAnd(w, m, i);
      BitMask(n, off, i);
    }
    Pow64();
    AndBound(w, m);
    ZeroBits(And(w, m), 64);
    if And(w, m) == 0 {
      assert NoBits(And(w, m), 0, 64);
    } else {
      var i: nat :| i < 64 && Bit(And(w, m), i);
      assert Bit(w, i) && off <= i < off + n;
    }
  }

  /** Testing a whole word tests its 64 bits. */
  lemma ZeroTest(w: Word64)
    ensures w == 0 <==> NoBits(w, 0, 64)
  {
    Pow64();
    ZeroBits(w, 64);
  }
}
