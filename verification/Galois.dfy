/**
  Arithmetic of the field with 256 elements, in which the erasure code of
  core/src/erasure.rs works: polynomials over one bit modulo x^8 + x^4 + x^3 + x^2 + 1.
 */
module Galois {
  import opened Basics

  function Add(a: Byte, b: Byte): Byte {
    a ^ b
  }

  function If(bit: bool, a: Byte): Byte {
    if bit then a else 0
  }

  /** Multiplication by x. */
  function Double(a: Byte): Byte {
    Add(a << 1, If(a & 0x80 != 0, 0x1D))
  }

  function Power(a: Byte, n: nat): Byte
    decreases n
  {
    if n == 0 then a else Double(Power(a, n - 1))
  }

  function Mask(i: nat): Byte {
    match i
    case 0 => 1
    case 1 => 2
    case 2 => 4
    case 3 => 8
    case 4 => 16
    case 5 => 32
    case 6 => 64
    case 7 => 128
    case _ => 0
  }

  predicate Bit(b: Byte, i: nat) {
    b & Mask(i) != 0
  }

  /** The sum of `Power(a, i)` over the first `n` bits of `b` that are set. */
  function Sum(a: Byte, b: Byte, n: nat): Byte
    decreases n
  {
    if n == 0 then 0 else Add(Sum(a, b, n - 1), If(Bit(b, n - 1), Power(a, n - 1)))
  }

  const BITS: nat := 8

  function Mul(a: Byte, b: Byte): Byte {
    Sum(a, b, BITS)
  }

  // ---------- Addition ----------

  lemma AddAssoc(a: Byte, b: Byte, c: Byte)
    ensures Add(Add(a, b), c) == Add(a, Add(b, c))
  {
  }

  lemma AddComm(a: Byte, b: Byte)
    ensures Add(a, b) == Add(b, a)
  {
  }

  lemma AddCancels(a: Byte, b: Byte)
    ensures Add(Add(a, b), b) == a && Add(a, a) == 0 && Add(a, 0) == a && Add(0, a) == a
  {
  }

  lemma Regroup(a: Byte, b: Byte, c: Byte, d: Byte)
    ensures Add(Add(a, b), Add(c, d)) == Add(Add(a, c), Add(b, d))
  {
    AddAssoc(a, b, Add(c, d));
    AddAssoc(b, c, d);
    AddComm(b, c);
    AddAssoc(c, b, d);
    AddAssoc(a, c, Add(b, d));
  }

  lemma IfAdditive(bit: bool, a: Byte, b: Byte)
    ensures If(bit, Add(a, b)) == Add(If(bit, a), If(bit, b))
  {
  }

  lemma IfXor(p: bool, q: bool, a: Byte)
    ensures If(p != q, a) == Add(If(p, a), If(q, a))
  {
  }

  // ---------- Single bits ----------

  lemma ShiftXor(a: Byte, b: Byte)
    ensures (a ^ b) << 1 == (a << 1) ^ (b << 1)
    ensures ((a ^ b) & 0x80 != 0) <==> ((a & 0x80 != 0) != (b & 0x80 != 0))
  {
  }

  lemma AndXor(b: Byte, c: Byte, m: Byte)
    ensures (b ^ c) & m == (b & m) ^ (c & m)
  {
  }

  lemma AndMask(b: Byte, i: nat)
    ensures b & Mask(i) == 0 || b & Mask(i) == Mask(i)
  {
  }

  lemma XorZero(x: Byte, y: Byte)
    ensures x ^ y == 0 <==> x == y
  {
  }

  lemma BitXor(b: Byte, c: Byte, i: nat)
    ensures Bit(b ^ c, i) <==> (Bit(b, i) != Bit(c, i))
  {
    AndXor(b, c, Mask(i));
    AndMask(b, i);
    AndMask(c, i);
    XorZero(b & Mask(i), c & Mask(i));
  }

  lemma BitShift(b: Byte, i: nat)
    requires i < 7
    ensures Bit(b << 1, i + 1) <==> Bit(b, i)
    ensures !Bit(b << 1, 0)
  {
  }

  // ---------- Multiplication is linear ----------

  lemma DoubleAdditive(a: Byte, b: Byte)
    ensures Double(Add(a, b)) == Add(Double(a), Double(b))
  {
    ShiftXor(a, b);
    IfXor(a & 0x80 != 0, b & 0x80 != 0, 0x1D);
    Regroup(a << 1, b << 1, If(a & 0x80 != 0, 0x1D), If(b & 0x80 != 0, 0x1D));
  }

  lemma {:induction false} PowerAdditive(a: Byte, b: Byte, n: nat)
    ensures Power(Add(a, b), n) == Add(Power(a, n), Power(b, n))
    decreases n
  {
    if n > 0 {
      PowerAdditive(a, b, n - 1);
      DoubleAdditive(Power(a, n - 1), Power(b, n - 1));
    }
  }

  lemma {:induction false} SumAdditive(a: Byte, b: Byte, c: Byte, n: nat)
    ensures Sum(Add(a, b), c, n) == Add(Sum(a, c, n), Sum(b, c, n))
    decreases n
  {
    if n == 0 {
      AddCancels(0, 0);
    } else {
      var s, t := Sum(a, c, n - 1), Sum(b, c, n - 1);
      SumAdditive(a, b, c, n - 1);
      if Bit(c, n - 1) {
        PowerAdditive(a, b, n - 1);
        Regroup(s, t, Power(a, n - 1), Power(b, n - 1));
      } else {
        AddCancels(s, 0);
        AddCancels(t, 0);
        AddCancels(Add(s, t), 0);
      }
    }
  }

  lemma AddTerms(s: Byte, t: Byte, p: bool, q: bool, a: Byte)
    ensures Add(Add(s, t), If(p != q, a)) == Add(Add(s, If(p, a)), Add(t, If(q, a)))
  {
    IfXor(p, q, a);
    Regroup(s, t, If(p, a), If(q, a));
  }

  /** `d` has the bits that exactly one of `b` and `c` has. */
  lemma {:induction false} SumXor(a: Byte, b: Byte, c: Byte, d: Byte, n: nat)
    requires forall i :: 0 <= i < n ==> (Bit(d, i) <==> (Bit(b, i) != Bit(c, i)))
    ensures Sum(a, d, n) == Add(Sum(a, b, n), Sum(a, c, n))
    decreases n
  {
    if n > 0 {
      SumXor(a, b, c, d, n - 1);
      AddTerms(Sum(a, b, n - 1), Sum(a, c, n - 1), Bit(b, n - 1), Bit(c, n - 1), Power(a, n - 1));
    } else {
      AddCancels(0, 0);
    }
  }

  lemma MulAdditiveLeft(a: Byte, b: Byte, c: Byte)
    ensures Mul(Add(a, b), c) == Add(Mul(a, c), Mul(b, c))
  {
    SumAdditive(a, b, c, 8);
  }

  lemma MulAdditiveRight(a: Byte, b: Byte, c: Byte)
    ensures Mul(a, Add(b, c)) == Add(Mul(a, b), Mul(a, c))
  {
    forall i | 0 <= i < 8
      ensures Bit(Add(b, c), i) <==> (Bit(b, i) != Bit(c, i))
    {
      BitXor(b, c, i);
    }
    SumXor(a, b, c, Add(b, c), 8);
  }

  // ---------- Multiplication is associative ----------

  lemma {:induction false} PowerOfDouble(a: Byte, n: nat)
    ensures Power(Double(a), n) == Power(a, n + 1)
    decreases n
  {
    if n > 0 {
      PowerOfDouble(a, n - 1);
    }
  }

  lemma {:induction false} DoubleOfSum(a: Byte, b: Byte, n: nat)
    ensures Double(Sum(a, b, n)) == Sum(Double(a), b, n)
    decreases n
  {
    assert Double(0) == 0;
    if n > 0 {
      DoubleOfSum(a, b, n - 1);
      PowerOfDouble(a, n - 1);
      DoubleAdditive(Sum(a, b, n - 1), If(Bit(b, n - 1), Power(a, n - 1)));
    }
  }

  lemma {:induction false} SumOfShift(a: Byte, b: Byte, n: nat)
    requires n <= 7
    ensures Sum(a, b << 1, n + 1) == Sum(Double(a), b, n)
    decreases n
  {
    if n == 0 {
      BitShift(b, 0);
      assert Sum(a, b << 1, 0) == 0;
      AddCancels(0, 0);
    } else {
      SumOfShift(a, b, n - 1);
      BitShift(b, n - 1);
      PowerOfDouble(a, n - 1);
    }
  }

  lemma {:induction false} SumOfZero(a: Byte, n: nat)
    ensures Sum(a, 0, n) == 0
    decreases n
  {
    if n > 0 {
      SumOfZero(a, n - 1);
      assert !Bit(0, n - 1);
      AddCancels(0, 0);
    }
  }

  lemma ReductionSum(a: Byte)
    ensures Mul(a, 0x1D) == Add(Add(Add(a, Power(a, 2)), Power(a, 3)), Power(a, 4))
  {
    assert Sum(a, 0x1D, 1) == a by {
      assert Sum(a, 0x1D, 0) == 0 && Bit(0x1D, 0);
      AddCancels(a, 0);
    }
    assert !Bit(0x1D, 1) && Bit(0x1D, 2) && Bit(0x1D, 3) && Bit(0x1D, 4);
    assert !Bit(0x1D, 5) && !Bit(0x1D, 6) && !Bit(0x1D, 7);
    AddCancels(a, 0);
    assert Sum(a, 0x1D, 2) == a;
    assert Sum(a, 0x1D, 5) == Add(Add(Add(a, Power(a, 2)), Power(a, 3)), Power(a, 4));
    AddCancels(Sum(a, 0x1D, 5), 0);
    assert Sum(a, 0x1D, 6) == Sum(a, 0x1D, 5);
    assert Sum(a, 0x1D, 7) == Sum(a, 0x1D, 5);
  }

  function ReducedEighth(a: Byte): Byte {
    Add(Add(Add(a, Power(a, 2)), Power(a, 3)), Power(a, 4))
  }

  /** For half a byte, eight doublings are worked out bit by bit. */
  lemma EightDoublings(a: Byte, a1: Byte, a2: Byte, a3: Byte, a4: Byte, a5: Byte, a6: Byte, a7: Byte)
    requires a & 0x0F == 0 || a & 0xF0 == 0
    requires a1 == Double(a) && a2 == Double(a1) && a3 == Double(a2) && a4 == Double(a3)
    requires a5 == Double(a4) && a6 == Double(a5) && a7 == Double(a6)
    ensures Double(a7) == Add(Add(Add(a, a2), a3), a4)
  {
  }

  lemma HalfReduces(a: Byte)
    requires a & 0x0F == 0 || a & 0xF0 == 0
    ensures Power(a, 8) == ReducedEighth(a)
  {
    assert Power(a, 1) == Double(a) && Power(a, 3) == Double(Power(a, 2)) && Power(a, 5) == Double(Power(a, 4));
    assert Power(a, 7) == Double(Power(a, 6));
    EightDoublings(a, Power(a, 1), Power(a, 2), Power(a, 3), Power(a, 4), Power(a, 5), Power(a, 6), Power(a, 7));
  }

  lemma ReducedEighthAdditive(a: Byte, b: Byte)
    ensures ReducedEighth(Add(a, b)) == Add(ReducedEighth(a), ReducedEighth(b))
  {
    PowerAdditive(a, b, 2);
    PowerAdditive(a, b, 3);
    PowerAdditive(a, b, 4);
    Regroup(a, b, Power(a, 2), Power(b, 2));
    Regroup(Add(a, Power(a, 2)), Add(b, Power(b, 2)), Power(a, 3), Power(b, 3));
    Regroup(Add(Add(a, Power(a, 2)), Power(a, 3)), Add(Add(b, Power(b, 2)), Power(b, 3)), Power(a, 4), Power(b, 4));
  }

  lemma Halves(a: Byte)
    ensures (a & 0xF0) & 0x0F == 0 && (a & 0x0F) & 0xF0 == 0 && Add(a & 0xF0, a & 0x0F) == a
  {
  }

  /** What `0x1D` stands for: x to the eighth power. */
  lemma Reduction(a: Byte)
    ensures Mul(a, 0x1D) == Power(a, 8)
  {
    ReductionSum(a);
    Halves(a);
    HalfReduces(a & 0xF0);
    HalfReduces(a & 0x0F);
    PowerAdditive(a & 0xF0, a & 0x0F, 8);
    ReducedEighthAdditive(a & 0xF0, a & 0x0F);
  }

  lemma DoubleOfMul(a: Byte, b: Byte)
    ensures Double(Mul(a, b)) == Mul(a, Double(b))
  {
    var top := Bit(b, 7);
    DoubleOfSum(a, b, 8);
    SumOfShift(a, b, 7);
    PowerOfDouble(a, 7);
    Reduction(a);
    SumOfZero(a, 8);
    assert Mul(a, If(top, 0x1D)) == If(top, Power(a, 8));
    MulAdditiveRight(a, b << 1, If(top, 0x1D));
  }

  lemma {:induction false} PowerOfMul(a: Byte, b: Byte, n: nat)
    ensures Power(Mul(a, b), n) == Mul(a, Power(b, n))
    decreases n
  {
    if n > 0 {
      PowerOfMul(a, b, n - 1);
      DoubleOfMul(a, Power(b, n - 1));
    }
  }

  lemma {:induction false} SumOfMul(a: Byte, b: Byte, c: Byte, n: nat)
    ensures Sum(Mul(a, b), c, n) == Mul(a, Sum(b, c, n))
    decreases n
  {
    SumOfZero(a, 8);
    if n > 0 {
      SumOfMul(a, b, c, n - 1);
      PowerOfMul(a, b, n - 1);
      MulAdditiveRight(a, Sum(b, c, n - 1), If(Bit(c, n - 1), Power(b, n - 1)));
    }
  }

  lemma MulAssoc(a: Byte, b: Byte, c: Byte)
    ensures Mul(Mul(a, b), c) == Mul(a, Mul(b, c))
  {
    SumOfMul(a, b, c, 8);
  }

  lemma MulUnits(a: Byte)
    ensures Mul(a, 0) == 0 && Mul(a, 1) == a
  {
  }
}
