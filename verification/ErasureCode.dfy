/**
  The (3,5) code as it acts on one byte position: three data bytes, two parity bytes,
  and the data found again from any three of the five. The codec crate itself is not
  part of this model; this is a code of its shape, with all that is needed proved.
 */
module ErasureCode {
  import opened Basics
  import opened Galois

  /** Three data bytes. */
  datatype Word = Word(x: Byte, y: Byte, z: Byte) {
    function At(i: nat): Byte
      requires i < 3
    {
      if i == 0 then x else if i == 1 then y else z
    }
  }

  const COEFFICIENTS: Word := Word(15, 8, 6)

  function Total(w: Word): Byte {
    Add(Add(w.x, w.y), w.z)
  }

  /** Each byte as it enters the second parity byte. */
  function Scaled(w: Word): Word {
    Word(Mul(w.x, COEFFICIENTS.x), Mul(w.y, COEFFICIENTS.y), Mul(w.z, COEFFICIENTS.z))
  }

  function Encoded(w: Word, i: nat): Byte
    requires i < 5
  {
    if i < 3 then w.At(i) else if i == 3 then Total(w) else Total(Scaled(w))
  }

  // ---------- Solving for missing bytes ----------

  function Reciprocal(c: Byte): Byte {
    if c == 6 then 0x7a else if c == 7 then 0xba else if c == 8 then 0xad
    else if c == 9 then 0x9d else if c == 14 then 0x5d else 0x96
  }

  predicate IsDivisor(c: Byte) {
    c == 6 || c == 7 || c == 8 || c == 9 || c == 14 || c == 15
  }

  lemma ReciprocalInverts(c: Byte)
    requires IsDivisor(c)
    ensures Mul(c, Reciprocal(c)) == 1
  {
  }

  lemma DivisionUndoes(y: Byte, c: Byte)
    requires IsDivisor(c)
    ensures Mul(Mul(y, c), Reciprocal(c)) == y
  {
    var r := Reciprocal(c);
    ReciprocalInverts(c);
    MulAssoc(y, c, r);
    MulUnits(y);
  }

  /** One position of the five shards; `None` where the shard is missing. */
  type Column = c: seq<Option<Byte>> | |c| == 5 witness [None, None, None, None, None]

  function One(o: Option<Byte>): nat {
    if o.Some? then 1 else 0
  }

  function Present(column: Column): nat {
    One(column[0]) + One(column[1]) + One(column[2]) + One(column[3]) + One(column[4])
  }

  function OrZero(o: Option<Byte>): Byte {
    if o.Some? then o.value else 0
  }

  /** The known data bytes, and zero for the others. */
  function Known(column: Column): Word {
    Word(OrZero(column[0]), OrZero(column[1]), OrZero(column[2]))
  }

  /** What the missing data bytes contribute to parity byte `i`. */
  function Residue(column: Column, i: nat): Byte
    requires 3 <= i < 5 && column[i].Some?
  {
    Add(column[i].value, Encoded(Known(column), i))
  }

  /** The byte at `t`, when it is the only data byte missing. */
  function SolveOne(column: Column, t: nat): Byte
    requires t < 3 && (column[3].Some? || column[4].Some?)
  {
    if column[3].Some? then Residue(column, 3)
    else Mul(Residue(column, 4), Reciprocal(COEFFICIENTS.At(t)))
  }

  /** The byte at `t`, when those at `t` and `u` are missing. */
  function SolveTwo(column: Column, t: nat, u: nat): Byte
    requires t < 3 && u < 3 && column[3].Some? && column[4].Some?
  {
    var c, d := COEFFICIENTS.At(t), COEFFICIENTS.At(u);
    Mul(Add(Residue(column, 4), Mul(Residue(column, 3), d)), Reciprocal(Add(c, d)))
  }

  function Recovered(column: Column, t: nat): Byte
    requires t < 3 && Present(column) >= 3
  {
    var u, v := (t + 1) % 3, (t + 2) % 3;
    if column[t].Some? then column[t].value
    else if column[u].Some? && column[v].Some? then SolveOne(column, t)
    else SolveTwo(column, t, if column[u].None? then u else v)
  }

  ghost predicate Carries(column: Column, w: Word) {
    forall i :: 0 <= i < 5 && column[i].Some? ==> column[i].value == Encoded(w, i)
  }

  lemma ZeroTimes(a: Byte, c: Byte)
    requires a == 0
    ensures Mul(a, c) == 0
  {
    AddCancels(a, a);
    MulAdditiveLeft(a, a, c);
    AddCancels(Mul(a, c), Mul(a, c));
  }

  function Plus(v: Word, w: Word): Word {
    Word(Add(v.x, w.x), Add(v.y, w.y), Add(v.z, w.z))
  }

  lemma TotalAdditive(v: Word, w: Word)
    ensures Total(Plus(v, w)) == Add(Total(v), Total(w))
  {
    Regroup(v.x, w.x, v.y, w.y);
    Regroup(Add(v.x, v.y), Add(w.x, w.y), v.z, w.z);
  }

  lemma ScaledAdditive(v: Word, w: Word)
    ensures Scaled(Plus(v, w)) == Plus(Scaled(v), Scaled(w))
  {
    MulAdditiveLeft(v.x, w.x, COEFFICIENTS.x);
    MulAdditiveLeft(v.y, w.y, COEFFICIENTS.y);
    MulAdditiveLeft(v.z, w.z, COEFFICIENTS.z);
  }

  lemma ParityAdditive(v: Word, w: Word)
    ensures Total(Scaled(Plus(v, w))) == Add(Total(Scaled(v)), Total(Scaled(w)))
  {
    var v', w' := Scaled(v), Scaled(w);
    ScaledAdditive(v, w);
    TotalAdditive(v', w');
    assert Scaled(Plus(v, w)) == Plus(v', w');
  }

  lemma EncodedAdditive(v: Word, w: Word, i: nat)
    requires i < 5
    ensures Encoded(Plus(v, w), i) == Add(Encoded(v, i), Encoded(w, i))
  {
    if i == 4 {
      ParityAdditive(v, w);
    } else if i == 3 {
      TotalAdditive(v, w);
    }
  }

  function ZeroIf(o: Option<Byte>, b: Byte): Byte {
    if o.Some? then 0 else b
  }

  /** The data bytes that are missing, and zero for the others. */
  function Missing(column: Column, w: Word): Word {
    Word(ZeroIf(column[0], w.x), ZeroIf(column[1], w.y), ZeroIf(column[2], w.z))
  }

  lemma MissingAt(column: Column, w: Word, t: nat)
    requires t < 3
    ensures Missing(column, w).At(t) == if column[t].Some? then 0 else w.At(t)
  {
  }

  lemma ResidueIsMissing(column: Column, w: Word, i: nat)
    requires Carries(column, w) && 3 <= i < 5 && column[i].Some?
    ensures Residue(column, i) == Encoded(Missing(column, w), i)
  {
    var known, missing := Known(column), Missing(column, w);
    AddCancels(w.x, 0);
    AddCancels(w.y, 0);
    AddCancels(w.z, 0);
    assert column[0].Some? ==> w.x == Encoded(w, 0);
    assert column[1].Some? ==> w.y == Encoded(w, 1);
    assert column[2].Some? ==> w.z == Encoded(w, 2);
    assert w == Plus(missing, known);
    EncodedAdditive(missing, known, i);
    AddCancels(Encoded(missing, i), Encoded(known, i));
  }

  lemma SumsWithZero(a: Byte, b: Byte)
    ensures Add(Add(0, a), b) == Add(a, b) && Add(Add(a, 0), b) == Add(a, b) && Add(Add(a, b), 0) == Add(a, b)
    ensures Add(a, b) == Add(b, a)
  {
    AddCancels(a, 0);
    AddCancels(Add(a, b), 0);
    AddComm(a, b);
  }

  lemma TotalOfTwo(m: Word, t: nat, u: nat)
    requires t < 3 && u < 3 && t != u && m.At(3 - t - u) == 0
    ensures Total(m) == Add(m.At(t), m.At(u))
  {
    if t + u == 1 {
      SumsWithZero(m.x, m.y);
    } else if t + u == 2 {
      SumsWithZero(m.x, m.z);
    } else {
      SumsWithZero(m.y, m.z);
    }
  }

  lemma ScaledAt(m: Word, t: nat)
    requires t < 3
    ensures Scaled(m).At(t) == Mul(m.At(t), COEFFICIENTS.At(t))
  {
  }

  /** Parity of a word that is zero except at two positions. */
  lemma ParityOfTwo(m: Word, t: nat, u: nat)
    requires t < 3 && u < 3 && t != u && m.At(3 - t - u) == 0
    ensures Encoded(m, 3) == Add(m.At(t), m.At(u))
    ensures Encoded(m, 4) == Add(Mul(m.At(t), COEFFICIENTS.At(t)), Mul(m.At(u), COEFFICIENTS.At(u)))
  {
    assert Encoded(m, 3) == Add(m.At(t), m.At(u)) by {
      TotalOfTwo(m, t, u);
    }
    ScaledAt(m, t);
    ScaledAt(m, u);
    ScaledAt(m, 3 - t - u);
    ZeroTimes(m.At(3 - t - u), COEFFICIENTS.At(3 - t - u));
    TotalOfTwo(Scaled(m), t, u);
  }

  lemma CoefficientsDiffer(t: nat, u: nat)
    requires t < 3 && u < 3
    ensures IsDivisor(COEFFICIENTS.At(t))
    ensures t != u ==> IsDivisor(Add(COEFFICIENTS.At(t), COEFFICIENTS.At(u)))
  {
  }

  lemma SolveOneSolves(column: Column, w: Word, t: nat)
    requires Carries(column, w) && t < 3 && column[t].None? && (column[3].Some? || column[4].Some?)
    requires forall k :: 0 <= k < 3 && k != t ==> column[k].Some?
    ensures SolveOne(column, t) == w.At(t)
  {
    var m, u, c := Missing(column, w), (t + 1) % 3, COEFFICIENTS.At(t);
    MissingAt(column, w, t);
    MissingAt(column, w, u);
    MissingAt(column, w, 3 - t - u);
    if column[3].Some? {
      ResidueIsMissing(column, w, 3);
      TotalOfTwo(m, t, u);
      AddCancels(w.At(t), 0);
    } else {
      ResidueIsMissing(column, w, 4);
      ParityOfTwo(m, t, u);
      ZeroTimes(m.At(u), COEFFICIENTS.At(u));
      AddCancels(Mul(w.At(t), c), 0);
      CoefficientsDiffer(t, t);
      DivisionUndoes(w.At(t), c);
    }
  }

  /** Two equations in two unknowns. */
  lemma TwoUnknowns(y: Byte, z: Byte, c: Byte, d: Byte)
    requires IsDivisor(Add(c, d))
    ensures Mul(Add(Add(Mul(y, c), Mul(z, d)), Mul(Add(y, z), d)), Reciprocal(Add(c, d))) == y
  {
    MulAdditiveLeft(y, z, d);
    MulAdditiveRight(y, c, d);
    Regroup(Mul(y, c), Mul(z, d), Mul(y, d), Mul(z, d));
    AddCancels(Mul(z, d), 0);
    AddCancels(Mul(y, Add(c, d)), 0);
    DivisionUndoes(y, Add(c, d));
  }

  lemma TwoResidues(column: Column, w: Word, t: nat, u: nat)
    requires Carries(column, w) && t < 3 && u < 3 && t != u && column[3].Some? && column[4].Some?
    requires column[t].None? && column[u].None? && column[3 - t - u].Some?
    ensures Residue(column, 3) == Add(w.At(t), w.At(u))
    ensures Residue(column, 4) == Add(Mul(w.At(t), COEFFICIENTS.At(t)), Mul(w.At(u), COEFFICIENTS.At(u)))
  {
    var m := Missing(column, w);
    assert m.At(t) == w.At(t) && m.At(u) == w.At(u) && m.At(3 - t - u) == 0 by {
      MissingAt(column, w, t);
      MissingAt(column, w, u);
      MissingAt(column, w, 3 - t - u);
    }
    ParityOfTwo(m, t, u);
    assert Residue(column, 3) == Encoded(m, 3) by {
      ResidueIsMissing(column, w, 3);
    }
    assert Residue(column, 4) == Encoded(m, 4) by {
      ResidueIsMissing(column, w, 4);
    }
  }

  lemma SolveTwoSolves(column: Column, w: Word, t: nat, u: nat)
    requires Carries(column, w) && t < 3 && u < 3 && t != u && column[3].Some? && column[4].Some?
    requires column[t].None? && column[u].None? && column[3 - t - u].Some?
    ensures SolveTwo(column, t, u) == w.At(t)
  {
    var y, z, c, d := w.At(t), w.At(u), COEFFICIENTS.At(t), COEFFICIENTS.At(u);
    TwoResidues(column, w, t, u);
    CoefficientsDiffer(t, u);
    TwoUnknowns(y, z, c, d);
  }

  /** Any three of the five bytes give the data back. */
  lemma AnyThreeRecover(column: Column, w: Word, t: nat)
    requires Carries(column, w) && t < 3 && Present(column) >= 3
    ensures Recovered(column, t) == w.At(t)
  {
    var u, v := (t + 1) % 3, (t + 2) % 3;
    if column[t].Some? {
      assert w.At(t) == Encoded(w, t);
    } else if column[u].Some? && column[v].Some? {
      SolveOneSolves(column, w, t);
    } else if column[u].None? {
      assert v == 3 - t - u;
      SolveTwoSolves(column, w, t, u);
    } else {
      assert u == 3 - t - v;
      SolveTwoSolves(column, w, t, v);
    }
  }

  // ---------- The code is evaluation of a polynomial ----------

  function Evaluate(c0: Byte, c1: Byte, c2: Byte, t: Byte): Byte {
    Add(Add(c0, Mul(c1, t)), Mul(c2, Mul(t, t)))
  }

  lemma Squares()
    ensures Mul(2, 2) == 4 && Mul(3, 3) == 5 && Mul(4, 4) == 16
  {
  }

  lemma TwoBySix()
    ensures Mul(2, 6) == 12
  {
  }

  lemma FourBySix()
    ensures Mul(4, 6) == 24
  {
  }

  /** The value where `t` and its square are known. */
  lemma ValueAt(c0: Byte, c1: Byte, c2: Byte, t: Byte, square: Byte)
    requires Mul(t, t) == square
    ensures Evaluate(c0, c1, c2, t) == Add(Add(c0, Mul(c1, t)), Mul(c2, square))
  {
  }

  lemma FirstValues(c0: Byte, c1: Byte, c2: Byte)
    ensures Evaluate(c0, c1, c2, 0) == Add(Add(c0, 0), 0)
    ensures Evaluate(c0, c1, c2, 1) == Add(Add(c0, c1), c2)
    ensures Evaluate(c0, c1, c2, 2) == Add(Add(c0, Mul(c1, 2)), Mul(c2, 4))
  {
    MulUnits(0);
    MulUnits(1);
    MulUnits(c1);
    MulUnits(c2);
    Squares();
    ValueAt(c0, c1, c2, 0, 0);
    ValueAt(c0, c1, c2, 1, 1);
    ValueAt(c0, c1, c2, 2, 4);
  }

  lemma LastValues(c0: Byte, c1: Byte, c2: Byte)
    ensures Evaluate(c0, c1, c2, 3) == Add(Add(c0, Mul(c1, Add(1, 2))), Mul(c2, Add(1, 4)))
    ensures Evaluate(c0, c1, c2, 4) == Add(Add(c0, Mul(c1, Add(8, Mul(2, 6)))), Mul(c2, Add(8, Mul(4, 6))))
  {
    Squares();
    TwoBySix();
    FourBySix();
    assert Add(1, 2) == 3 && Add(1, 4) == 5 && Add(8, 12) == 4 && Add(8, 24) == 16;
    ValueAt(c0, c1, c2, 3, 5);
    ValueAt(c0, c1, c2, 4, 16);
  }

  lemma CoefficientsSum(c: Byte)
    ensures Add(Add(Mul(c, 15), Mul(c, 8)), Mul(c, 6)) == c
  {
    MulAdditiveRight(c, 15, 8);
    MulAdditiveRight(c, 7, 6);
    assert Add(15, 8) == 7 && Add(7, 6) == 1;
    MulUnits(c);
  }

  lemma ConstantTerm(c: Byte)
    ensures Encoded(Word(c, c, c), 3) == c && Encoded(Word(c, c, c), 4) == c
  {
    assert Encoded(Word(c, c, c), 3) == c by {
      AddCancels(c, c);
    }
    assert Encoded(Word(c, c, c), 4) == c by {
      CoefficientsSum(c);
    }
  }

  /** A term that is zero at 0, `c` at 1 and `x` times as much at 2. */
  lemma HigherTerm(c: Byte, x: Byte)
    ensures Encoded(Word(0, c, Mul(c, x)), 3) == Mul(c, Add(1, x))
    ensures Encoded(Word(0, c, Mul(c, x)), 4) == Mul(c, Add(8, Mul(x, 6)))
  {
    ParityOfTwo(Word(0, c, Mul(c, x)), 1, 2);
    MulUnits(c);
    MulAdditiveRight(c, 1, x);
    MulAssoc(c, x, 6);
    MulAdditiveRight(c, 8, Mul(x, 6));
  }

  lemma ThreeTerms(constant: Word, linear: Word, square: Word, i: nat)
    requires i < 5
    ensures Encoded(Plus(Plus(constant, linear), square), i)
         == Add(Add(Encoded(constant, i), Encoded(linear, i)), Encoded(square, i))
  {
    EncodedAdditive(constant, linear, i);
    EncodedAdditive(Plus(constant, linear), square, i);
  }

  function FirstThree(c0: Byte, c1: Byte, c2: Byte): Word {
    Word(Evaluate(c0, c1, c2, 0), Evaluate(c0, c1, c2, 1), Evaluate(c0, c1, c2, 2))
  }

  lemma FirstThreeTerms(c0: Byte, c1: Byte, c2: Byte)
    ensures FirstThree(c0, c1, c2)
         == Plus(Plus(Word(c0, c0, c0), Word(0, c1, Mul(c1, 2))), Word(0, c2, Mul(c2, 4)))
  {
    FirstValues(c0, c1, c2);
  }

  lemma ThirdParity(c0: Byte, c1: Byte, c2: Byte)
    ensures Encoded(FirstThree(c0, c1, c2), 3) == Evaluate(c0, c1, c2, 3)
  {
    FirstThreeTerms(c0, c1, c2);
    ThreeTerms(Word(c0, c0, c0), Word(0, c1, Mul(c1, 2)), Word(0, c2, Mul(c2, 4)), 3);
    ConstantTerm(c0);
    HigherTerm(c1, 2);
    HigherTerm(c2, 4);
    LastValues(c0, c1, c2);
  }

  lemma FourthParity(c0: Byte, c1: Byte, c2: Byte)
    ensures Encoded(FirstThree(c0, c1, c2), 4) == Evaluate(c0, c1, c2, 4)
  {
    FirstThreeTerms(c0, c1, c2);
    ThreeTerms(Word(c0, c0, c0), Word(0, c1, Mul(c1, 2)), Word(0, c2, Mul(c2, 4)), 4);
    ConstantTerm(c0);
    HigherTerm(c1, 2);
    HigherTerm(c2, 4);
    LastValues(c0, c1, c2);
  }

  /** The polynomial through three data bytes, by its coefficients in ascending order. */
  function Interpolant(w: Word): Word {
    var sum := Add(w.x, w.y);
    var c2 := Mul(Add(Add(w.x, Mul(sum, 2)), w.z), Reciprocal(6));
    Word(w.x, Add(sum, c2), c2)
  }

  lemma SixTimes(s: Byte)
    ensures var c := Mul(s, Reciprocal(6)); Add(Mul(c, 2), Mul(c, 4)) == s
  {
    var r := Reciprocal(6);
    var c := Mul(s, r);
    assert Mul(r, 6) == 1;
    MulAdditiveRight(c, 2, 4);
    assert Add(2, 4) == 6;
    MulAssoc(s, r, 6);
    MulUnits(s);
  }

  lemma InterpolantAtOne(a: Byte, b: Byte, c: Byte)
    ensures Add(Add(a, Add(Add(a, b), c)), c) == b
  {
    AddAssoc(a, b, c);
    AddAssoc(a, a, Add(b, c));
    AddCancels(a, 0);
    AddCancels(Add(b, c), 0);
    AddCancels(b, c);
  }

  /** `s` is what the terms of degree one and two leave over from `z`. */
  lemma InterpolantAtTwo(a: Byte, d: Byte, z: Byte, p: Byte, q: Byte)
    requires Add(p, q) == Add(Add(a, d), z)
    ensures Add(Add(a, Add(d, p)), q) == z
  {
    AddAssoc(a, d, p);
    AddAssoc(Add(a, d), p, q);
    AddAssoc(Add(a, d), Add(a, d), z);
    AddCancels(Add(a, d), 0);
    AddCancels(z, 0);
  }

  lemma FitsAtOne(w: Word, c: Word)
    requires c == Interpolant(w)
    ensures Add(Add(c.x, c.y), c.z) == w.y
  {
    InterpolantAtOne(w.x, w.y, c.z);
  }

  lemma FitsAtTwo(w: Word, c: Word)
    requires c == Interpolant(w)
    ensures Add(Add(c.x, Mul(c.y, 2)), Mul(c.z, 4)) == w.z
  {
    var sum := Add(w.x, w.y);
    var d := Mul(sum, 2);
    SixTimes(Add(Add(w.x, d), w.z));
    MulAdditiveLeft(sum, c.z, 2);
    InterpolantAtTwo(w.x, d, w.z, Mul(c.z, 2), Mul(c.z, 4));
  }

  lemma InterpolantFits(w: Word, c: Word)
    requires c == Interpolant(w)
    ensures FirstThree(c.x, c.y, c.z) == w
  {
    FirstValues(c.x, c.y, c.z);
    AddCancels(c.x, 0);
    FitsAtOne(w, c);
    FitsAtTwo(w, c);
  }

  /** The point at which shard `i` evaluates the polynomial. */
  function Point(i: nat): Byte
    requires i < 5
  {
    if i == 0 then 0 else if i == 1 then 1 else if i == 2 then 2 else if i == 3 then 3 else 4
  }

  lemma DataIsEvaluation(c: Word, w: Word, i: nat)
    requires i < 3 && w == FirstThree(c.x, c.y, c.z)
    ensures w.At(i) == Evaluate(c.x, c.y, c.z, Point(i))
  {
    var t := Point(i);
    if i == 0 {
      assert t == 0 && w.At(i) == w.x;
    } else if i == 1 {
      assert t == 1 && w.At(i) == w.y;
    } else {
      assert t == 2 && w.At(i) == w.z;
    }
  }

  lemma ParityIsEvaluation(c: Word, i: nat)
    requires i == 3 || i == 4
    ensures Encoded(FirstThree(c.x, c.y, c.z), i) == Evaluate(c.x, c.y, c.z, Point(i))
  {
    if i == 3 {
      ThirdParity(c.x, c.y, c.z);
    } else {
      FourthParity(c.x, c.y, c.z);
    }
  }

  /** The five bytes of every word are the values at 0 to 4 of a polynomial of degree below
      three: the one through the data bytes, which the parity bytes continue. */
  lemma CodeIsEvaluation(w: Word, c: Word, i: nat)
    requires c == Interpolant(w) && i < 5
    ensures Encoded(w, i) == Evaluate(c.x, c.y, c.z, Point(i))
  {
    InterpolantFits(w, c);
    if i < 3 {
      DataIsEvaluation(c, w, i);
    } else {
      ParityIsEvaluation(c, i);
    }
  }
}
