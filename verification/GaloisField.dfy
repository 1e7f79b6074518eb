/** The field GF(2^8) of AES: bytes as polynomials over GF(2), modulo x^8 + x^4 + x^3 + x + 1
    (FIPS 197, section 4.2). */
module GaloisField {

  function FfAdd(a: bv8, b: bv8): bv8 {
    a ^ b
  }

  function Xtime(a: bv8): bv8 {
    if a & 0x80 != 0 then (a << 1) ^ 0x1b else a << 1
  }

  predicate Odd(b: bv8) {
    b & 1 != 0
  }

  function Half(b: bv8): bv8 {
    b >> 1
  }

  // The sum of t x^i over the bits i < n set in b.
  function ShiftAdd(t: bv8, b: bv8, n: nat): bv8
    decreases n
  {
    if n == 0 then 0 else FfAdd(if Odd(b) then t else 0, ShiftAdd(Xtime(t), Half(b), n - 1))
  }

  function FfMul(a: bv8, b: bv8): bv8 {
    ShiftAdd(a, b, 8)
  }

  // ---- Addition ----

  lemma AddCommutes(a: bv8, b: bv8)
    ensures FfAdd(a, b) == FfAdd(b, a)
  {
  }

  lemma AddAssociates(a: bv8, b: bv8, c: bv8)
    ensures FfAdd(FfAdd(a, b), c) == FfAdd(a, FfAdd(b, c))
  {
  }

  lemma AddZero(a: bv8)
    ensures FfAdd(0, a) == a == FfAdd(a, 0)
  {
  }

  lemma AddSelf(a: bv8)
    ensures FfAdd(a, a) == 0
  {
  }

  lemma AddSwaps(a: bv8, b: bv8, c: bv8, d: bv8)
    ensures FfAdd(FfAdd(a, b), FfAdd(c, d)) == FfAdd(FfAdd(a, c), FfAdd(b, d))
  {
    hide FfAdd;
    AddAssociates(a, b, FfAdd(c, d));
    AddAssociates(b, c, d);
    AddCommutes(b, c);
    AddAssociates(c, b, d);
    AddAssociates(a, c, FfAdd(b, d));
  }

  // ---- The loop ----

  lemma ShiftAddStep(r: bv8, t: bv8, b: bv8, n: nat)
    requires n > 0
    ensures FfAdd(r, ShiftAdd(t, b, n)) ==
            FfAdd(if Odd(b) then FfAdd(r, t) else r, ShiftAdd(Xtime(t), Half(b), n - 1))
  {
    hide FfAdd, Odd, Half, Xtime;
    var rest := ShiftAdd(Xtime(t), Half(b), n - 1);
    AddZero(rest);
    AddAssociates(r, t, rest);
  }

  lemma ShiftAddEnds(r: bv8, t: bv8, b: bv8)
    ensures FfAdd(r, ShiftAdd(t, b, 0)) == r
  {
  }

  method FfMultiply(a: bv8, b0: bv8) returns (r: bv8)
    ensures r == FfMul(a, b0)
  {
    hide FfAdd, Odd, Half, Xtime, ShiftAdd;
    AddZero(FfMul(a, b0));
    AddZero(a);
    ShiftAddStep(0, a, b0, 8);
    var temp, b := a, b0;
    r := 0;
    if Odd(b) {
      r := a;
    }
    b := Half(b);
    var i := 1;
    while i < 8
      invariant 1 <= i <= 8
      invariant FfAdd(r, ShiftAdd(Xtime(temp), b, 8 - i)) == FfMul(a, b0)
    {
      temp := Xtime(temp);
      ShiftAddStep(r, temp, b, 8 - i);
      if Odd(b) {
        r := FfAdd(r, temp);
      }
      b := Half(b);
      i := i + 1;
    }
    ShiftAddEnds(r, Xtime(temp), b);
  }

  // ---- Multiplication distributes and associates ----

  lemma XtimeAdds(a: bv8, b: bv8)
    ensures Xtime(FfAdd(a, b)) == FfAdd(Xtime(a), Xtime(b))
  {
    if a & 0x80 != 0 {
    }
    if b & 0x80 != 0 {
    }
  }

  lemma HalfAdds(a: bv8, b: bv8)
    ensures Half(FfAdd(a, b)) == FfAdd(Half(a), Half(b))
  {
  }

  lemma OddAdds(a: bv8, b: bv8)
    ensures Odd(FfAdd(a, b)) == (Odd(a) != Odd(b))
  {
    if a & 1 != 0 {
    }
    if b & 1 != 0 {
    }
  }

  // The contribution of the lowest bit of b.
  function Pick(b: bv8, t: bv8): bv8 {
    if Odd(b) then t else 0
  }

  lemma PickAdds(b: bv8, c: bv8, t: bv8)
    ensures Pick(FfAdd(b, c), t) == FfAdd(Pick(b, t), Pick(c, t))
  {
    hide FfAdd, Odd;
    OddAdds(b, c);
    AddZero(t);
    AddZero(0);
    AddSelf(t);
  }

  lemma PickTermAdds(b: bv8, t: bv8, u: bv8)
    ensures Pick(b, FfAdd(t, u)) == FfAdd(Pick(b, t), Pick(b, u))
  {
    hide FfAdd, Odd;
    AddZero(0);
  }

  lemma NoTerms(t: bv8, b: bv8)
    ensures ShiftAdd(t, b, 0) == 0
  {
  }

  lemma ShiftAddUnfolds(t: bv8, b: bv8, n: nat)
    requires n > 0
    ensures ShiftAdd(t, b, n) == FfAdd(Pick(b, t), ShiftAdd(Xtime(t), Half(b), n - 1))
  {
    hide FfAdd, Odd, Half, Xtime;
  }

  lemma {:induction false} ShiftAddRight(t: bv8, b: bv8, c: bv8, n: nat)
    ensures ShiftAdd(t, FfAdd(b, c), n) == FfAdd(ShiftAdd(t, b, n), ShiftAdd(t, c, n))
    decreases n
  {
    hide FfAdd, Odd, Half, Xtime, Pick;
    if n == 0 {
      AddZero(0);
    } else {
      hide ShiftAdd;
      ShiftAddUnfolds(t, FfAdd(b, c), n);
      ShiftAddUnfolds(t, b, n);
      ShiftAddUnfolds(t, c, n);
      HalfAdds(b, c);
      PickAdds(b, c, t);
      ShiftAddRight(Xtime(t), Half(b), Half(c), n - 1);
      AddSwaps(Pick(b, t), Pick(c, t), ShiftAdd(Xtime(t), Half(b), n - 1), ShiftAdd(Xtime(t), Half(c), n - 1));
    }
  }

  lemma {:induction false} ShiftAddLeft(t: bv8, u: bv8, b: bv8, n: nat)
    ensures ShiftAdd(FfAdd(t, u), b, n) == FfAdd(ShiftAdd(t, b, n), ShiftAdd(u, b, n))
    decreases n
  {
    hide FfAdd, Odd, Half, Xtime, Pick;
    if n == 0 {
      AddZero(0);
    } else {
      ShiftAddUnfolds(FfAdd(t, u), b, n);
      ShiftAddUnfolds(t, b, n);
      ShiftAddUnfolds(u, b, n);
      XtimeAdds(t, u);
      PickTermAdds(b, t, u);
      ShiftAddLeft(Xtime(t), Xtime(u), Half(b), n - 1);
      AddSwaps(Pick(b, t), Pick(b, u), ShiftAdd(Xtime(t), Half(b), n - 1), ShiftAdd(Xtime(u), Half(b), n - 1));
    }
  }

  lemma MulDistributesRight(a: bv8, b: bv8, c: bv8)
    ensures FfMul(a, FfAdd(b, c)) == FfAdd(FfMul(a, b), FfMul(a, c))
  {
    hide ShiftAdd, FfAdd;
    ShiftAddRight(a, b, c, 8);
  }

  lemma MulDistributesLeft(a: bv8, b: bv8, c: bv8)
    ensures FfMul(FfAdd(a, b), c) == FfAdd(FfMul(a, c), FfMul(b, c))
  {
    hide ShiftAdd, FfAdd;
    ShiftAddLeft(a, b, c, 8);
  }

  lemma {:induction false} ShiftAddZero(b: bv8, n: nat)
    ensures ShiftAdd(0, b, n) == 0
    decreases n
  {
    hide FfAdd, Odd, Half;
    if n > 0 {
      AddZero(0);
      ShiftAddZero(Half(b), n - 1);
    }
  }

  lemma {:induction false} ShiftAddXtime(t: bv8, b: bv8, n: nat)
    ensures ShiftAdd(Xtime(t), b, n) == Xtime(ShiftAdd(t, b, n))
    decreases n
  {
    hide FfAdd, Odd, Half, Xtime, Pick;
    XtimeZero();
    if n > 0 {
      ShiftAddUnfolds(t, b, n);
      ShiftAddUnfolds(Xtime(t), b, n);
      ShiftAddXtime(Xtime(t), Half(b), n - 1);
      XtimeAdds(Pick(b, t), ShiftAdd(Xtime(t), Half(b), n - 1));
      PickXtime(b, t);
    }
  }

  lemma XtimeZero()
    ensures Xtime(0) == 0
  {
  }

  lemma PickXtime(b: bv8, t: bv8)
    ensures Pick(b, Xtime(t)) == Xtime(Pick(b, t))
  {
    hide Xtime, Odd;
    XtimeZero();
  }

  lemma MulXtime(a: bv8, b: bv8)
    ensures FfMul(Xtime(a), b) == Xtime(FfMul(a, b))
  {
    hide Xtime, ShiftAdd;
    ShiftAddXtime(a, b, 8);
  }

  lemma MulZero(b: bv8)
    ensures FfMul(0, b) == 0
  {
    hide ShiftAdd;
    ShiftAddZero(b, 8);
  }

  lemma PickMul(c: bv8, t: bv8, b: bv8)
    ensures FfMul(Pick(c, t), b) == Pick(c, FfMul(t, b))
  {
    hide Odd, FfMul;
    MulZero(b);
  }

  // Multiplying by b commutes with multiplying by c.
  lemma {:induction false} MulThroughShiftAdd(t: bv8, c: bv8, n: nat, b: bv8)
    ensures FfMul(ShiftAdd(t, c, n), b) == ShiftAdd(FfMul(t, b), c, n)
    decreases n
  {
    hide FfAdd, Odd, Half, Xtime, Pick, FfMul;
    if n == 0 {
      MulZero(b);
    } else {
      ShiftAddUnfolds(t, c, n);
      ShiftAddUnfolds(FfMul(t, b), c, n);
      MulDistributesLeft(Pick(c, t), ShiftAdd(Xtime(t), Half(c), n - 1), b);
      MulThroughShiftAdd(Xtime(t), Half(c), n - 1, b);
      MulXtime(t, b);
      PickMul(c, t, b);
    }
  }

  lemma MulExchanges(a: bv8, b: bv8, c: bv8)
    ensures FfMul(FfMul(a, c), b) == FfMul(FfMul(a, b), c)
  {
    hide FfAdd, ShiftAdd;
    MulThroughShiftAdd(a, c, 8, b);
  }

  lemma HighBits(b: bv8)
    ensures ShiftAdd(0x10, b >> 4, 4) == b & 0xf0
  {
  }

  lemma MulOne(b: bv8)
    ensures FfMul(1, b) == b
  {
    HighBits(b);
    assert ShiftAdd(1, b, 8) == b;
  }

  lemma MulTwo(a: bv8)
    ensures FfMul(0x02, a) == Xtime(a)
  {
    hide FfMul, Xtime;
    MulXtime(1, a);
    MulOne(a);
    XtimeOne();
  }

  lemma XtimeOne()
    ensures Xtime(1) == 2
  {
  }

  lemma MulCommutes(a: bv8, b: bv8)
    ensures FfMul(a, b) == FfMul(b, a)
  {
    hide FfMul;
    MulOne(a);
    MulOne(b);
    MulExchanges(1, b, a);
  }

  lemma MulAssociates(a: bv8, b: bv8, c: bv8)
    ensures FfMul(FfMul(a, b), c) == FfMul(a, FfMul(b, c))
  {
    hide FfMul;
    MulCommutes(a, b);
    MulExchanges(b, c, a);
    MulCommutes(FfMul(b, c), a);
  }

  // ---- The reference: multiply the polynomials, then reduce modulo 0x11b ----

  ghost function Plus(p: bv16, q: bv16): bv16 {
    p ^ q
  }

  ghost function Raise(p: bv16): bv16 {
    p << 1
  }

  ghost function PolyProduct(p: bv16, b: bv8, n: nat): bv16
    decreases n
  {
    if n == 0 then 0 else Plus(if Odd(b) then p else 0, PolyProduct(Raise(p), Half(b), n - 1))
  }

  // The term x^(8 + n), and the modulus times x^n
  ghost function Term(n: nat): bv16 {
    if n == 0 then 0x100 else Raise(Term(n - 1))
  }

  ghost function Modulus(n: nat): bv16 {
    if n == 0 then 0x11b else Raise(Modulus(n - 1))
  }

  ghost predicate Has(p: bv16, term: bv16) {
    p & term != 0
  }

  ghost function Cancel(p: bv16, n: nat): bv16 {
    if Has(p, Term(n)) then Plus(p, Modulus(n)) else p
  }

  // Cancels the terms of degree 8 + n - 1, ..., 8.
  ghost function Reduce(p: bv16, n: nat): bv16
    decreases n
  {
    if n == 0 then p else Reduce(Cancel(p, n - 1), n - 1)
  }

  lemma PlusAssociates(p: bv16, q: bv16, r: bv16)
    ensures Plus(Plus(p, q), r) == Plus(p, Plus(q, r))
  {
  }

  lemma PlusCommutes(p: bv16, q: bv16)
    ensures Plus(p, q) == Plus(q, p)
  {
  }

  lemma PlusSelf(p: bv16)
    ensures Plus(p, p) == 0
  {
  }

  lemma PlusZero(p: bv16)
    ensures Plus(p, 0) == p == Plus(0, p)
  {
  }

  lemma RaiseAdds(p: bv16, q: bv16)
    ensures Raise(Plus(p, q)) == Plus(Raise(p), Raise(q))
  {
  }

  ghost predicate HighTerm(term: bv16) {
    term in {0x100, 0x200, 0x400, 0x800, 0x1000, 0x2000, 0x4000}
  }

  lemma TermValue(n: nat)
    requires n < 7
    ensures HighTerm(Term(n))
  {
    assert Term(1) == 0x200 && Term(2) == 0x400;
    assert Term(3) == 0x800 && Term(4) == 0x1000;
    assert Term(5) == 0x2000 && Term(6) == 0x4000;
  }

  lemma HasAdds(p: bv16, q: bv16, term: bv16)
    requires HighTerm(term)
    ensures Has(Plus(p, q), term) == (Has(p, term) != Has(q, term))
  {
    if term == 0x100 {
    } else if term == 0x200 {
    } else if term == 0x400 {
    } else if term == 0x800 {
    } else if term == 0x1000 {
    } else if term == 0x2000 {
    }
  }

  lemma CancelAdds(p: bv16, q: bv16, n: nat)
    requires n < 7
    ensures Cancel(Plus(p, q), n) == Plus(Cancel(p, n), Cancel(q, n))
  {
    hide Has, Plus, Term, Modulus;
    var m := Modulus(n);
    TermValue(n);
    HasAdds(p, q, Term(n));
    PlusAssociates(p, q, m);
    PlusAssociates(p, m, q);
    PlusCommutes(m, q);
    PlusAssociates(p, m, Plus(q, m));
    PlusAssociates(m, q, m);
    PlusAssociates(q, m, m);
    PlusSelf(m);
    PlusZero(q);
  }

  lemma {:induction false} ReduceAdds(p: bv16, q: bv16, n: nat)
    requires n <= 7
    ensures Reduce(Plus(p, q), n) == Plus(Reduce(p, n), Reduce(q, n))
    decreases n
  {
    hide Cancel, Plus;
    if n > 0 {
      CancelAdds(p, q, n - 1);
      ReduceAdds(Cancel(p, n - 1), Cancel(q, n - 1), n - 1);
    }
  }

  lemma HasRaised(p: bv16, term: bv16)
    requires HighTerm(term)
    ensures Has(Raise(p), Raise(term)) == Has(p, term)
  {
  }

  lemma CancelRaised(p: bv16, n: nat)
    requires n < 6
    ensures Cancel(Raise(p), n + 1) == Raise(Cancel(p, n))
  {
    hide Has, Plus, Raise;
    TermValue(n);
    HasRaised(p, Term(n));
    RaiseAdds(p, Modulus(n));
  }

  lemma {:induction false} ReduceRaised(p: bv16, n: nat)
    requires n < 7
    ensures Reduce(Raise(p), n + 1) == Cancel(Raise(Reduce(p, n)), 0)
    decreases n
  {
    hide Cancel, Raise;
    if n > 0 {
      CancelRaised(p, n - 1);
      ReduceRaised(Cancel(p, n - 1), n - 1);
    }
  }

  ghost function Widen(a: bv8): bv16 {
    a as bv16
  }

  lemma WidenAdds(a: bv8, b: bv8)
    ensures Widen(FfAdd(a, b)) == Plus(Widen(a), Widen(b))
  {
  }

  lemma CancelIsXtime(a: bv8)
    ensures Cancel(Raise(Widen(a)), 0) == Widen(Xtime(a))
  {
    if a & 0x80 != 0 {
    }
  }

  lemma HasBelow(p: bv16, term: bv16)
    requires HighTerm(term) && p < term
    ensures !Has(p, term)
  {
  }

  lemma HasSmall(p: bv16, term: bv16)
    requires HighTerm(term) && p < 0x100
    ensures !Has(p, term)
  {
  }

  lemma RaisedBelow(p: bv16, term: bv16)
    requires HighTerm(term) && p < term
    ensures Raise(p) < Raise(term)
  {
  }

  lemma {:induction false} ReduceSmall(p: bv16, n: nat)
    requires n <= 7 && p < 0x100
    ensures Reduce(p, n) == p
    decreases n
  {
    hide Has, Plus, HighTerm;
    if n > 0 {
      TermValue(n - 1);
      HasSmall(p, Term(n - 1));
      ReduceSmall(p, n - 1);
    }
  }

  lemma WidenSmall(a: bv8)
    ensures Widen(a) < 0x100
  {
  }

  // Multiplying the polynomial by x multiplies its remainder by x.
  lemma ReduceTimesX(p: bv16, t: bv8)
    requires p < Term(6) && Reduce(p, 7) == Widen(t)
    ensures Reduce(Raise(p), 7) == Widen(Xtime(t))
  {
    assert Reduce(p, 7) == Reduce(Cancel(p, 6), 6);
    hide Reduce, Raise, Has, HighTerm, Term, Plus, Xtime, Modulus;
    TermValue(6);
    HasBelow(p, Term(6));
    ReduceRaised(p, 6);
    CancelIsXtime(t);
  }

  // One term of the product and the terms after it.
  lemma PartsReduce(odd: bool, p: bv16, rest: bv16, t: bv8, u: bv8)
    requires Reduce(p, 7) == Widen(t) && Reduce(rest, 7) == Widen(u)
    ensures Reduce(Plus(if odd then p else 0, rest), 7) == Widen(FfAdd(if odd then t else 0, u))
  {
    hide FfAdd, Reduce, Plus, Widen;
    ReduceSmall(0, 7);
    WidenZero();
    ReduceAdds(if odd then p else 0, rest, 7);
    WidenAdds(if odd then t else 0, u);
  }

  lemma ProductUnfolds(p: bv16, b: bv8, n: nat)
    ensures PolyProduct(p, b, 0) == 0
    ensures n > 0 ==> PolyProduct(p, b, n) == Plus(if Odd(b) then p else 0, PolyProduct(Raise(p), Half(b), n - 1))
  {
    hide Plus, Odd, Raise, Half;
  }

  lemma {:induction false} ProductReduces(p: bv16, t: bv8, b: bv8, n: nat)
    requires n <= 8 && p < Term(8 - n) && Reduce(p, 7) == Widen(t)
    ensures Reduce(PolyProduct(p, b, n), 7) == Widen(ShiftAdd(t, b, n))
    decreases n
  {
    hide FfAdd, Odd, Half, Xtime, Reduce, Plus, Raise, Term, HighTerm, Widen, PolyProduct, ShiftAdd;
    ProductUnfolds(p, b, n);
    NoTerms(t, b);
    ReduceSmall(0, 7);
    WidenZero();
    if n > 0 {
      ShiftAddUnfolds(t, b, n);
      if n > 1 {
        TermRises(p, 8 - n);
        ReduceTimesX(p, t);
        ProductReduces(Raise(p), Xtime(t), Half(b), n - 1);
      } else {
        ProductUnfolds(Raise(p), Half(b), 0);
        NoTerms(Xtime(t), Half(b));
      }
      PartsReduce(Odd(b), p, PolyProduct(Raise(p), Half(b), n - 1), t, ShiftAdd(Xtime(t), Half(b), n - 1));
    }
  }

  lemma WidenZero()
    ensures Widen(0) == 0
  {
  }

  lemma TermRises(p: bv16, n: nat)
    requires n < 7 && p < Term(n)
    ensures p < Term(6) && Raise(p) < Term(n + 1)
  {
    hide Raise;
    TermValue(n);
    RaisedBelow(p, Term(n));
    TermsRise(n);
  }

  lemma TermsRise(n: nat)
    requires n < 7
    ensures Term(n) <= Term(6)
  {
    assert Term(1) == 0x200 && Term(2) == 0x400;
    assert Term(3) == 0x800 && Term(4) == 0x1000;
    assert Term(5) == 0x2000 && Term(6) == 0x4000;
  }

  /** FIPS 197, section 4.2: the product of the polynomials, modulo x^8 + x^4 + x^3 + x + 1. */
  lemma MulIsPolynomialProduct(a: bv8, b: bv8)
    ensures Widen(FfMul(a, b)) == Reduce(PolyProduct(Widen(a), b, 8), 7)
  {
    hide ShiftAdd, Reduce, PolyProduct, Widen, Term;
    FirstTerm();
    WidenSmall(a);
    ReduceSmall(Widen(a), 7);
    ProductReduces(Widen(a), a, b, 8);
  }

  lemma FirstTerm()
    ensures Term(0) == 0x100
  {
  }
}
