/** A reference meaning for expressions: the complex value an expression
    denotes once its variables are given values. Powers with a natural
    exponent are repeated products; a negative integer exponent of a nonzero
    base is the power of the reciprocal; any other power (a root, or a
    negative power of zero) has no single agreed value, so it is read
    through the parameter `other`. */
module Semantics {
  import opened Numbers
  import opened Exprs
  import opened Ops

  /** The value of an empty group of `op`. */
  function Unit(op: Op): Complex
  {
    if op == Add then CZero else COne
  }

  function Apply(op: Op, x: Complex, y: Complex): Complex
  {
    if op == Add then CAdd(x, y) else CMul(x, y)
  }

  function PowValue(v: Complex, n: Rat, other: (Complex, Rat) -> Complex): Complex
  {
    if IsInteger(n) && n.numer >= 0 then CPow(v, n.numer)
    else if IsInteger(n) && !IsZero(v) then CPow(CInv(v), -n.numer)
    else other(v, n)
  }

  function Eval(e: Expr, env: char -> Complex, other: (Complex, Rat) -> Complex): Complex
    decreases e
  {
    match e
    case Var(c) => env(c)
    case Lit(v) => v
    case Pow(p) => PowValue(Eval(p.expr, env, other), p.n, other)
    case Grp(g) => EvalAll(g.op, g.members, env, other)
  }

  /** The members combined with `op`. */
  function EvalAll(op: Op, ms: seq<Expr>, env: char -> Complex, other: (Complex, Rat) -> Complex): Complex
    decreases ms
  {
    if ms == [] then Unit(op) else Apply(op, Eval(ms[0], env, other), EvalAll(op, ms[1..], env, other))
  }

  lemma ApplyAssoc(op: Op, x: Complex, y: Complex, z: Complex)
    ensures Apply(op, Apply(op, x, y), z) == Apply(op, x, Apply(op, y, z))
  {
    if op == Mul {
      MulAssoc(x, y, z);
    }
  }

  lemma ApplyUnit(op: Op, x: Complex)
    ensures Apply(op, Unit(op), x) == x && Apply(op, x, Unit(op)) == x
  {
    if op == Mul {
      MulUnit(x);
    }
  }

  lemma ApplyComm(op: Op, x: Complex, y: Complex)
    ensures Apply(op, x, y) == Apply(op, y, x)
  {
    if op == Mul {
      MulComm(x, y);
    }
  }

  /** Combining a concatenation combines the values of the two parts. */
  lemma {:induction false} EvalConcat(op: Op, xs: seq<Expr>, ys: seq<Expr>, env: char -> Complex, other: (Complex, Rat) -> Complex)
    ensures EvalAll(op, xs + ys, env, other) == Apply(op, EvalAll(op, xs, env, other), EvalAll(op, ys, env, other))
  {
    if xs == [] {
      assert xs + ys == ys;
      ApplyUnit(op, EvalAll(op, ys, env, other));
    } else {
      assert (xs + ys)[1..] == xs[1..] + ys;
      EvalConcat(op, xs[1..], ys, env, other);
      ApplyAssoc(op, Eval(xs[0], env, other), EvalAll(op, xs[1..], env, other), EvalAll(op, ys, env, other));
    }
  }

  lemma EvalSingle(op: Op, e: Expr, env: char -> Complex, other: (Complex, Rat) -> Complex)
    ensures EvalAll(op, [e], env, other) == Eval(e, env, other)
  {
    ApplyUnit(op, Eval(e, env, other));
  }

  /** Splitting an operand into its summands or factors keeps its value. */
  lemma EvalOperands(e: Expr, op: Op, env: char -> Complex, other: (Complex, Rat) -> Complex)
    ensures EvalAll(op, Operands(e, op), env, other) == Eval(e, env, other)
  {
    if !IsGroupOf(e, op) {
      EvalSingle(op, e, env, other);
    }
  }

  /** The three parts an operand of `+` is split into add up to its value. */
  lemma SumPartsValue(e: Expr, env: char -> Complex, other: (Complex, Rat) -> Complex)
    ensures CAdd(CAdd(EvalAll(Add, MembersOf(e, Add), env, other), EvalAll(Add, Atom(e), env, other)),
                 EvalAll(Add, Whole(e, Mul), env, other)) == Eval(e, env, other)
  {
    if IsGroupOf(e, Add) {
      SumPartsOfSum(e, env, other);
    } else if e.Grp? {
      SumPartsOfProduct(e, env, other);
    } else {
      SumPartsOfAtom(e, env, other);
    }
  }

  lemma SumPartsOfSum(e: Expr, env: char -> Complex, other: (Complex, Rat) -> Complex)
    requires IsGroupOf(e, Add)
    ensures CAdd(CAdd(EvalAll(Add, MembersOf(e, Add), env, other), EvalAll(Add, Atom(e), env, other)),
                 EvalAll(Add, Whole(e, Mul), env, other)) == Eval(e, env, other)
  {
    assert Atom(e) == [] && Whole(e, Mul) == [];
  }

  lemma SumPartsOfProduct(e: Expr, env: char -> Complex, other: (Complex, Rat) -> Complex)
    requires IsGroupOf(e, Mul)
    ensures CAdd(CAdd(EvalAll(Add, MembersOf(e, Add), env, other), EvalAll(Add, Atom(e), env, other)),
                 EvalAll(Add, Whole(e, Mul), env, other)) == Eval(e, env, other)
  {
    assert MembersOf(e, Add) == [] && Atom(e) == [] && Whole(e, Mul) == [e];
    EvalSingle(Add, e, env, other);
    ZeroSum(EvalAll(Add, [e], env, other));
  }

  lemma ZeroSum(v: Complex)
    ensures CAdd(CAdd(CZero, CZero), v) == v
  {
    assert CAdd(CZero, CZero) == CZero;
  }

  lemma SumPartsOfAtom(e: Expr, env: char -> Complex, other: (Complex, Rat) -> Complex)
    requires !e.Grp?
    ensures CAdd(CAdd(EvalAll(Add, MembersOf(e, Add), env, other), EvalAll(Add, Atom(e), env, other)),
                 EvalAll(Add, Whole(e, Mul), env, other)) == Eval(e, env, other)
  {
    assert MembersOf(e, Add) == [] && Whole(e, Mul) == [];
    EvalSingle(Add, e, env, other);
  }

  /** `+` adds values. */
  lemma ExprAddValue(a: Expr, b: Expr, env: char -> Complex, other: (Complex, Rat) -> Complex)
    ensures Eval(ExprAdd(a, b), env, other) == CAdd(Eval(a, env, other), Eval(b, env, other))
  {
    if !(a.Lit? && b.Lit?) {
      AddOrder(a, b);
      SumOrderValue(a, b, env, other);
    }
  }

  lemma SumOrderValue(a: Expr, b: Expr, env: char -> Complex, other: (Complex, Rat) -> Complex)
    ensures EvalAll(Add, SumOrder(a, b), env, other) == CAdd(Eval(a, env, other), Eval(b, env, other))
  {
    var ma, mb, xa, xb, wa, wb := MembersOf(a, Add), MembersOf(b, Add), Atom(a), Atom(b), Whole(a, Mul), Whole(b, Mul);
    var s1, s2, s3, s4 := ma + mb, ma + mb + xa, ma + mb + xa + xb, ma + mb + xa + xb + wa;
    assert SumOrder(a, b) == s4 + wb;
    EvalConcat(Add, ma, mb, env, other);
    EvalConcat(Add, s1, xa, env, other);
    EvalConcat(Add, s2, xb, env, other);
    EvalConcat(Add, s3, wa, env, other);
    EvalConcat(Add, s4, wb, env, other);
    var a1, a2, a3 := EvalAll(Add, ma, env, other), EvalAll(Add, xa, env, other), EvalAll(Add, wa, env, other);
    var b1, b2, b3 := EvalAll(Add, mb, env, other), EvalAll(Add, xb, env, other), EvalAll(Add, wb, env, other);
    assert EvalAll(Add, s4 + wb, env, other) == CAdd(CAdd(CAdd(CAdd(CAdd(a1, b1), a2), b2), a3), b3);
    Regroup(a1, b1, a2, b2, a3, b3);
    SumPartsValue(a, env, other);
    SumPartsValue(b, env, other);
  }

  lemma Regroup(a1: Complex, b1: Complex, a2: Complex, b2: Complex, a3: Complex, b3: Complex)
    ensures CAdd(CAdd(CAdd(CAdd(CAdd(a1, b1), a2), b2), a3), b3)
      == CAdd(CAdd(CAdd(a1, a2), a3), CAdd(CAdd(b1, b2), b3))
  {
  }

  lemma MulZero(x: Complex)
    ensures CMul(x, CZero) == CZero && CMul(CZero, x) == CZero
  {
  }

  /** `mul` followed by the summands of a sum, summed: the product of `mul`
      with the sum. */
  lemma {:induction false} ExpandValue(mul: Group, rs: seq<Expr>, env: char -> Complex, other: (Complex, Rat) -> Complex)
    requires mul.op == Mul
    ensures EvalAll(Add, ExpandAll(mul, rs), env, other)
      == CMul(EvalAll(Mul, mul.members, env, other), EvalAll(Add, rs, env, other))
  {
    var p := EvalAll(Mul, mul.members, env, other);
    if rs == [] {
      MulZero(p);
    } else {
      var r0 := rs[0];
      ExpandValue(mul, rs[1..], env, other);
      assert ExpandAll(mul, rs)[1..] == ExpandAll(mul, rs[1..]);
      EvalConcat(Mul, mul.members, [r0], env, other);
      EvalSingle(Mul, r0, env, other);
      assert Eval(Extend(mul, r0), env, other) == CMul(p, Eval(r0, env, other));
      Distrib(p, Eval(r0, env, other), EvalAll(Add, rs[1..], env, other));
    }
  }

  /** Summing the pairwise products of two sums gives the product of the
      sums. */
  lemma {:induction false} CrossValue(ls: seq<Expr>, add: Group, env: char -> Complex, other: (Complex, Rat) -> Complex)
    requires add.op == Add
    ensures EvalAll(Add, CrossAll(ls, add), env, other)
      == CMul(EvalAll(Add, ls, env, other), EvalAll(Add, add.members, env, other))
  {
    var s := EvalAll(Add, add.members, env, other);
    if ls == [] {
      MulZero(s);
    } else {
      var head := Expand(Group(Mul, [ls[0]]), add).members;
      CrossValue(ls[1..], add, env, other);
      EvalConcat(Add, head, CrossAll(ls[1..], add), env, other);
      ExpandValue(Group(Mul, [ls[0]]), add.members, env, other);
      EvalSingle(Mul, ls[0], env, other);
      Distrib(s, Eval(ls[0], env, other), EvalAll(Add, ls[1..], env, other));
    }
  }

  /** For an operand of `*` that is not a sum, its factors in `Mul`-group
      members and its own atom multiply to its value. */
  lemma ProductPartsValue(e: Expr, env: char -> Complex, other: (Complex, Rat) -> Complex)
    requires !IsGroupOf(e, Add)
    ensures CMul(EvalAll(Mul, MembersOf(e, Mul), env, other), EvalAll(Mul, Atom(e), env, other)) == Eval(e, env, other)
  {
    if e.Grp? {
      ProductPartsOfProduct(e, env, other);
    } else {
      ProductPartsOfAtom(e, env, other);
    }
  }

  lemma ProductPartsOfProduct(e: Expr, env: char -> Complex, other: (Complex, Rat) -> Complex)
    requires IsGroupOf(e, Mul)
    ensures CMul(EvalAll(Mul, MembersOf(e, Mul), env, other), EvalAll(Mul, Atom(e), env, other)) == Eval(e, env, other)
  {
    assert Atom(e) == [];
    var v := EvalAll(Mul, e.group.members, env, other);
    assert v == Eval(e, env, other);
    MulUnit(v);
  }

  lemma ProductPartsOfAtom(e: Expr, env: char -> Complex, other: (Complex, Rat) -> Complex)
    requires !e.Grp?
    ensures CMul(EvalAll(Mul, MembersOf(e, Mul), env, other), EvalAll(Mul, Atom(e), env, other)) == Eval(e, env, other)
  {
    assert MembersOf(e, Mul) == [];
    EvalSingle(Mul, e, env, other);
    MulUnit(Eval(e, env, other));
  }

  lemma MulRegroup(ma: Complex, mb: Complex, xa: Complex, xb: Complex)
    ensures CMul(CMul(CMul(ma, mb), xa), xb) == CMul(CMul(ma, xa), CMul(mb, xb))
  {
    calc {
      CMul(CMul(CMul(ma, mb), xa), xb);
      { MulAssoc(ma, mb, xa); }
      CMul(CMul(ma, CMul(mb, xa)), xb);
      { MulComm(mb, xa); }
      CMul(CMul(ma, CMul(xa, mb)), xb);
      { MulAssoc(ma, xa, mb); }
      CMul(CMul(CMul(ma, xa), mb), xb);
      { MulAssoc(CMul(ma, xa), mb, xb); }
      CMul(CMul(ma, xa), CMul(mb, xb));
    }
  }

  /** `*` multiplies values: flattening and distribution keep the value. */
  lemma ExprMulValue(a: Expr, b: Expr, env: char -> Complex, other: (Complex, Rat) -> Complex)
    ensures Eval(ExprMul(a, b), env, other) == CMul(Eval(a, env, other), Eval(b, env, other))
  {
    var va, vb := Eval(a, env, other), Eval(b, env, other);
    if a.Lit? && b.Lit? {
    } else if !IsGroupOf(a, Add) && !IsGroupOf(b, Add) {
      MulOrder(a, b);
      ProductOrderValue(a, b, env, other);
    } else if IsGroupOf(a, Add) && IsGroupOf(b, Add) {
      assert ExprMul(a, b) == Grp(Group(Add, CrossAll(a.group.members, b.group)));
      CrossValue(a.group.members, b.group, env, other);
    } else if IsGroupOf(a, Add) {
      MulDistributes(a, b);
      ExpandValue(Group(Mul, Operands(b, Mul)), a.group.members, env, other);
      EvalOperands(b, Mul, env, other);
      MulComm(vb, va);
    } else {
      MulDistributes(a, b);
      ExpandValue(Group(Mul, Operands(a, Mul)), b.group.members, env, other);
      EvalOperands(a, Mul, env, other);
    }
  }

  lemma ProductOrderValue(a: Expr, b: Expr, env: char -> Complex, other: (Complex, Rat) -> Complex)
    requires !IsGroupOf(a, Add) && !IsGroupOf(b, Add)
    ensures EvalAll(Mul, MembersOf(a, Mul) + MembersOf(b, Mul) + Atom(a) + Atom(b), env, other)
      == CMul(Eval(a, env, other), Eval(b, env, other))
  {
    var ma, mb, xa, xb := MembersOf(a, Mul), MembersOf(b, Mul), Atom(a), Atom(b);
    EvalConcat(Mul, ma, mb, env, other);
    EvalConcat(Mul, ma + mb, xa, env, other);
    EvalConcat(Mul, ma + mb + xa, xb, env, other);
    MulRegroup(EvalAll(Mul, ma, env, other), EvalAll(Mul, mb, env, other), EvalAll(Mul, xa, env, other), EvalAll(Mul, xb, env, other));
    ProductPartsValue(a, env, other);
    ProductPartsValue(b, env, other);
  }

  /** `/` undoes `*`: for a divisor of nonzero value, multiplying the
      quotient by the divisor gives back the dividend. */
  lemma ExprDivValue(a: Expr, b: Expr, env: char -> Complex, other: (Complex, Rat) -> Complex)
    requires !IsZero(Eval(b, env, other))
    ensures CMul(Eval(ExprDiv(a, b), env, other), Eval(b, env, other)) == Eval(a, env, other)
  {
    var va, vb := Eval(a, env, other), Eval(b, env, other);
    var w := CInv(vb);
    var p := Pow(Power(IntRat(-1), b));
    assert Eval(p, env, other) == CPow(w, 1);
    MulUnit(w);
    assert CPow(w, 1) == w;
    var q := EvalAll(Mul, [p], env, other);
    EvalSingle(Mul, p, env, other);
    assert Eval(ExprDiv(a, b), env, other) == CMul(va, q);
    MulAssoc(va, w, vb);
    MulComm(w, vb);
    MulUnit(va);
  }

  /** `a ^ k` for an integer `k` denotes the `k`-th power of `a`'s value; for
      a negative `k` that is the reciprocal of the `-k`-th power. */
  lemma ExprPowValue(a: Expr, k: int, env: char -> Complex, other: (Complex, Rat) -> Complex)
    requires k < 0 ==> !IsZero(Eval(a, env, other))
    ensures k >= 0 ==> Eval(ExprPow(a, IntRat(k)), env, other) == CPow(Eval(a, env, other), k)
    ensures k < 0 ==> CMul(Eval(ExprPow(a, IntRat(k)), env, other), CPow(Eval(a, env, other), -k)) == COne
  {
    var v := Eval(a, env, other);
    var n := IntRat(k);
    assert Eval(ExprPow(a, n), env, other) == PowValue(v, n, other);
    if k < 0 {
      NegativePowValue(v, k, other);
    }
  }

  lemma NegativePowValue(v: Complex, k: int, other: (Complex, Rat) -> Complex)
    requires k < 0 && !IsZero(v)
    ensures CMul(PowValue(v, IntRat(k), other), CPow(v, -k)) == COne
  {
    var m: nat := -k;
    var w := CInv(v);
    assert PowValue(v, IntRat(k), other) == CPow(w, m);
    CPowInv(v, m);
  }
}
