/** The simplifier keeps the value of every expression whose exponents are
    natural numbers and which has no empty product: whenever it succeeds,
    its result evaluates to the same complex number under every assignment
    of the variables. */
module Soundness {
  import opened Numbers
  import opened Exprs
  import opened Ops
  import opened Semantics
  import opened Simplifier

  predicate IsNatural(n: Rat)
  {
    IsInteger(n) && n.numer >= 0
  }

  /** Every exponent is natural and every product has a member. */
  predicate Plain(e: Expr)
    decreases e
  {
    match e
    case Pow(p) => IsNatural(p.n) && Plain(p.expr)
    case Grp(g) => (g.op == Mul ==> g.members != []) && AllPlain(g.members)
    case _ => true
  }

  predicate AllPlain(ms: seq<Expr>)
    decreases ms
  {
    ms == [] || (Plain(ms[0]) && AllPlain(ms[1..]))
  }

  /** A power at the top has a natural exponent. */
  predicate TopNatural(e: Expr)
  {
    e.Pow? ==> IsNatural(e.power.n)
  }

  /** The main theorem: simplification is defined on plain expressions and
      what it returns has the value of its input. */
  lemma {:induction false} SimplifySound(e: Expr, env: char -> Complex, other: (Complex, Rat) -> Complex)
    requires Plain(e)
    ensures Simplifiable(e)
    ensures Simplify(e).Ok? ==> Eval(Simplify(e).value, env, other) == Eval(e, env, other)
    ensures Simplify(e).Ok? ==> TopNatural(Simplify(e).value)
    decreases e
  {
    match e
    case Pow(p) => PowerSound(p, env, other);
    case Grp(g) => GroupSound(g, env, other);
    case _ =>
  }

  lemma {:induction false} PowerSound(p: Power, env: char -> Complex, other: (Complex, Rat) -> Complex)
    requires IsNatural(p.n) && Plain(p.expr)
    ensures SimplifiablePower(p)
    ensures SimplifyPower(p).Ok? ==> Eval(SimplifyPower(p).value, env, other) == Eval(Pow(p), env, other)
    ensures SimplifyPower(p).Ok? ==> TopNatural(SimplifyPower(p).value)
    decreases p
  {
    if p.n != Zero {
      SimplifySound(p.expr, env, other);
      var vb := Eval(p.expr, env, other);
      if Simplify(p.expr).Ok? {
        var inner := Simplify(p.expr).value;
        if p.n == One {
          assert CPow(vb, 1) == CMul(vb, COne);
          MulUnit(vb);
        } else if inner.Pow? {
          PowerOfPowerSound(p, inner.power, env, other);
        }
      }
    }
  }

  /** Nested natural powers multiply their exponents. */
  lemma PowerOfPowerSound(p: Power, q: Power, env: char -> Complex, other: (Complex, Rat) -> Complex)
    requires IsNatural(p.n) && p.n != Zero && p.n != One && Plain(p.expr)
    requires Simplifiable(p.expr) && Simplify(p.expr) == Ok(Pow(q))
    requires IsNatural(q.n) && Eval(Pow(q), env, other) == Eval(p.expr, env, other)
    ensures SimplifiablePower(p)
    ensures SimplifyPower(p).Ok? && TopNatural(SimplifyPower(p).value)
    ensures Eval(SimplifyPower(p).value, env, other) == Eval(Pow(p), env, other)
  {
    var r := SimplifyPower(p).value;
    ExponentProduct(p.n, q.n, r.power.n);
    NestedPowers(Eval(q.expr, env, other), p.n.numer, q.n.numer, r.power.n.numer);
  }

  /** The exponent the power-of-power rule computes from two natural
      exponents is their integer product. */
  lemma ExponentProduct(a: Rat, b: Rat, m: Rat)
    requires IsNatural(a) && IsNatural(b)
    requires m.numer * (a.denom * b.denom) == (a.numer * b.numer) * m.denom
    ensures IsNatural(m) && m.numer == a.numer * b.numer
  {
    var k := a.numer * b.numer;
    assert k >= 0 by { MulNonNegative(a.numer, b.numer); }
    assert m.numer == k * m.denom;
    NormalFormUnique(m, IntRat(k));
  }

  lemma NestedPowers(x: Complex, i: nat, j: nat, k: nat)
    requires k == i * j
    ensures CPow(CPow(x, j), i) == CPow(x, k)
  {
    assert j * i == k;
    CPowPow(x, j, i);
  }

  lemma MulNonNegative(a: int, b: int)
    requires a >= 0 && b >= 0
    ensures a * b >= 0
  {
  }

  lemma {:induction false} GroupSound(g: Group, env: char -> Complex, other: (Complex, Rat) -> Complex)
    requires (g.op == Mul ==> g.members != []) && AllPlain(g.members)
    ensures SimplifiableGroup(g)
    ensures SimplifyGroup(g).Ok? ==> Eval(SimplifyGroup(g).value, env, other) == Eval(Grp(g), env, other)
    ensures SimplifyGroup(g).Ok? ==> TopNatural(SimplifyGroup(g).value)
    decreases g
  {
    var ms := g.members;
    if |ms| == 1 {
      assert ms == [ms[0]];
      EvalSingle(g.op, ms[0], env, other);
    } else if |ms| >= 2 {
      MembersSound(g.op, ms, env, other);
      if SimplifyAll(ms).Ok? {
        var ss := SimplifyAll(ms).value;
        var seed := Grp(Identity(g.op));
        FoldValue(seed, ss, g.op, env, other);
        ApplyUnit(g.op, EvalAll(g.op, ss, env, other));
      }
    }
  }

  lemma {:induction false} MembersSound(op: Op, ms: seq<Expr>, env: char -> Complex, other: (Complex, Rat) -> Complex)
    requires AllPlain(ms)
    ensures SimplifiableMembers(ms)
    ensures SimplifyAll(ms).Ok? ==> EvalAll(op, SimplifyAll(ms).value, env, other) == EvalAll(op, ms, env, other)
    decreases ms
  {
    if ms != [] {
      SimplifySound(ms[0], env, other);
      if Simplify(ms[0]).Ok? {
        MembersSound(op, ms[1..], env, other);
        if SimplifyAll(ms).Ok? {
          var ss := SimplifyAll(ms).value;
          assert ss == [ss[0]] + ss[1..];
          assert ss[1..] == SimplifyAll(ms[1..]).value;
        }
      }
    }
  }

  /** Folding members into an accumulator combines their values with it. */
  lemma {:induction false} FoldValue(acc: Expr, ms: seq<Expr>, op: Op, env: char -> Complex, other: (Complex, Rat) -> Complex)
    ensures Eval(Fold(acc, ms, op), env, other) == Apply(op, Eval(acc, env, other), EvalAll(op, ms, env, other))
    decreases ms
  {
    var va := Eval(acc, env, other);
    if ms == [] {
      ApplyUnit(op, va);
    } else {
      var next := Combine(op, acc, ms[0]);
      if op == Add {
        ExprAddValue(acc, ms[0], env, other);
      } else {
        ExprMulValue(acc, ms[0], env, other);
      }
      FoldValue(next, ms[1..], op, env, other);
      ApplyAssoc(op, va, Eval(ms[0], env, other), EvalAll(op, ms[1..], env, other));
    }
  }

  /** Why empty products are excluded: the simplifier turns an empty group
      of either operator into zero, while an empty product denotes one. */
  lemma EmptyProductBecomesZero(env: char -> Complex, other: (Complex, Rat) -> Complex)
    ensures Simplify(Grp(Group(Mul, []))) == Ok(Lit(CZero))
    ensures Eval(Grp(Group(Mul, [])), env, other) == COne
    ensures COne != CZero
  {
  }
}
