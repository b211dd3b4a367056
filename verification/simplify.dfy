/** The simplifier: a single bottom-up rewrite pass applying the power laws
    and re-combining group members through the combinators. It fails only
    when an exponent is too large to apply. */
module Simplifier {
  import opened Numbers
  import opened Exprs
  import opened Ops

  datatype ErrorKind = TooBig

  datatype Error = Error(kind: ErrorKind, msg: string)

  datatype Result<T> = Ok(value: T) | Err(error: Error)

  /** The largest value of the platform's unsigned size type, taken to be
      64 bits wide; a larger exponent numerator cannot be applied. */
  const USIZE_MAX: int := 0xFFFF_FFFF_FFFF_FFFF

  const TOO_BIG: Error := Error(TooBig, "Exponent too large to apply")

  // The inputs the simplifier is defined on: those on which it never takes
  // the reciprocal of a zero literal (a negative power of a base that
  // simplifies to zero). These predicates follow the simplifier's own
  // evaluation order, so they speak only of subterms it actually visits.

  predicate Simplifiable(e: Expr)
    decreases e, 0
  {
    match e
    case Pow(p) => SimplifiablePower(p)
    case Grp(g) => SimplifiableGroup(g)
    case _ => true
  }

  predicate SimplifiablePower(p: Power)
    decreases p, 0
  {
    p.n == Zero ||
    (Simplifiable(p.expr) &&
      (p.n != One && IsNegative(p.n) && Simplify(p.expr).Ok? && Simplify(p.expr).value.Lit? ==>
        !IsZero(Simplify(p.expr).value.value)))
  }

  predicate SimplifiableGroup(g: Group)
    decreases g, 0
  {
    |g.members| <= 1 || SimplifiableMembers(g.members)
  }

  /** Members are simplified in order and the first failure stops the pass,
      so only the members up to it need to be simplifiable. */
  predicate SimplifiableMembers(ms: seq<Expr>)
    decreases ms, 0
  {
    ms == [] || (Simplifiable(ms[0]) && (Simplify(ms[0]).Ok? ==> SimplifiableMembers(ms[1..])))
  }

  /** Variables and literals are already simple. */
  function Simplify(e: Expr): (r: Result<Expr>)
    requires Simplifiable(e)
    ensures e.Var? || e.Lit? ==> r == Ok(e)
    decreases e, 1
  {
    match e
    case Pow(p) => SimplifyPower(p)
    case Grp(g) => SimplifyGroup(g)
    case _ => Ok(e)
  }

  function SimplifyPower(p: Power): (r: Result<Expr>)
    requires SimplifiablePower(p)
    ensures p.n == Zero ==> r == Ok(Lit(COne))
    ensures p.n != Zero ==> Simplifiable(p.expr)
    ensures p.n != Zero && Simplify(p.expr).Err? ==> r == Simplify(p.expr)
    ensures p.n == One ==> r == Simplify(p.expr)
    ensures p.n != Zero && p.n != One && Simplify(p.expr).Ok? && Simplify(p.expr).value.Lit? ==>
      IsNegative(p.n) ==> !IsZero(Simplify(p.expr).value.value)
    ensures p.n != Zero && p.n != One && Simplify(p.expr).Ok? && Simplify(p.expr).value.Lit? ==>
      r == SimplifyPowerOfLiteral(Simplify(p.expr).value.value, p.n)
    ensures p.n != Zero && p.n != One && Simplify(p.expr).Ok? && Simplify(p.expr).value.Pow? ==>
      r.Ok? && r.value.Pow? && r.value.power.expr == Simplify(p.expr).value.power.expr &&
      r.value.power.n.numer * (p.n.denom * Simplify(p.expr).value.power.n.denom) ==
        (p.n.numer * Simplify(p.expr).value.power.n.numer) * r.value.power.n.denom
    ensures p.n != Zero && p.n != One && Simplify(p.expr).Ok? && Simplify(p.expr).value.Var? ==>
      r == Ok(Pow(Power(p.n, Simplify(p.expr).value)))
    ensures p.n != Zero && p.n != One && Simplify(p.expr).Ok? && Simplify(p.expr).value.Grp? ==>
      r == Ok(Pow(Power(p.n, Simplify(p.expr).value)))
    decreases p, 1
  {
    if p.n == Zero then Ok(Lit(COne))
    else
      match Simplify(p.expr)
      case Err(err) => Err(err)
      case Ok(inner) =>
        if p.n == One then Ok(inner)
        else
          match inner
          case Lit(v) => SimplifyPowerOfLiteral(v, p.n)
          case Pow(q) => Ok(Pow(Power(RatMul(p.n, q.n), q.expr)))
          case _ => Ok(Pow(Power(p.n, inner)))
  }

  /** `lit ^ n` evaluated exactly: a negative exponent first inverts the
      base; the numerator is applied by repeated multiplication, and a
      remaining denominator `q` is left as the root exponent `1/q`. */
  function SimplifyPowerOfLiteral(lit: Complex, n: Rat): (r: Result<Expr>)
    requires IsNegative(n) ==> !IsZero(lit)
    ensures r.Err? <==> Abs(n.numer) > USIZE_MAX
    ensures r.Err? ==> r.error == TOO_BIG
    ensures r.Ok? && !IsNegative(n) && IsInteger(n) ==> r == Ok(Lit(CPow(lit, n.numer)))
    ensures r.Ok? && IsNegative(n) && IsInteger(n) ==>
      r.value.Lit? && CMul(r.value.value, CPow(lit, -n.numer)) == COne
    ensures r.Ok? && !IsInteger(n) ==>
      r.value.Pow? && r.value.power.n.numer == 1 && r.value.power.n.denom == n.denom && r.value.power.expr.Lit?
    ensures r.Ok? && !IsInteger(n) && !IsNegative(n) ==> r.value.power.expr.value == CPow(lit, n.numer)
    ensures r.Ok? && !IsInteger(n) && IsNegative(n) ==>
      CMul(r.value.power.expr.value, CPow(lit, -n.numer)) == COne
  {
    var base := if IsNegative(n) then CInv(lit) else lit;
    var m := RatAbs(n);
    if m.numer > USIZE_MAX then Err(TOO_BIG)
    else
      var res := CPow(base, m.numer);
      assert IsNegative(n) ==> CMul(CPow(CInv(lit), m.numer), CPow(lit, m.numer)) == COne by {
        if IsNegative(n) { CPowInv(lit, m.numer); }
      }
      if IsInteger(m) then Ok(Lit(res))
      else Ok(Pow(Power(UnitFraction(m.denom), Lit(res))))
  }

  /** Group rule: no members gives the literal zero (for either operator),
      one member is returned as it is, and otherwise the members are
      simplified in order and folded from the left with the operator's
      combinator. */
  function SimplifyGroup(g: Group): (r: Result<Expr>)
    requires SimplifiableGroup(g)
    ensures g.members == [] ==> r == Ok(Lit(CZero))
    ensures |g.members| == 1 ==> r == Ok(g.members[0])
    ensures |g.members| >= 2 && SimplifyAll(g.members).Err? ==> r == Err(SimplifyAll(g.members).error)
    ensures |g.members| >= 2 && SimplifyAll(g.members).Ok? ==>
      r == Ok(Fold(Grp(Identity(g.op)), SimplifyAll(g.members).value, g.op))
    decreases g, 1
  {
    if |g.members| == 0 then Ok(Lit(CZero))
    else if |g.members| == 1 then Ok(g.members[0])
    else
      match SimplifyAll(g.members)
      case Err(err) => Err(err)
      case Ok(ms) => Ok(Fold(Grp(Identity(g.op)), ms, g.op))
  }

  /** A member is simplifiable and fails, and every member before it
      succeeds. */
  predicate FirstFailure(ms: seq<Expr>, i: int)
    decreases ms, 0
  {
    0 <= i < |ms| && Simplifiable(ms[i]) && Simplify(ms[i]).Err? &&
    forall j :: 0 <= j < i ==> Simplifiable(ms[j]) && Simplify(ms[j]).Ok?
  }

  /** Simplify every member in order, stopping at the first error. */
  function SimplifyAll(ms: seq<Expr>): (r: Result<seq<Expr>>)
    requires SimplifiableMembers(ms)
    ensures r.Ok? ==> |r.value| == |ms|
    ensures r.Ok? ==> forall i :: 0 <= i < |ms| ==> Simplifiable(ms[i]) && Simplify(ms[i]) == Ok(r.value[i])
    ensures r.Err? ==> exists i :: FirstFailure(ms, i) && Simplify(ms[i]) == Err(r.error)
    decreases ms, 1
  {
    if ms == [] then Ok([])
    else
      match Simplify(ms[0])
      case Err(err) =>
        assert FirstFailure(ms, 0);
        Err(err)
      case Ok(h) =>
        match SimplifyAll(ms[1..])
        case Err(err) =>
          ghost var i :| FirstFailure(ms[1..], i) && Simplify(ms[1..][i]) == Err(err);
          assert FirstFailure(ms, i + 1);
          Err(err)
        case Ok(t) => Ok([h] + t)
  }

  function Combine(op: Op, a: Expr, b: Expr): Expr
  {
    if op == Add then ExprAdd(a, b) else ExprMul(a, b)
  }

  /** The operands each of `ms` contributes to a group of `op`, in order. */
  function Flatten(ms: seq<Expr>, op: Op): seq<Expr>
  {
    if ms == [] then [] else Operands(ms[0], op) + Flatten(ms[1..], op)
  }

  /** None of `ms` is a sum, so a product absorbs them without distributing. */
  predicate NoSums(ms: seq<Expr>)
  {
    forall i :: 0 <= i < |ms| ==> !IsGroupOf(ms[i], Add)
  }

  /** A group of `op` takes another operand by appending its operands, as
      long as a product is not given a sum. */
  lemma CombineIntoGroup(op: Op, s: seq<Expr>, m: Expr)
    requires op == Add || !IsGroupOf(m, Add)
    ensures Combine(op, Grp(Group(op, s)), m) == Grp(Group(op, s + Operands(m, op)))
  {
    var a := Grp(Group(op, s));
    if op == Add {
      AddOrder(a, m);
      if IsGroupOf(m, Add) {
        assert SumOrder(a, m) == s + m.group.members;
      } else {
        assert SumOrder(a, m) == s + [m];
      }
    } else {
      MulOrder(a, m);
      if IsGroupOf(m, Mul) {
        assert MembersOf(a, Mul) + MembersOf(m, Mul) + Atom(a) + Atom(m) == s + m.group.members;
      } else {
        assert MembersOf(a, Mul) + MembersOf(m, Mul) + Atom(a) + Atom(m) == s + [m];
      }
    }
  }

  /** Left fold of `ms` into `acc` with `op`'s combinator. Folding into a
      group keeps a group; folding into a group of `op` appends the
      members' operands in order, never merging two members (for a
      product, as long as no member is a sum). */
  function Fold(acc: Expr, ms: seq<Expr>, op: Op): (r: Expr)
    ensures acc.Grp? ==> r.Grp?
    ensures IsGroupOf(acc, op) && (op == Mul ==> NoSums(ms)) ==>
      r == Grp(Group(op, acc.group.members + Flatten(ms, op)))
    decreases ms
  {
    if ms == [] then acc
    else
      var m, rest := ms[0], ms[1..];
      var next := Combine(op, acc, m);
      assert acc.Grp? ==> next.Grp?;
      assert Flatten(ms, op) == Operands(m, op) + Flatten(rest, op);
      assert IsGroupOf(acc, op) && (op == Mul ==> NoSums(ms)) ==>
        next == Grp(Group(op, acc.group.members + Operands(m, op))) && (op == Mul ==> NoSums(rest)) by {
        if IsGroupOf(acc, op) && (op == Mul ==> NoSums(ms)) {
          assert op == Mul ==> !IsGroupOf(ms[0], Add);
          CombineIntoGroup(op, acc.group.members, m);
        }
      }
      Fold(next, rest, op)
  }

  // The behaviours the system's own examples fix, on concrete inputs.

  const Two: Complex := Complex(2.0, 0.0)

  /** A natural exponent of at least two is applied to a literal exactly. */
  lemma NaturalPowerOfLiteral(v: Complex, k: int)
    requires 2 <= k <= USIZE_MAX
    ensures Simplify(Pow(Power(IntRat(k), Lit(v)))) == Ok(Lit(CPow(v, k)))
  {
    var n := IntRat(k);
    assert n != Zero && n != One;
  }

  lemma LiteralPowerExample()
    ensures Simplify(Pow(Power(IntRat(3), Lit(Two)))) == Ok(Lit(Complex(8.0, 0.0)))
  {
    NaturalPowerOfLiteral(Two, 3);
    CubeOfTwo();
  }

  lemma CubeOfTwo()
    ensures CPow(Two, 3) == Complex(8.0, 0.0)
  {
    var v := Two;
    assert CPow(v, 1) == v by { assert CPow(v, 0) == COne; }
    assert CPow(v, 2) == Complex(4.0, 0.0);
  }

  /** A negative integer exponent applies its magnitude to the reciprocal. */
  lemma NegativePowerOfLiteral(v: Complex, k: int)
    requires -USIZE_MAX <= k <= -1 && !IsZero(v)
    ensures Simplify(Pow(Power(IntRat(k), Lit(v)))) == Ok(Lit(CPow(CInv(v), -k)))
  {
    var n := IntRat(k);
    assert n != Zero && n != One;
  }

  lemma NegativePowerExample()
    ensures Simplify(Pow(Power(IntRat(-3), Lit(Two)))) == Ok(Lit(Complex(0.125, 0.0)))
  {
    NegativePowerOfLiteral(Two, -3);
    CubeOfHalf();
  }

  lemma CubeOfHalf()
    ensures CPow(CInv(Two), 3) == Complex(0.125, 0.0)
  {
    var v := Complex(0.5, 0.0);
    assert CInv(Two) == v;
    assert CPow(v, 1) == v by { assert CPow(v, 0) == COne; }
    assert CPow(v, 2) == Complex(0.25, 0.0);
  }

  /** A fraction that is not an integer leaves its denominator as a root. */
  lemma FractionalPowerOfLiteral(v: Complex, n: Rat)
    requires !IsInteger(n) && !IsNegative(n) && n.numer <= USIZE_MAX
    ensures Simplify(Pow(Power(n, Lit(v)))) == Ok(Pow(Power(UnitFraction(n.denom), Lit(CPow(v, n.numer)))))
  {
    assert n != Zero && n != One;
  }

  lemma FractionalPowerExample()
    ensures Normal(Ratio(3, 2))
    ensures Simplify(Pow(Power(Ratio(3, 2), Lit(Two)))) == Ok(Pow(Power(Ratio(1, 2), Lit(Complex(8.0, 0.0)))))
  {
    assert Gcd(3, 2) == 1;
    FractionalPowerOfLiteral(Two, Ratio(3, 2));
    CubeOfTwo();
  }

  lemma ComplexSquaredExample()
    ensures Simplify(Pow(Power(IntRat(2), Lit(Complex(1.0, 2.0))))) == Ok(Lit(Complex(-3.0, 4.0)))
  {
    NaturalPowerOfLiteral(Complex(1.0, 2.0), 2);
    SquareOfOnePlusTwoI();
  }

  lemma SquareOfOnePlusTwoI()
    ensures CPow(Complex(1.0, 2.0), 2) == Complex(-3.0, 4.0)
  {
    var v := Complex(1.0, 2.0);
    assert CPow(v, 1) == v by { assert CPow(v, 0) == COne; }
  }

  lemma PowerOfOneExample()
    ensures Simplify(Pow(Power(One, Var('x')))) == Ok(Var('x'))
  {
  }

  lemma PowerOfZeroExample()
    ensures Simplify(Pow(Power(Zero, Var('x')))) == Ok(Lit(COne))
  {
  }

  /** Nested powers of a variable merge into one power whose exponent is
      the product of the two. */
  lemma NestedPowersOfVariable(c: char, p: Rat, q: Rat)
    requires p != Zero && p != One && q != Zero && q != One
    ensures Simplifiable(Pow(Power(q, Pow(Power(p, Var(c))))))
    ensures Simplify(Pow(Power(q, Pow(Power(p, Var(c)))))) == Ok(Pow(Power(RatMul(q, p), Var(c))))
  {
    assert Simplify(Pow(Power(p, Var(c)))) == Ok(Pow(Power(p, Var(c))));
  }

  lemma NestedPowersExample()
    ensures Normal(Ratio(2, 3)) && Normal(Ratio(-3, 8)) && Normal(Ratio(-1, 4))
    ensures Simplify(Pow(Power(Ratio(-3, 8), Pow(Power(Ratio(2, 3), Var('x'))))))
      == Ok(Pow(Power(Ratio(-1, 4), Var('x'))))
  {
    assert Gcd(2, 3) == 1 && Gcd(3, 8) == 1 && Gcd(1, 4) == 1;
    var p, q, n: Rat := Ratio(2, 3), Ratio(-3, 8), Ratio(-1, 4);
    NestedPowersOfVariable('x', p, q);
    var r := RatMul(q, p);
    assert r.numer * 24 == -6 * r.denom;
    NormalFormUnique(r, n);
  }

  /** One pass is not always a fixed point: merging nested exponents can
      produce a first power, which only a second pass removes. */
  lemma NotIdempotentExample(x: Expr)
    requires x == Var('x')
    ensures Normal(Ratio(1, 2))
    ensures Simplify(Pow(Power(IntRat(2), Pow(Power(Ratio(1, 2), x))))) == Ok(Pow(Power(One, x)))
    ensures Simplify(Pow(Power(One, x))) == Ok(x)
  {
    assert Gcd(1, 2) == 1;
    assert Gcd(2, 2) == 2;
    assert RatMul(IntRat(2), Ratio(1, 2)) == One;
  }

  /** A zero exponent discards its base unvisited, so even a base whose
      simplification fails gives the literal one. */
  lemma ZeroPowerIgnoresFailingBase()
    ensures Simplify(Pow(Power(IntRat(USIZE_MAX + 1), Lit(Two)))) == Err(TOO_BIG)
    ensures Simplify(Pow(Power(Zero, Pow(Power(IntRat(USIZE_MAX + 1), Lit(Two)))))) == Ok(Lit(COne))
  {
  }

  /** Variables and literals are their own simplification. */
  lemma {:induction false} AtomsSimplify(ms: seq<Expr>)
    requires forall i :: 0 <= i < |ms| ==> ms[i].Var? || ms[i].Lit?
    ensures SimplifiableMembers(ms) && SimplifyAll(ms) == Ok(ms)
  {
    if ms != [] {
      AtomsSimplify(ms[1..]);
      assert [ms[0]] + ms[1..] == ms;
    }
  }

  /** Folding literals into a sum appends them one by one, whatever the
      sum already holds: two literals are never added together. */
  lemma LiteralsStaySeparate(s: seq<Expr>, a: Complex, b: Complex)
    ensures Fold(Grp(Group(Add, s)), [Lit(a), Lit(b)], Add) == Grp(Group(Add, s + [Lit(a), Lit(b)]))
  {
    var ms := [Lit(a), Lit(b)];
    assert Flatten(ms[1..], Add) == [Lit(b)];
    assert Flatten(ms, Add) == ms;
  }

  /** Members are combined in order from the fold's seed, so literals in a
      sum are not added together. */
  lemma SumOfLiteralsExample()
    ensures Simplifiable(Grp(Group(Add, [Lit(COne), Lit(Two)])))
    ensures Simplify(Grp(Group(Add, [Lit(COne), Lit(Two)]))) == Ok(Grp(Group(Add, [Lit(COne), Lit(Two)])))
  {
    var ms := [Lit(COne), Lit(Two)];
    AtomsSimplify(ms);
    LiteralsStaySeparate([], COne, Two);
    assert [] + ms == ms;
  }
}
