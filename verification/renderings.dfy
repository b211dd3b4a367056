/** Renderings the system's own examples fix, for expressions built with
    the combinators. Literals are rendered by an arbitrary `lt`. The
    variables are passed in rather than written as constants, which keeps
    the verifier from evaluating the combinators symbol by symbol. */
module Renderings {
  import opened Numbers
  import opened Exprs
  import opened Ops
  import opened Display

  predicate Named(x: Expr, y: Expr, z: Expr)
  {
    x == Var('x') && y == Var('y') && z == Var('z')
  }

  // Shapes the combinators build from operands that are not groups.

  lemma ProductChain(a: Expr, b: Expr, c: Expr)
    requires !a.Grp? && !b.Grp? && !c.Grp? && !(a.Lit? && b.Lit?)
    ensures ExprMul(ExprMul(a, b), c) == Grp(Group(Mul, [a, b, c]))
  {
    assert ExprMul(a, b) == Grp(Group(Mul, [a, b]));
  }

  lemma SumChain(a: Expr, b: Expr, c: Expr)
    requires !a.Grp? && !b.Grp? && !c.Grp? && !(a.Lit? && b.Lit?)
    ensures ExprAdd(ExprAdd(a, b), c) == Grp(Group(Add, [a, b, c]))
  {
    assert ExprAdd(a, b) == Grp(Group(Add, [a, b]));
  }

  lemma ProductIntoProduct(a: Expr, b: Expr, c: Expr)
    requires !a.Grp? && !b.Grp? && !c.Grp? && !(b.Lit? && c.Lit?)
    ensures ExprMul(a, ExprMul(b, c)) == Grp(Group(Mul, [b, c, a]))
  {
    assert ExprMul(b, c) == Grp(Group(Mul, [b, c]));
  }

  lemma ScaleShape(a: Expr, b: Expr, c: Expr)
    requires !a.Grp? && !b.Grp? && !c.Grp? && !(b.Lit? && c.Lit?)
    ensures ExprMul(a, ExprAdd(b, c)) == Grp(Group(Add, [Grp(Group(Mul, [a, b])), Grp(Group(Mul, [a, c]))]))
  {
    assert ExprAdd(b, c) == Grp(Group(Add, [b, c]));
    ExpandPair(a, b, c);
  }

  lemma ExpandShape(a: Expr, b: Expr, c: Expr, d: Expr)
    requires !a.Grp? && !b.Grp? && !c.Grp? && !d.Grp? && !(a.Lit? && b.Lit?) && !(c.Lit? && d.Lit?)
    ensures ExprMul(ExprAdd(a, b), ExprAdd(c, d)) == Grp(Group(Add,
      [Grp(Group(Mul, [a, c])), Grp(Group(Mul, [a, d])), Grp(Group(Mul, [b, c])), Grp(Group(Mul, [b, d]))]))
  {
    var r := Group(Add, [c, d]);
    assert ExprAdd(a, b) == Grp(Group(Add, [a, b]));
    assert ExprAdd(c, d) == Grp(r);
    ExpandPair(a, c, d);
    ExpandPair(b, c, d);
    assert CrossAll([b], r) == Expand(Group(Mul, [b]), r).members;
    assert CrossAll([a, b], r) == Expand(Group(Mul, [a]), r).members + CrossAll([b], r);
  }

  lemma ExpandPair(a: Expr, b: Expr, c: Expr)
    ensures Expand(Group(Mul, [a]), Group(Add, [b, c])).members == [Grp(Group(Mul, [a, b])), Grp(Group(Mul, [a, c]))]
  {
    var ms := Expand(Group(Mul, [a]), Group(Add, [b, c])).members;
    assert [a] + [b] == [a, b] && [a] + [c] == [a, c];
    assert ms[0] == Grp(Group(Mul, [a, b]));
    assert ms[1] == Grp(Group(Mul, [a, c]));
  }

  // Texts of small groups.

  lemma Join2(p: string, q: string, d: string)
    ensures Join([p, q], d) == p + d + q
  {
    assert [p, q][1..] == [q];
  }

  lemma Join3(p: string, q: string, r: string, d: string)
    ensures Join([p, q, r], d) == p + d + (q + d + r)
  {
    assert [p, q, r][1..] == [q, r];
    Join2(q, r, d);
  }

  lemma ShowVars2(a: char, b: char, lt: Complex -> string)
    ensures ShowAll([Var(a), Var(b)], lt) == [[a], [b]]
  {
  }

  lemma ShowVars3(a: char, b: char, c: char, lt: Complex -> string)
    ensures ShowAll([Var(a), Var(b), Var(c)], lt) == [[a], [b], [c]]
  {
  }

  /** The text of a product of two variables. */
  lemma ShowProduct(a: char, b: char, lt: Complex -> string)
    ensures Show(Grp(Group(Mul, [Var(a), Var(b)])), lt) == ['(', a, ' ', '.', ' ', b, ')']
  {
    ShowVars2(a, b, lt);
    Join2([a], [b], " . ");
  }

  // The examples.

  lemma SimpleMultiplyText(x: Expr, y: Expr, z: Expr, lt: Complex -> string)
    requires Named(x, y, z)
    ensures Show(ExprMul(ExprMul(x, y), z), lt) == "(x . y . z)"
  {
    ProductChain(x, y, z);
    ShowVars3('x', 'y', 'z', lt);
    Join3("x", "y", "z", " . ");
  }

  /** A group on the right is extended, so the right-hand factors come first. */
  lemma AssociativeMultiplyText(x: Expr, y: Expr, z: Expr, lt: Complex -> string)
    requires Named(x, y, z)
    ensures Show(ExprMul(x, ExprMul(y, z)), lt) == "(y . z . x)"
  {
    ProductIntoProduct(x, y, z);
    ShowVars3('y', 'z', 'x', lt);
    Join3("y", "z", "x", " . ");
  }

  lemma ScalePolynomialText(x: Expr, y: Expr, z: Expr, lt: Complex -> string)
    requires Named(x, y, z)
    ensures Show(ExprMul(x, ExprAdd(y, z)), lt) == "(" + Join(["(x . y)", "(x . z)"], " + ") + ")"
  {
    var xy, xz := Grp(Group(Mul, [x, y])), Grp(Group(Mul, [x, z]));
    ScaleShape(x, y, z);
    assert Show(xy, lt) == "(x . y)" by { ShowProduct('x', 'y', lt); }
    assert Show(xz, lt) == "(x . z)" by { ShowProduct('x', 'z', lt); }
    assert ShowAll([xy, xz], lt) == ["(x . y)", "(x . z)"];
  }

  lemma ExpandText(x: Expr, y: Expr, z: Expr, lt: Complex -> string)
    requires Named(x, y, z)
    ensures Show(ExprMul(ExprAdd(x, y), ExprAdd(x, z)), lt)
      == "(" + Join(["(x . x)", "(x . z)", "(y . x)", "(y . z)"], " + ") + ")"
  {
    var xx, xz := Grp(Group(Mul, [x, x])), Grp(Group(Mul, [x, z]));
    var yx, yz := Grp(Group(Mul, [y, x])), Grp(Group(Mul, [y, z]));
    var ms := [xx, xz, yx, yz];
    assert ExprMul(ExprAdd(x, y), ExprAdd(x, z)) == Grp(Group(Add, ms)) by { ExpandShape(x, y, x, z); }
    CrossTexts(x, y, z, lt);
  }

  lemma CrossTexts(x: Expr, y: Expr, z: Expr, lt: Complex -> string)
    requires Named(x, y, z)
    ensures ShowAll([Grp(Group(Mul, [x, x])), Grp(Group(Mul, [x, z])), Grp(Group(Mul, [y, x])), Grp(Group(Mul, [y, z]))], lt)
      == ["(x . x)", "(x . z)", "(y . x)", "(y . z)"]
  {
    ShowProduct('x', 'x', lt);
    ShowProduct('x', 'z', lt);
    ShowProduct('y', 'x', lt);
    ShowProduct('y', 'z', lt);
  }

  lemma PowerText(x: Expr, lt: Complex -> string)
    requires x == Var('x')
    ensures Show(ExprPow(x, IntRat(2)), lt) == "(x)^(2)"
  {
  }

  lemma FractionalPowerText(x: Expr, lt: Complex -> string)
    requires x == Var('x')
    ensures Normal(Ratio(1, 2))
    ensures Show(ExprPow(x, Ratio(1, 2)), lt) == "(x)^(1/2)"
  {
  }

  lemma PolynomialText(x: Expr, three: Complex, lt: Complex -> string)
    requires x == Var('x') && three == Complex(3.0, 0.0)
    ensures Show(ExprAdd(ExprAdd(ExprPow(x, IntRat(2)), x), Lit(three)), lt)
      == "(" + Join(["(x)^(2)", "x", lt(three)], " + ") + ")"
  {
    var sq := ExprPow(x, IntRat(2));
    SumChain(sq, x, Lit(three));
    assert Show(sq, lt) == "(x)^(2)" by { PowerText(x, lt); }
    assert ShowAll([sq, x, Lit(three)], lt) == ["(x)^(2)", "x", lt(three)];
  }

  lemma SimpleMultiplicationText(x: Expr, y: Expr, c: Complex, lt: Complex -> string)
    requires x == Var('x') && y == Var('y') && c == Complex(3.0, -2.0)
    ensures Show(ExprMul(ExprMul(Lit(c), x), y), lt) == "(" + Join([lt(c), "x", "y"], " . ") + ")"
  {
    ProductChain(Lit(c), x, y);
    assert ShowAll([Lit(c), x, y], lt) == [lt(c), "x", "y"];
  }
}
