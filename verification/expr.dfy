/** The expression tree: variables, complex literals, powers with a rational
    exponent, and n-ary sum/product groups. Children are held by value, so
    every tree is finite and recursion on subterms terminates. */
module Exprs {
  import opened Numbers

  /** The two group operators. */
  datatype Op = Add | Mul

  datatype Expr =
    | Var(name: char)
    | Lit(value: Complex)
    | Pow(power: Power)
    | Grp(group: Group)

  /** `expr` raised to the rational exponent `n`; the exponent is a number,
      never an expression. `Power(n, e)` is the system's `Power::new(e, n)`. */
  datatype Power = Power(n: Rat, expr: Expr)

  /** A sum (`Add`) or product (`Mul`) of the members, in stored order. */
  datatype Group = Group(op: Op, members: seq<Expr>)

  predicate IsGroupOf(e: Expr, op: Op)
  {
    e.Grp? && e.group.op == op
  }

  /** The seed of the simplifier's fold. The system calls a group
      constructor that is not part of this model; it is taken here to be the
      empty group of the operator, whose value is the operator's identity. */
  function Identity(op: Op): Group
  {
    Group(op, [])
  }
}
