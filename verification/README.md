# cymbal core in Dafny

This project models the core of cymbal, a small Rust library for building
and simplifying algebraic expressions. It covers four pieces:

- **The expression tree** (`expr.dfy`, module `Exprs`). An expression is a
  variable (one character), a complex literal, a power of an expression to
  an exact rational exponent, or an n-ary group (a sum `Add` or a product
  `Mul`) of member expressions.
- **The combinators** (`ops.dfy`, module `Ops`). These are `+`, `*`, `/` and
  `^` on expressions and `+`, `*` on groups. Same-operator groups are
  flattened. Multiplication distributes over sums, and the product of two
  sums is the full cross product.
- **The simplifier** (`simplify.dfy`, module `Simplifier`). It is one
  bottom-up pass. It applies the zero, one, literal and power-of-a-power
  rules to powers. It re-combines the simplified members of a group by
  folding them through the combinators. It fails, with the `TooBig` error,
  only when an exponent numerator does not fit a 64-bit unsigned integer.
- **The text rendering** (`display.dfy`, module `Display`). Every power
  renders as `(base)^(n)`. Every group renders as its members joined by
  ` + ` or ` . ` inside parentheses.

Supporting modules:

- `numbers.dfy` (`Numbers`) holds exact rationals in lowest terms and
  complex numbers with exact real parts. These are the numeric primitives
  the system borrows from its numeric library.
- `semantics.dfy` (`Semantics`) gives a reference meaning. `Eval` maps an
  expression to the complex number it denotes once its variables have
  values. The combinators are related to it by the `*Value` lemmas, and
  the simplifier by `Soundness.SimplifySound`.
- `renderings.dfy` (`Renderings`) proves the texts that the system's own
  examples fix for expressions built with the combinators.

Some facts hold by construction of the Dafny datatypes: the four
expression variants, structural equality of trees (operator and member
order included), and `Power::new(e, n)` storing its arguments unchanged
(it is `Power(n, e)`).

Four behaviours of the code are easy to misread:

- A group with exactly one member simplifies to that member as it is. The
  member itself is not simplified (`src/simplify.rs:74-75`).
- The fold of a group's simplified members starts from a group value,
  `Group::identity(op)` (`src/simplify.rs:78`), not from a literal. So
  literals in a sum are never added together.
- An empty group simplifies to the literal zero for both operators
  (`src/simplify.rs:72-73`), although an empty product denotes one.
  `Soundness.EmptyProductBecomesZero` exhibits this. The soundness theorem
  therefore excludes empty products.
- Division builds the two-member product `[a, b^-1]` directly
  (`src/ops.rs:38-39`). It does not go through multiplication, so a
  product dividend is not flattened (`Ops.DivisionDoesNotFlatten`).

## Model

| member | source | states |
|---|---|---|
| Ops.ExprAdd | src/ops.rs:6-18 | The sum of two literals is one literal holding the complex sum. Every other sum is an `Add` group. |
| Ops.ExprMul | src/ops.rs:20-32 | The product of two literals is one literal holding the complex product. Every other product is a group. |
| Ops.GroupAdd | src/ops.rs:52-69 | Adding two groups always yields a sum. Its members are the summands in `SumOrder`: two sums concatenate, a product comes after a sum's summands, and two products become the two members `[l, r]`. |
| Ops.GroupMul | src/ops.rs:71-89 | Two products concatenate their factors. A product and a sum (in either order) give a sum with one member per summand, member i being the product's factors followed by summand i. Two sums of sizes k and m give a sum of k*m members, position i*m+j holding `l_i . r_j`. |
| Ops.Expand | src/ops.rs:91-99 | Expanding a product over a sum gives a sum with one member per summand. Member i is the product's factors followed by summand i. |
| Ops.AddOrder | src/ops.rs:6-18 | Unless both operands are literals, the sum lists summands in this order: members of the `Add`-group operands, then the operands that are not groups, then the `Mul`-group operands, each part in operand order. |
| Ops.AddKeepsSummands | src/ops.rs:52-69 | A sum keeps exactly the summands of its operands. None is lost or duplicated (multiset equality), and its size is the sum of the operands' summand counts. |
| Ops.MulOrder | src/ops.rs:20-32 | With no sum operand, a product lists the factors of the `Mul`-group operands first, then the operands that are not groups, each in operand order. So `x * (y * z)` is `(y . z . x)`. |
| Ops.MulDistributes | src/ops.rs:71-78 | When exactly one operand is a sum, the product is that sum expanded by the other operand's factors. |
| Ops.MulCrossProduct | src/ops.rs:79-86 | The product of two sums of sizes k and m is a sum of k*m members. Position i*m+j holds `l_i . r_j`, with the left summand varying slowest. |
| Ops.ExprDiv | src/ops.rs:34-41 | Division is always the two-member product of the dividend and the divisor to the power -1, with no flattening or distribution. |
| Ops.DivisionDoesNotFlatten | src/ops.rs:34-41 | For a product dividend of other than one factor, the quotient differs from multiplying by the reciprocal, which would flatten the dividend's factors in. |
| Ops.ExprPow | src/ops.rs:43-50 | `a ^ n` is a power node that gives back exactly `a` and `n`; nothing is evaluated. |
| Semantics.ExprAddValue | src/ops.rs:6-18 | Flattening never changes meaning: the value of `a + b` is the complex sum of the values of `a` and `b`, for every assignment of the variables. |
| Semantics.ExprMulValue | src/ops.rs:20-32 | Flattening and distribution never change meaning: the value of `a * b` is the product of the operands' values. |
| Semantics.ExprDivValue | src/ops.rs:34-41 | When the divisor's value is nonzero, the quotient's value times the divisor's value is the dividend's value. |
| Semantics.ExprPowValue | src/ops.rs:43-50 | `a ^ k` with a natural k has the value of `a` to the k-th power. With a negative k and a nonzero base, it is the reciprocal of the (-k)-th power. |
| Simplifier.Simplify | src/simplify.rs:18-26 | Variables and literals are returned unchanged. |
| Simplifier.SimplifyPower | src/simplify.rs:28-45 | Exponent zero gives the literal one without visiting the base. A failing base fails the whole power. Exponent one gives the simplified base. A literal base goes to the literal rule. A power base gets the product of the exponents over the same inner base. Any other base keeps the exponent. |
| Simplifier.SimplifyPowerOfLiteral | src/simplify.rs:47-68 | Fails with `TooBig` and its message exactly when the exponent's numerator is larger in magnitude than the usize maximum. A natural exponent gives the exact power. A negative integer exponent gives the reciprocal of the power. A non-integer exponent gives a literal root `(v^p)^(1/q)`. |
| Simplifier.SimplifyGroup | src/simplify.rs:70-91 | No members gives the literal zero. One member is returned as is. Otherwise the members are simplified and a failure propagates, or the results are folded from the seed `Exprs.Identity(op)`. |
| Simplifier.SimplifyAll | src/simplify.rs:84-86 | On success, the results pair with the members one to one and in order. On failure, the error is that of the first failing member, and all members before it succeed. |
| Simplifier.NaturalPowerOfLiteral | src/simplify.rs:56-63 | `v ^ k` for an integer k between 2 and the usize maximum simplifies to the literal `v^k`. |
| Simplifier.NegativePowerOfLiteral | src/simplify.rs:48-63 | `v ^ -k` for a nonzero v simplifies to the literal `(1/v)^k`. |
| Simplifier.FractionalPowerOfLiteral | src/simplify.rs:62-67 | `v ^ (p/q)` with q > 1 simplifies to `(v^p) ^ (1/q)`. |
| Simplifier.LiteralPowerExample | src/simplify.rs:97-103 | `2 ^ 3` simplifies to `8`. |
| Simplifier.NegativePowerExample | src/simplify.rs:105-111 | `2 ^ -3` simplifies to `1/8`. |
| Simplifier.FractionalPowerExample | src/simplify.rs:113-119 | `2 ^ (3/2)` simplifies to `8 ^ (1/2)`. |
| Simplifier.ComplexSquaredExample | src/simplify.rs:121-127 | `(1+2i) ^ 2` simplifies to `-3+4i`. |
| Simplifier.PowerOfOneExample | src/simplify.rs:129-135 | `x ^ 1` simplifies to `x`. |
| Simplifier.PowerOfZeroExample | src/simplify.rs:137-143 | `x ^ 0` simplifies to `1`. |
| Simplifier.NestedPowersOfVariable | src/simplify.rs:39-41 | Two nested powers of a variable, neither exponent 0 or 1, merge into one power whose exponent is the product. |
| Simplifier.NestedPowersExample | src/simplify.rs:145-154 | `(x ^ (2/3)) ^ (-3/8)` simplifies to `x ^ (-1/4)`. |
| Simplifier.NotIdempotentExample | src/simplify.rs:39-41 | One pass is not a fixed point. `(x ^ (1/2)) ^ 2` becomes `x ^ 1`, and only a second pass gives `x`. |
| Simplifier.ZeroPowerIgnoresFailingBase | src/simplify.rs:30-34 | A base that fails on its own gives the literal one under exponent zero, because the base is never visited. |
| Simplifier.Fold | src/simplify.rs:88 | Folding into a group keeps a group. Folding into a group of the operator appends each member's operands in order and never merges two members; for a product this holds when no member is a sum. |
| Simplifier.CombineIntoGroup | src/simplify.rs:79-82 | A group of the operator takes one more operand by appending that operand's own operands (a product is not given a sum). |
| Simplifier.LiteralsStaySeparate | src/simplify.rs:78-88 | Folding two literals into any sum appends them as two separate members, whatever the sum already holds. |
| Simplifier.AtomsSimplify | src/simplify.rs:84-86 | A sequence of variables and literals simplifies member by member to itself. |
| Simplifier.SumOfLiteralsExample | src/simplify.rs:78-88 | The sum of the literals 1 and 2 simplifies to the same sum, not to 3, when the fold starts from the empty sum. |
| Soundness.SimplifySound | src/simplify.rs:18-91 | On every expression whose exponents are natural and whose products are nonempty, simplification is defined. Any result it returns has the input's value under every assignment, and it has no non-natural exponent at the top. |
| Soundness.PowerSound | src/simplify.rs:28-45 | The same, for a power node. |
| Soundness.PowerOfPowerSound | src/simplify.rs:41 | Merging nested natural exponents into their product keeps the value. |
| Soundness.GroupSound | src/simplify.rs:70-91 | The same, for a group node. |
| Soundness.FoldValue | src/simplify.rs:88 | Folding members into an accumulator through the combinators gives the accumulator's value combined with the members' values. |
| Soundness.EmptyProductBecomesZero | src/simplify.rs:72-73 | The empty product simplifies to zero while it denotes one. |
| Display.Show | src/display.rs:10-41 | A variable renders as its name and a literal as its text. Every power and every group is wrapped in parentheses. |
| Display.NatTextRoundTrip | src/display.rs:23 | Reading back the decimal digits that an exponent is rendered with gives the number. |
| Display.ShowAll | src/display.rs:34-36 | The member texts pair with the members one to one, in order. |
| Display.ShowSmallGroups | src/display.rs:27-41 | An empty group renders as `()`, and a one-member group wraps its member once. |
| Display.ShowBalanced | src/display.rs:10-41 | Every rendering has balanced parentheses, given literal texts and variable names without parentheses. |
| Display.RatTextParenFree | src/display.rs:23 | The text of an exponent contains no parenthesis. |
| Renderings.ProductChain | src/ops.rs:20-32 | `(a * b) * c` over non-groups is the flat product `[a, b, c]`. |
| Renderings.ProductIntoProduct | src/ops.rs:28 | `a * (b * c)` over non-groups is the flat product `[b, c, a]`. |
| Renderings.ExpandShape | src/ops.rs:79-86 | `(a + b) * (c + d)` is the sum of `a.c`, `a.d`, `b.c`, `b.d`, in that order. |
| Renderings.SimpleMultiplyText | src/ops.rs:104-110 | `(x * y) * z` renders as `(x . y . z)`. |
| Renderings.AssociativeMultiplyText | src/ops.rs:112-118 | `x * (y * z)` renders as `(y . z . x)`. |
| Renderings.ScalePolynomialText | src/ops.rs:120-126 | `x * (y + z)` renders as `((x . y) + (x . z))`. |
| Renderings.ExpandText | src/ops.rs:128-134 | `(x + y) * (x + z)` renders as `((x . x) + (x . z) + (y . x) + (y . z))`. |
| Renderings.PowerText | src/display.rs:47-50 | `x ^ 2` renders as `(x)^(2)`. |
| Renderings.FractionalPowerText | src/display.rs:52-55 | `x ^ (1/2)` renders as `(x)^(1/2)`. |
| Renderings.PolynomialText | src/display.rs:57-63 | `x^2 + x + 3` renders as `((x)^(2) + x + L)`, where L is the literal's text. |
| Renderings.SimpleMultiplicationText | src/display.rs:65-71 | `(3-2i) * x * y` renders as `(L . x . y)`, where L is the literal's text. |

## Left out

- `Statement` and `StatementKind` (`src/expr.rs:11-19`) are left out. They are an unused equality stub with no operations.
- The numeric library's complex and rational types are not reused. Complex numbers are modelled with exact real parts (`real` is exact in Dafny), a superset of the library's rational values. Rationals are kept in lowest terms with a positive denominator. `src/literal.rs` defines only rational literals and their constructors; the `Complex`/`Real` types the core uses are not part of this model.
- Numeric literal text is left out. The text of a complex literal (such as `3+0i`) comes from the numeric library, so `Display.Show` takes it as a parameter. The text of a rational exponent is written as `n`, or `n/d` when the denominator is not one.
- Renderings.PolynomialText: states the literal's text as `L`, not as `3+0i`, because literal text is a parameter.
- Renderings.SimpleMultiplicationText: states the literal's text as `L`, not as `3-2i`, for the same reason.
- `Group::identity` is not part of this model. `Exprs.Identity` takes it to be the empty group of the operator.
- The inverse of a zero literal is left out. A negative power of a base that simplifies to the literal zero inverts zero, which the numeric library does not define. `Simplifier.Simplify` requires `Simplifiable`, which excludes exactly this case along the simplifier's own path.
- Simplifier.SimplifyPowerOfLiteral: assumes `usize` is 64 bits wide (`USIZE_MAX`). It computes the power by repeated multiplication, which gives the same exact value as the library's exponentiation by squaring.
- Soundness.SimplifySound: covers only natural exponents and nonempty products. Negative exponents are excluded because soundness would need every inverted base to be nonzero under the assignment. Roots are excluded because the power-of-a-power rule (`src/simplify.rs:41`) does not keep their value: `(x^2)^(1/2)` becomes `x^1`. The empty product simplifies to zero.
- Soundness.GroupSound: depends on `Exprs.Identity`, the assumed value of `Group::identity`. The proof needs the fold's seed to evaluate to the operator's unit (zero for a sum, one for a product).
- Simplifier.SumOfLiteralsExample: depends on `Exprs.Identity` for the fold's seed. `Simplifier.LiteralsStaySeparate` states the same fact for every sum seed.
- Semantics.ExprPowValue: gives a value only for integer exponents, because a root has no single complex value (`Semantics.Eval` reads roots through a parameter).
- Display.ShowBalanced: assumes literal texts and variable names contain no parenthesis.
- Idempotence of `simplify` does not hold, so it is not claimed (see `Simplifier.NotIdempotentExample`).
- Recursion depth, memory use and the cost of distribution are left out. They have no counterpart in a pure model.
- The trivial test in `src/expr.rs:45-51` is left out. It does not test the library.
