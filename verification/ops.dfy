/** The algebraic combinators: `+`, `*`, `/` and `^` on expressions and `+`,
    `*` on groups. Same-operator groups are flattened by concatenation and
    multiplication distributes over sums. All of them are total. */
module Ops {
  import opened Numbers
  import opened Exprs

  // How an operand is split up when it joins a sum or a product. For a sum,
  // an `Add` group contributes its members, anything else itself; likewise
  // for a product with `Mul`.

  function Operands(e: Expr, op: Op): seq<Expr>
  {
    if IsGroupOf(e, op) then e.group.members else [e]
  }

  /** The members of `e` if it is a group of `op`, and nothing otherwise. */
  function MembersOf(e: Expr, op: Op): seq<Expr>
  {
    if IsGroupOf(e, op) then e.group.members else []
  }

  /** `e` itself if it is not a group, and nothing otherwise. */
  function Atom(e: Expr): seq<Expr>
  {
    if e.Grp? then [] else [e]
  }

  /** `e` itself if it is a group of `op`, and nothing otherwise. */
  function Whole(e: Expr, op: Op): seq<Expr>
  {
    if IsGroupOf(e, op) then [e] else []
  }

  /** `mul` with one more factor `r` appended. */
  function Extend(mul: Group, r: Expr): Expr
  {
    Grp(Group(mul.op, mul.members + [r]))
  }

  /** The sum of `mul . r` over the summands `r` of `add`, in summand order. */
  function Expand(mul: Group, add: Group): (g: Group)
    ensures g.op == Add && |g.members| == |add.members|
    ensures forall i :: 0 <= i < |add.members| ==> g.members[i] == Extend(mul, add.members[i])
  {
    Group(Add, ExpandAll(mul, add.members))
  }

  function ExpandAll(mul: Group, rs: seq<Expr>): (ms: seq<Expr>)
    ensures |ms| == |rs|
    ensures forall i :: 0 <= i < |rs| ==> ms[i] == Extend(mul, rs[i])
  {
    if rs == [] then [] else [Extend(mul, rs[0])] + ExpandAll(mul, rs[1..])
  }

  /** The product of two sums: `l . r` for each summand `l` of the left sum,
      each followed by every summand `r` of the right sum. */
  function CrossAll(ls: seq<Expr>, add: Group): seq<Expr>
  {
    if ls == [] then [] else Expand(Group(Mul, [ls[0]]), add).members + CrossAll(ls[1..], add)
  }

  /** Sum of two groups: an `Add` group absorbs the other operand's members
      when that operand is a sum, and takes it whole when it is a product. */
  function GroupAdd(l: Group, r: Group): (g: Group)
    ensures g.op == Add
    ensures g.members == SumOrder(Grp(l), Grp(r))
  {
    if l.op == Add && r.op == Add then Group(Add, l.members + r.members)
    else if l.op == Add then Group(Add, l.members + [Grp(r)])
    else if r.op == Add then Group(Add, r.members + [Grp(l)])
    else Group(Add, [Grp(l), Grp(r)])
  }

  /** Product of two groups: two products concatenate their factors, a
      product and a sum expand in either order, and two sums give every
      pairwise product of their summands, the left summand varying slowest. */
  function GroupMul(l: Group, r: Group): (g: Group)
    ensures l.op == Mul && r.op == Mul ==> g == Group(Mul, l.members + r.members)
    ensures l.op == Add && r.op == Mul ==> g.op == Add && |g.members| == |l.members|
    ensures l.op == Add && r.op == Mul ==>
      forall i :: 0 <= i < |l.members| ==> g.members[i] == Grp(Group(Mul, r.members + [l.members[i]]))
    ensures l.op == Mul && r.op == Add ==> g.op == Add && |g.members| == |r.members|
    ensures l.op == Mul && r.op == Add ==>
      forall i :: 0 <= i < |r.members| ==> g.members[i] == Grp(Group(Mul, l.members + [r.members[i]]))
    ensures l.op == Add && r.op == Add ==> g.op == Add && |g.members| == |l.members| * |r.members|
    ensures l.op == Add && r.op == Add ==> forall i, j :: 0 <= i < |l.members| && 0 <= j < |r.members| ==>
      PairAt(g.members, l.members, r.members, i, j)
  {
    if l.op == Mul && r.op == Mul then Group(Mul, l.members + r.members)
    else if l.op == Add && r.op == Mul then Expand(r, l)
    else if l.op == Mul && r.op == Add then Expand(l, r)
    else
      CrossAllLength(l.members, r);
      CrossAllPairs(l.members, r);
      Group(Add, CrossAll(l.members, r))
  }

  /** `a + b`. Two literals are added; otherwise the result is a sum holding
      the summands of the `Add`-group operands first, then the operands that
      are not groups, then the `Mul`-group operands, each part in operand
      order. */
  function ExprAdd(a: Expr, b: Expr): (r: Expr)
    ensures a.Lit? && b.Lit? ==> r == Lit(CAdd(a.value, b.value))
    ensures !(a.Lit? && b.Lit?) ==> IsGroupOf(r, Add)
  {
    if a.Lit? && b.Lit? then Lit(CAdd(a.value, b.value))
    else if a.Grp? && b.Grp? then Grp(GroupAdd(a.group, b.group))
    else if a.Grp? then Grp(GroupAdd(a.group, Group(Add, [b])))
    else if b.Grp? then Grp(GroupAdd(b.group, Group(Add, [a])))
    else Grp(Group(Add, [a, b]))
  }

  /** `a * b`. Two literals are multiplied. */
  function ExprMul(a: Expr, b: Expr): (r: Expr)
    ensures a.Lit? && b.Lit? ==> r == Lit(CMul(a.value, b.value))
    ensures !(a.Lit? && b.Lit?) ==> r.Grp?
  {
    if a.Lit? && b.Lit? then Lit(CMul(a.value, b.value))
    else if a.Grp? && b.Grp? then Grp(GroupMul(a.group, b.group))
    else if a.Grp? then Grp(GroupMul(a.group, Group(Mul, [b])))
    else if b.Grp? then Grp(GroupMul(b.group, Group(Mul, [a])))
    else Grp(Group(Mul, [a, b]))
  }

  /** `a / b` is the product `a . b^-1`, with no flattening or distribution. */
  function ExprDiv(a: Expr, b: Expr): (r: Expr)
    ensures IsGroupOf(r, Mul) && |r.group.members| == 2
    ensures r.group.members[0] == a && r.group.members[1] == ExprPow(b, IntRat(-1))
  {
    Grp(Group(Mul, [a, Pow(Power(IntRat(-1), b))]))
  }

  /** `a ^ n` builds the power node without evaluating it: base and
      exponent are recovered unchanged. */
  function ExprPow(a: Expr, n: Rat): (r: Expr)
    ensures r.Pow? && r.power.expr == a && r.power.n == n
  {
    Pow(Power(n, a))
  }

  /** Division is not multiplication by the reciprocal: a dividend that is
      a product of other than one factor is kept whole rather than
      flattened into the quotient. */
  lemma DivisionDoesNotFlatten(a: Expr, b: Expr)
    requires IsGroupOf(a, Mul) && |a.group.members| != 1
    ensures ExprMul(a, ExprPow(b, IntRat(-1))) == Grp(Group(Mul, a.group.members + [ExprPow(b, IntRat(-1))]))
    ensures ExprDiv(a, b) != ExprMul(a, ExprPow(b, IntRat(-1)))
  {
    var p := ExprPow(b, IntRat(-1));
    assert |ExprMul(a, p).group.members| == |a.group.members| + 1;
  }

  /** The summands of `a + b` in order: the members of the `Add`-group
      operands first, then the operands that are not groups, then the
      `Mul`-group operands, each part in operand order. */
  function SumOrder(a: Expr, b: Expr): seq<Expr>
  {
    MembersOf(a, Add) + MembersOf(b, Add) + Atom(a) + Atom(b) + Whole(a, Mul) + Whole(b, Mul)
  }

  lemma AddOrder(a: Expr, b: Expr)
    requires !(a.Lit? && b.Lit?)
    ensures ExprAdd(a, b).group.members == SumOrder(a, b)
  {
  }

  /** No summand is lost or duplicated by `+`: the sum holds exactly the
      summands of both operands, so its size is s(a) + s(b), where s counts
      the members of an `Add` group and 1 for anything else. */
  lemma AddKeepsSummands(a: Expr, b: Expr)
    requires !(a.Lit? && b.Lit?)
    ensures multiset(ExprAdd(a, b).group.members) == multiset(Operands(a, Add)) + multiset(Operands(b, Add))
    ensures |ExprAdd(a, b).group.members| == |Operands(a, Add)| + |Operands(b, Add)|
  {
    AddOrder(a, b);
    SumOrderSummands(a, b);
  }

  lemma SumOrderSummands(a: Expr, b: Expr)
    ensures multiset(SumOrder(a, b)) == multiset(Operands(a, Add)) + multiset(Operands(b, Add))
    ensures |SumOrder(a, b)| == |Operands(a, Add)| + |Operands(b, Add)|
  {
    SplitOperands(a);
    SplitOperands(b);
  }

  /** Exactly one of the three parts of `SumOrder` holds an operand's
      summands. */
  lemma SplitOperands(e: Expr)
    ensures multiset(Operands(e, Add)) == multiset(MembersOf(e, Add)) + multiset(Atom(e)) + multiset(Whole(e, Mul))
    ensures |Operands(e, Add)| == |MembersOf(e, Add)| + |Atom(e)| + |Whole(e, Mul)|
  {
  }

  /** A product without an `Add`-group operand (other than two literals) is a
      product of the factors of `Mul`-group operands first, then the operands
      that are not groups, each part in operand order; so `x . (y . z)` is
      `(y . z . x)`. */
  lemma MulOrder(a: Expr, b: Expr)
    requires !(a.Lit? && b.Lit?) && !IsGroupOf(a, Add) && !IsGroupOf(b, Add)
    ensures ExprMul(a, b) == Grp(Group(Mul, MembersOf(a, Mul) + MembersOf(b, Mul) + Atom(a) + Atom(b)))
  {
    if IsGroupOf(a, Mul) && IsGroupOf(b, Mul) {
      assert MembersOf(a, Mul) + MembersOf(b, Mul) + Atom(a) + Atom(b) == a.group.members + b.group.members;
    } else if IsGroupOf(a, Mul) {
      assert MembersOf(a, Mul) + MembersOf(b, Mul) + Atom(a) + Atom(b) == a.group.members + [b];
    } else if IsGroupOf(b, Mul) {
      assert MembersOf(a, Mul) + MembersOf(b, Mul) + Atom(a) + Atom(b) == b.group.members + [a];
    } else {
      assert MembersOf(a, Mul) + MembersOf(b, Mul) + Atom(a) + Atom(b) == [a, b];
    }
  }

  /** A product with exactly one `Add`-group operand distributes: one
      product per summand, each made of the factors of the other operand
      followed by that summand, in summand order. */
  lemma MulDistributes(a: Expr, b: Expr)
    requires IsGroupOf(a, Add) != IsGroupOf(b, Add)
    ensures IsGroupOf(a, Add) ==> ExprMul(a, b) == Grp(Expand(Group(Mul, Operands(b, Mul)), a.group))
    ensures IsGroupOf(b, Add) ==> ExprMul(a, b) == Grp(Expand(Group(Mul, Operands(a, Mul)), b.group))
  {
    if IsGroupOf(a, Add) && IsGroupOf(b, Mul) {
      assert Group(Mul, Operands(b, Mul)) == b.group;
    } else if IsGroupOf(b, Add) && IsGroupOf(a, Mul) {
      assert Group(Mul, Operands(a, Mul)) == a.group;
    }
  }

  /** Position `i * |R| + j` of the product of the sums `L` and `R` holds
      `L[i] . R[j]`. */
  predicate PairAt(ms: seq<Expr>, ls: seq<Expr>, rs: seq<Expr>, i: int, j: int)
    requires 0 <= i < |ls| && 0 <= j < |rs|
  {
    i * |rs| + j < |ms| && ms[i * |rs| + j] == Grp(Group(Mul, [ls[i], rs[j]]))
  }

  /** The product of two sums holds `l . r` for every pair of summands, the
      left summand varying slowest. */
  lemma MulCrossProduct(a: Expr, b: Expr)
    requires IsGroupOf(a, Add) && IsGroupOf(b, Add)
    ensures IsGroupOf(ExprMul(a, b), Add)
    ensures |ExprMul(a, b).group.members| == |a.group.members| * |b.group.members|
    ensures forall i, j :: 0 <= i < |a.group.members| && 0 <= j < |b.group.members| ==>
      PairAt(ExprMul(a, b).group.members, a.group.members, b.group.members, i, j)
  {
    assert ExprMul(a, b) == Grp(Group(Add, CrossAll(a.group.members, b.group)));
    CrossAllLength(a.group.members, b.group);
    CrossAllPairs(a.group.members, b.group);
  }

  lemma {:induction false} CrossAllLength(ls: seq<Expr>, add: Group)
    ensures |CrossAll(ls, add)| == |ls| * |add.members|
  {
    if ls != [] {
      CrossAllLength(ls[1..], add);
      RowShift(|ls|, |add.members|, 0);
    }
  }

  lemma CrossAllPairs(ls: seq<Expr>, add: Group)
    ensures forall i, j :: 0 <= i < |ls| && 0 <= j < |add.members| ==>
      PairAt(CrossAll(ls, add), ls, add.members, i, j)
  {
    forall i, j | 0 <= i < |ls| && 0 <= j < |add.members|
      ensures PairAt(CrossAll(ls, add), ls, add.members, i, j)
    {
      CrossAllAt(ls, add, i, j);
    }
  }

  lemma CrossAllAt(ls: seq<Expr>, add: Group, i: nat, j: nat)
    requires i < |ls| && j < |add.members|
    ensures i * |add.members| + j < |CrossAll(ls, add)|
    ensures CrossAll(ls, add)[i * |add.members| + j] == Grp(Group(Mul, [ls[i], add.members[j]]))
  {
    CrossAllAtIndex(ls, add, i, j, i * |add.members| + j);
  }

  lemma {:induction false} CrossAllAtIndex(ls: seq<Expr>, add: Group, i: nat, j: nat, k: int)
    requires i < |ls| && j < |add.members| && k == i * |add.members| + j
    ensures 0 <= k < |CrossAll(ls, add)|
    ensures CrossAll(ls, add)[k] == Grp(Group(Mul, [ls[i], add.members[j]]))
    decreases i
  {
    var n := |add.members|;
    var head := Expand(Group(Mul, [ls[0]]), add).members;
    var rest := CrossAll(ls[1..], add);
    assert CrossAll(ls, add) == head + rest;
    if i == 0 {
      assert k == j;
      assert head[j] == Extend(Group(Mul, [ls[0]]), add.members[j]);
      assert [ls[0]] + [add.members[j]] == [ls[0], add.members[j]];
    } else {
      RowShift(i, n, j);
      CrossAllAtIndex(ls[1..], add, i - 1, j, k - n);
      assert ls[1..][i - 1] == ls[i];
    }
  }

  lemma RowShift(i: int, n: int, j: int)
    ensures i * n + j == n + ((i - 1) * n + j)
  {
  }
}
