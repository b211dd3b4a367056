/** Text rendering of expressions. Every power and every group is wrapped
    in parentheses, so no precedence rules are needed to read the text
    back. Complex literals are rendered by a caller-supplied function; the
    rational exponents are rendered as `n` or `n/d`. */
module Display {
  import opened Numbers
  import opened Exprs

  function Delimiter(op: Op): string
  {
    if op == Add then " + " else " . "
  }

  function Digit(d: int): char
    requires 0 <= d < 10
  {
    (('0' as int) + d) as char
  }

  predicate IsDigit(c: char)
  {
    '0' <= c <= '9'
  }

  /** Decimal digits of `n`, most significant first, with no leading zero. */
  function NatText(n: nat): (s: string)
    ensures |s| >= 1 && forall i :: 0 <= i < |s| ==> IsDigit(s[i])
    ensures |s| > 1 ==> s[0] != '0'
    decreases n
  {
    if n < 10 then [Digit(n)] else NatText(n / 10) + [Digit(n % 10)]
  }

  /** The number a string of decimal digits denotes. */
  function DigitsValue(s: string): nat
    requires forall i :: 0 <= i < |s| ==> IsDigit(s[i])
  {
    if s == [] then 0 else 10 * DigitsValue(s[..|s| - 1]) + DigitValue(s[|s| - 1])
  }

  function DigitValue(c: char): nat
    requires IsDigit(c)
  {
    (c as int) - ('0' as int)
  }

  /** Reading the digits back gives the number. */
  lemma {:induction false} NatTextRoundTrip(n: nat)
    ensures DigitsValue(NatText(n)) == n
    decreases n
  {
    var s := NatText(n);
    if n >= 10 {
      var t := NatText(n / 10);
      NatTextRoundTrip(n / 10);
      assert s == t + [Digit(n % 10)];
      assert s[..|s| - 1] == t;
      assert DigitValue(s[|s| - 1]) == n % 10;
    }
  }

  function IntText(k: int): string
  {
    if k < 0 then "-" + NatText(-k) else NatText(k)
  }

  function RatText(n: Rat): string
  {
    if n.denom == 1 then IntText(n.numer) else IntText(n.numer) + "/" + IntText(n.denom)
  }

  /** The text of an expression; `litText` renders complex literals. */
  function Show(e: Expr, litText: Complex -> string): (r: string)
    ensures e.Var? ==> r == [e.name]
    ensures e.Lit? ==> r == litText(e.value)
    ensures e.Pow? || e.Grp? ==> |r| >= 2 && r[0] == '(' && r[|r| - 1] == ')'
    decreases e
  {
    match e
    case Var(c) => [c]
    case Lit(v) => litText(v)
    case Pow(p) => "(" + Show(p.expr, litText) + ")^(" + RatText(p.n) + ")"
    case Grp(g) => "(" + Join(ShowAll(g.members, litText), Delimiter(g.op)) + ")"
  }

  /** The texts of the members, in order. */
  function ShowAll(ms: seq<Expr>, litText: Complex -> string): (r: seq<string>)
    ensures |r| == |ms| && forall i :: 0 <= i < |ms| ==> r[i] == Show(ms[i], litText)
    decreases ms
  {
    if ms == [] then [] else [Show(ms[0], litText)] + ShowAll(ms[1..], litText)
  }

  /** The parts separated by `delim`. */
  function Join(parts: seq<string>, delim: string): string
  {
    if parts == [] then ""
    else if |parts| == 1 then parts[0]
    else parts[0] + delim + Join(parts[1..], delim)
  }

  /** An empty group renders as a bare pair of parentheses and a single
      member is wrapped once, for either operator. */
  lemma ShowSmallGroups(op: Op, m: Expr, litText: Complex -> string)
    ensures Show(Grp(Group(op, [])), litText) == "()"
    ensures Show(Grp(Group(op, [m])), litText) == "(" + Show(m, litText) + ")"
  {
    assert ShowAll([m], litText) == [Show(m, litText)];
  }

  // Parenthesis balance of the rendered text.

  function Step(c: char): int
  {
    if c == '(' then 1 else if c == ')' then -1 else 0
  }

  /** Open parentheses minus closed ones. */
  function Depth(s: string): int
  {
    if s == [] then 0 else Step(s[0]) + Depth(s[1..])
  }

  /** Every prefix has no excess closing parenthesis and the whole has none
      left open. */
  predicate Balanced(s: string)
  {
    Depth(s) == 0 && forall k :: 0 <= k <= |s| ==> Depth(s[..k]) >= 0
  }

  predicate ParenFree(s: string)
  {
    forall i :: 0 <= i < |s| ==> s[i] != '(' && s[i] != ')'
  }

  /** No variable is named by a parenthesis. */
  predicate PlainNames(e: Expr)
    decreases e
  {
    match e
    case Var(c) => c != '(' && c != ')'
    case Lit(_) => true
    case Pow(p) => PlainNames(p.expr)
    case Grp(g) => forall i :: 0 <= i < |g.members| ==> PlainNames(g.members[i])
  }

  lemma {:induction false} DepthConcat(a: string, b: string)
    ensures Depth(a + b) == Depth(a) + Depth(b)
  {
    if a != [] {
      assert (a + b)[1..] == a[1..] + b;
      DepthConcat(a[1..], b);
    } else {
      assert a + b == b;
    }
  }

  lemma {:induction false} ParenFreeDepth(s: string)
    requires ParenFree(s)
    ensures Depth(s) == 0
  {
    if s != [] {
      ParenFreeDepth(s[1..]);
    }
  }

  lemma ParenFreeBalanced(s: string)
    requires ParenFree(s)
    ensures Balanced(s)
  {
    forall k | 0 <= k <= |s|
      ensures Depth(s[..k]) >= 0
    {
      ParenFreeDepth(s[..k]);
    }
    ParenFreeDepth(s);
  }

  lemma ConcatBalanced(a: string, b: string)
    requires Balanced(a) && Balanced(b)
    ensures Balanced(a + b)
  {
    DepthConcat(a, b);
    forall k | 0 <= k <= |a + b|
      ensures Depth((a + b)[..k]) >= 0
    {
      if k <= |a| {
        assert (a + b)[..k] == a[..k];
      } else {
        assert (a + b)[..k] == a + b[..k - |a|];
        DepthConcat(a, b[..k - |a|]);
      }
    }
  }

  lemma WrapBalanced(s: string)
    requires Balanced(s)
    ensures Balanced("(" + s + ")")
  {
    var w := "(" + s + ")";
    assert w == "(" + (s + ")");
    DepthConcat(s, ")");
    assert Depth(w) == 1 + Depth(s + ")");
    forall k | 0 <= k <= |w|
      ensures Depth(w[..k]) >= 0
    {
      if 1 <= k <= |s| + 1 {
        assert w[..k] == "(" + s[..k - 1];
        DepthConcat("(", s[..k - 1]);
      } else if k == |w| {
        assert w[..k] == w;
      }
    }
  }

  /** The rendering of every expression is balanced, provided literals and
      variable names contain no parenthesis. */
  lemma {:induction false} ShowBalanced(e: Expr, litText: Complex -> string)
    requires forall v :: ParenFree(litText(v))
    requires PlainNames(e)
    ensures Balanced(Show(e, litText))
    decreases e
  {
    match e
    case Var(c) =>
      ParenFreeBalanced([c]);
    case Lit(v) =>
      ParenFreeBalanced(litText(v));
    case Pow(p) =>
      ShowBalanced(p.expr, litText);
      RatTextParenFree(p.n);
      PowerBalanced(Show(p.expr, litText), RatText(p.n));
    case Grp(g) =>
      var parts := ShowAll(g.members, litText);
      forall i | 0 <= i < |parts|
        ensures Balanced(parts[i])
      {
        ShowBalanced(g.members[i], litText);
      }
      GroupBalanced(parts, Delimiter(g.op));
  }

  lemma PowerBalanced(base: string, exp: string)
    requires Balanced(base) && ParenFree(exp)
    ensures Balanced("(" + base + ")^(" + exp + ")")
  {
    WrapBalanced(base);
    ParenFreeBalanced(exp);
    WrapBalanced(exp);
    ParenFreeBalanced("^");
    ConcatBalanced("(" + base + ")", "^");
    ConcatBalanced("(" + base + ")" + "^", "(" + exp + ")");
    assert "(" + base + ")^(" + exp + ")" == "(" + base + ")" + "^" + ("(" + exp + ")");
  }

  lemma GroupBalanced(parts: seq<string>, delim: string)
    requires forall i :: 0 <= i < |parts| ==> Balanced(parts[i])
    requires ParenFree(delim)
    ensures Balanced("(" + Join(parts, delim) + ")")
  {
    JoinBalanced(parts, delim);
    WrapBalanced(Join(parts, delim));
  }

  lemma {:induction false} JoinBalanced(parts: seq<string>, delim: string)
    requires forall i :: 0 <= i < |parts| ==> Balanced(parts[i])
    requires ParenFree(delim)
    ensures Balanced(Join(parts, delim))
  {
    if parts == [] {
      ParenFreeBalanced("");
    } else if |parts| > 1 {
      JoinBalanced(parts[1..], delim);
      ParenFreeBalanced(delim);
      ConcatBalanced(parts[0], delim);
      ConcatBalanced(parts[0] + delim, Join(parts[1..], delim));
    }
  }

  lemma RatTextParenFree(n: Rat)
    ensures ParenFree(RatText(n))
  {
  }
}
