/** The textual form of expressions: a symbol is its name, a function is its
    name followed by its arguments in parentheses, separated by ", ". */
module Rendering {
  import opened Terms

  function Render(e: Expr): (r: string)
    ensures e.Sym? ==> r == e.name
    ensures e.Fun? ==> |r| >= |e.fname| + 2 + (if e.args == [] then 0 else 2 * (|e.args| - 1))
    decreases e
  {
    match e
    case Sym(s) => s
    case Fun(f, args) => f + "(" + RenderArgs(args) + ")"
  }

  /** The arguments rendered in order, with ", " before every one but the first. */
  function RenderArgs(args: seq<Expr>): (r: string)
    ensures args == [] ==> r == ""
    ensures |r| >= 2 * (|args| - 1)
    decreases args
  {
    if args == [] then ""
    else if |args| == 1 then Render(args[0])
    else Render(args[0]) + ", " + RenderArgs(args[1..])
  }

  /** The layout of a function term's text: its name, an opening parenthesis,
      the arguments, a closing parenthesis; the arguments open with the first
      argument's text and are separated by ", ". */
  lemma FunLayout(f: string, args: seq<Expr>)
    ensures var r := Render(Fun(f, args));
      && r[..|f| + 1] == f + "(" && r[|r| - 1] == ')'
      && r[|f| + 1..|r| - 1] == RenderArgs(args)
    ensures |args| > 1 ==> var a := Render(args[0]);
      RenderArgs(args)[..|a| + 2] == a + ", "
  {
    var r := Render(Fun(f, args));
    assert r == f + "(" + RenderArgs(args) + ")";
    if |args| > 1 {
      var a := Render(args[0]);
      assert RenderArgs(args) == a + ", " + RenderArgs(args[1..]);
    }
  }

  /** The text the loop of the source writes for the arguments from index i
      on: ", " before every argument except the one at index 0, then the
      argument's text. */
  function LoopText(args: seq<Expr>, i: nat): (r: string)
    requires i <= |args|
    decreases |args| - i
  {
    if i == |args| then ""
    else (if i > 0 then ", " else "") + Render(args[i]) + LoopText(args, i + 1)
  }

  /** From a position past the first, the loop writes ", " and then the
      remaining arguments joined as RenderArgs joins them. */
  lemma {:induction false} LoopFrom(args: seq<Expr>, i: nat)
    requires 0 < i < |args|
    ensures LoopText(args, i) == ", " + RenderArgs(args[i..])
    decreases |args| - i
  {
    if i + 1 < |args| {
      LoopFrom(args, i + 1);
      assert args[i..][1..] == args[i + 1..];
    } else {
      assert args[i..] == [args[i]];
    }
  }

  /** The recursive join writes the same text as the source's indexed loop. */
  lemma RenderArgsIsLoop(args: seq<Expr>)
    ensures RenderArgs(args) == LoopText(args, 0)
  {
    if |args| > 1 {
      LoopFrom(args, 1);
    }
  }

  /** Characters that may appear in a name for the text to be unambiguous. */
  predicate NameChar(c: char)
  {
    c != '(' && c != ')' && c != ',' && c != ' '
  }

  predicate ValidName(s: string)
  {
    |s| > 0 && forall i :: 0 <= i < |s| ==> NameChar(s[i])
  }

  /** Every symbol and function name in e is a valid name. */
  predicate WellNamed(e: Expr)
    decreases e
  {
    match e
    case Sym(s) => ValidName(s)
    case Fun(f, args) => ValidName(f) && forall i :: 0 <= i < |args| ==> WellNamed(args[i])
  }

  /** What may follow a rendered expression in a larger text. */
  predicate Follows(t: string)
  {
    t == [] || t[0] == ',' || t[0] == ')' || t[0] == ' '
  }

  /** A rendered well-named expression opens with a name character. */
  lemma RenderStart(e: Expr)
    requires WellNamed(e)
    ensures |Render(e)| > 0 && NameChar(Render(e)[0])
  {
    match e
    case Sym(s) =>
    case Fun(f, args) =>
      assert Render(e)[0] == f[0];
  }

  /** If a name is a proper prefix of another, the text after the shorter
      one starts with a name character. */
  lemma NameOverrun(n1: string, x1: string, n2: string, x2: string)
    requires ValidName(n2)
    requires n1 + x1 == n2 + x2
    requires |n1| < |n2|
    ensures x1 != [] && NameChar(x1[0])
  {
    assert (n1 + x1)[|n1|] == n2[|n1|];
  }

  /** A rendered non-empty argument list opens with a name character. */
  lemma ArgsStart(args: seq<Expr>, u: string)
    requires |args| > 0 && WellNamed(args[0])
    ensures |RenderArgs(args) + u| > 0 && NameChar((RenderArgs(args) + u)[0])
  {
    RenderStart(args[0]);
    ArgsText(args, u);
    var r := Render(args[0]);
    assert (RenderArgs(args) + u)[0] == r[0];
  }

  /** Two names each followed by a non-name character (or nothing) can only
      be glued into the same text in one way. */
  lemma NameSplit(n1: string, x1: string, n2: string, x2: string)
    requires ValidName(n1) && ValidName(n2)
    requires x1 == [] || !NameChar(x1[0])
    requires x2 == [] || !NameChar(x2[0])
    requires n1 + x1 == n2 + x2
    ensures n1 == n2 && x1 == x2
  {
    var w := n1 + x1;
    if |n1| < |n2| {
      NameOverrun(n1, x1, n2, x2);
      assert false;
    } else if |n2| < |n1| {
      NameOverrun(n2, x2, n1, x1);
      assert false;
    } else {
      assert n1 == w[..|n1|] && n2 == w[..|n2|];
      assert x1 == w[|n1|..] && x2 == w[|n2|..];
    }
  }

  /** Equal texts that start with the same prefix agree on the rest. */
  lemma Peel(p: string, a: string, b: string)
    requires p + a == p + b
    ensures a == b
  {
    assert a == (p + a)[|p|..];
    assert b == (p + b)[|p|..];
  }

  /** A rendered function term, regrouped as name, "(", arguments, ")". */
  lemma FunText(f: string, args: seq<Expr>, t: string)
    ensures Render(Fun(f, args)) + t == f + ("(" + (RenderArgs(args) + (")" + t)))
  {
  }

  /** A non-empty argument list, regrouped as its first argument and the rest. */
  lemma ArgsText(args: seq<Expr>, u: string)
    requires |args| > 0
    ensures RenderArgs(args) + u
         == Render(args[0]) + (if |args| == 1 then u else ", " + (RenderArgs(args[1..]) + u))
  {
  }

  /** Unique readability: a rendered well-named expression followed by a
      valid continuation determines both the expression and the continuation. */
  lemma {:induction false} RenderPrefix(e1: Expr, e2: Expr, t1: string, t2: string)
    requires WellNamed(e1) && WellNamed(e2)
    requires Follows(t1) && Follows(t2)
    requires Render(e1) + t1 == Render(e2) + t2
    ensures e1 == e2 && t1 == t2
    decreases e1
  {
    match e1 {
      case Sym(n1) =>
        match e2 {
          case Sym(n2) =>
            NameSplit(n1, t1, n2, t2);
          case Fun(f2, args2) =>
            FunText(f2, args2, t2);
            NameSplit(n1, t1, f2, "(" + (RenderArgs(args2) + (")" + t2)));
        }
      case Fun(f1, args1) =>
        FunText(f1, args1, t1);
        match e2 {
          case Sym(n2) =>
            NameSplit(f1, "(" + (RenderArgs(args1) + (")" + t1)), n2, t2);
          case Fun(f2, args2) =>
            FunText(f2, args2, t2);
            NameSplit(f1, "(" + (RenderArgs(args1) + (")" + t1)), f2, "(" + (RenderArgs(args2) + (")" + t2)));
            Peel("(", RenderArgs(args1) + (")" + t1), RenderArgs(args2) + (")" + t2));
            ArgsPrefix(args1, args2, ")" + t1, ")" + t2);
            Peel(")", t1, t2);
        }
    }
  }

  /** The same for argument lists, each followed by the closing parenthesis. */
  lemma {:induction false} ArgsPrefix(as1: seq<Expr>, as2: seq<Expr>, u1: string, u2: string)
    requires forall i :: 0 <= i < |as1| ==> WellNamed(as1[i])
    requires forall i :: 0 <= i < |as2| ==> WellNamed(as2[i])
    requires |u1| > 0 && u1[0] == ')'
    requires |u2| > 0 && u2[0] == ')'
    requires RenderArgs(as1) + u1 == RenderArgs(as2) + u2
    ensures as1 == as2 && u1 == u2
    decreases as1
  {
    if as1 == [] && as2 == [] {
      assert u1 == RenderArgs(as1) + u1 && u2 == RenderArgs(as2) + u2;
    } else if as1 == [] {
      ArgsStart(as2, u2);
      assert false;
    } else if as2 == [] {
      ArgsStart(as1, u1);
      assert false;
    } else {
      var r1 := if |as1| == 1 then u1 else ", " + (RenderArgs(as1[1..]) + u1);
      var r2 := if |as2| == 1 then u2 else ", " + (RenderArgs(as2[1..]) + u2);
      ArgsText(as1, u1);
      ArgsText(as2, u2);
      RenderPrefix(as1[0], as2[0], r1, r2);
      if |as1| > 1 && |as2| > 1 {
        Peel(", ", RenderArgs(as1[1..]) + u1, RenderArgs(as2[1..]) + u2);
        ArgsPrefix(as1[1..], as2[1..], u1, u2);
        assert as1 == [as1[0]] + as1[1..];
        assert as2 == [as2[0]] + as2[1..];
      } else if |as1| == 1 && |as2| == 1 {
      } else if |as1| == 1 {
        assert false;
      } else {
        assert false;
      }
    }
  }

  /** Rendering is injective on well-named expressions. */
  lemma RenderInjective(e1: Expr, e2: Expr)
    requires WellNamed(e1) && WellNamed(e2)
    requires Render(e1) == Render(e2)
    ensures e1 == e2
  {
    assert Render(e1) + [] == Render(e2) + [];
    RenderPrefix(e1, e2, [], []);
  }

  /** Why names must be non-empty and free of delimiters: otherwise different
      expressions share a text. */
  lemma RenderAmbiguousNames()
    ensures Render(Fun("f", [])) == Render(Fun("f", [Sym("")])) == "f()"
    ensures Render(Sym("f()")) == Render(Fun("f", []))
    ensures Render(Fun("f", [Sym("a, b")])) == Render(Fun("f", [Sym("a"), Sym("b")]))
  {
  }

  /** The layout of a nested term and of a zero-argument function. */
  lemma RenderExamples()
    ensures Render(Fun("swap", [Fun("pair", [Sym("X"), Sym("Y")])])) == "swap(pair(X, Y))"
    ensures Render(Fun("nil", [])) == "nil()"
  {
  }
}
