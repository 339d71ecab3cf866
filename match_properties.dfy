/** What the matcher promises, proved about its specification functions:
    the case analysis of a single step, the left-to-right scan of the
    arguments, and that a successful match followed by substitution gives
    back the matched expression (and succeeds whenever some substitution does). */
module MatchProperties {
  import opened Terms
  import opened Substitution
  import opened Matching

  // ---- The cases of one match step ----

  /** An unbound pattern symbol matches anything and records the binding. */
  lemma MatchUnboundSym(s: string, e: Expr, b: Bindings)
    requires s !in b
    ensures Match(Sym(s), e, b) == Some(b[s := e])
  {
  }

  /** A bound pattern symbol matches exactly its binding; the store is then unchanged. */
  lemma MatchBoundSym(s: string, e: Expr, b: Bindings)
    requires s in b
    ensures Match(Sym(s), e, b).Some? <==> b[s] == e
    ensures Match(Sym(s), e, b).Some? ==> Match(Sym(s), e, b).value == b
    ensures MatchState(Sym(s), e, b).store == b
  {
  }

  /** A function pattern fails against a symbol, or against a function with
      another name or another number of arguments, and binds nothing. */
  lemma MatchShapeMismatch(p: Expr, e: Expr, b: Bindings)
    requires p.Fun?
    requires e.Sym? || p.fname != e.fname || |p.args| != |e.args|
    ensures Match(p, e, b) == None
    ensures MatchState(p, e, b).store == b
  {
  }

  // ---- The argument scan ----

  /** Scanning a list is scanning a prefix and then, if that succeeded, the rest. */
  lemma {:induction false} MatchArgsSplit(ps: seq<Expr>, es: seq<Expr>, b: Bindings, i: nat)
    requires |ps| == |es| && i <= |ps|
    ensures var o := MatchArgs(ps[..i], es[..i], b);
      MatchArgs(ps, es, b) == if o.matched then MatchArgs(ps[i..], es[i..], o.store) else o
    decreases i
  {
    if i > 0 {
      var o := MatchState(ps[0], es[0], b);
      assert ps[..i][0] == ps[0] && es[..i][0] == es[0];
      assert ps[..i][1..] == ps[1..][..i - 1] && es[..i][1..] == es[1..][..i - 1];
      if o.matched {
        MatchArgsSplit(ps[1..], es[1..], o.store, i - 1);
        assert ps[1..][i - 1..] == ps[i..] && es[1..][i - 1..] == es[i..];
      }
    } else {
      assert ps[..0] == [] && ps[0..] == ps && es[0..] == es;
    }
  }

  /** The store in which argument i is matched: the one left by arguments 0..i-1. */
  function StoreBefore(ps: seq<Expr>, es: seq<Expr>, b: Bindings, i: nat): (r: Bindings)
    requires |ps| == |es| && i <= |ps|
  {
    MatchArgs(ps[..i], es[..i], b).store
  }

  /** The first argument that fails makes the whole scan fail, with the store
      it failed in: bindings from earlier arguments are not undone. */
  lemma MatchArgsFirstFailure(ps: seq<Expr>, es: seq<Expr>, b: Bindings, k: nat)
    requires |ps| == |es| && k < |ps|
    requires MatchArgs(ps[..k], es[..k], b).matched
    requires !MatchState(ps[k], es[k], StoreBefore(ps, es, b, k)).matched
    ensures MatchArgs(ps, es, b) == MatchState(ps[k], es[k], StoreBefore(ps, es, b, k))
  {
    MatchArgsSplit(ps, es, b, k);
    MatchArgsAt(ps, es, k, StoreBefore(ps, es, b, k));
    assert ps[k..][0] == ps[k];
  }

  /** The index of the first failing argument of a failed scan. */
  lemma {:induction false} FirstFailureExists(ps: seq<Expr>, es: seq<Expr>, b: Bindings, n: nat)
    returns (k: nat)
    requires |ps| == |es| && n <= |ps|
    requires !MatchArgs(ps[..n], es[..n], b).matched
    ensures k < n
    ensures MatchArgs(ps[..k], es[..k], b).matched
    ensures !MatchState(ps[k], es[k], StoreBefore(ps, es, b, k)).matched
    decreases n
  {
    assert ps[..0] == [];
    var o := MatchArgs(ps[..n - 1], es[..n - 1], b);
    MatchArgsSplit(ps[..n], es[..n], b, n - 1);
    assert ps[..n][..n - 1] == ps[..n - 1] && es[..n][..n - 1] == es[..n - 1];
    if o.matched {
      k := n - 1;
      assert ps[..n][n - 1..] == [ps[n - 1]] && es[..n][n - 1..] == [es[n - 1]];
    } else {
      k := FirstFailureExists(ps, es, b, n - 1);
    }
  }

  /** The scan succeeds iff every argument matches in the store its
      predecessors left, so a binding made in argument i constrains
      every later argument. */
  lemma {:induction false} MatchArgsEach(ps: seq<Expr>, es: seq<Expr>, b: Bindings)
    requires |ps| == |es|
    ensures MatchArgs(ps, es, b).matched
        <==> forall i :: 0 <= i < |ps| ==> MatchState(ps[i], es[i], StoreBefore(ps, es, b, i)).matched
  {
    if !MatchArgs(ps, es, b).matched {
      assert ps[..|ps|] == ps && es[..|es|] == es;
      var k := FirstFailureExists(ps, es, b, |ps|);
      assert !MatchState(ps[k], es[k], StoreBefore(ps, es, b, k)).matched;
    } else {
      forall i | 0 <= i < |ps|
        ensures MatchState(ps[i], es[i], StoreBefore(ps, es, b, i)).matched
      {
        MatchArgsSplit(ps, es, b, i);
        MatchArgsAt(ps, es, i, StoreBefore(ps, es, b, i));
      }
    }
  }

  // ---- Soundness and completeness against substitution ----

  /** Substituting a successful match's store into the pattern gives back
      the matched expression. */
  lemma {:induction false} MatchStateSound(p: Expr, e: Expr, b: Bindings)
    requires MatchState(p, e, b).matched
    ensures Replace(p, MatchState(p, e, b).store) == e
    decreases p
  {
    match p
    case Sym(s) =>
    case Fun(f1, args1) =>
      var args2 := e.args;
      MatchArgsSound(args1, args2, b);
      assert ReplaceList(args1, MatchState(p, e, b).store) == args2;
  }

  lemma {:induction false} MatchArgsSound(ps: seq<Expr>, es: seq<Expr>, b: Bindings)
    requires |ps| == |es|
    requires MatchArgs(ps, es, b).matched
    ensures forall i :: 0 <= i < |ps| ==> Replace(ps[i], MatchArgs(ps, es, b).store) == es[i]
    decreases ps
  {
    if ps != [] {
      var o := MatchState(ps[0], es[0], b);
      var s := MatchArgs(ps, es, b).store;
      MatchStateSound(ps[0], es[0], b);
      MatchArgsSound(ps[1..], es[1..], o.store);
      ReplaceExtends(ps[0], o.store, s);
      forall i | 0 <= i < |ps|
        ensures Replace(ps[i], s) == es[i]
      {
        if i > 0 {
          assert ps[1..][i - 1] == ps[i] && es[1..][i - 1] == es[i];
        }
      }
    }
  }

  /** The soundness theorem in the caller's terms. */
  lemma MatchSound(p: Expr, e: Expr, b: Bindings)
    requires Match(p, e, b).Some?
    ensures Replace(p, Match(p, e, b).value) == e
    ensures Extends(b, Match(p, e, b).value)
    ensures Match(p, e, b).value.Keys == b.Keys + Syms(p)
  {
    MatchStateSound(p, e, b);
  }

  /** sigma is consistent with the store b: each stored binding is what sigma
      makes of that symbol. */
  ghost predicate Agrees(b: Bindings, sigma: Bindings)
  {
    forall k :: k in b ==> b[k] == Replace(Sym(k), sigma)
  }

  /** If some substitution consistent with b turns p into e, the match
      succeeds, and its store agrees with that substitution. */
  lemma {:induction false} MatchStateComplete(p: Expr, e: Expr, b: Bindings, sigma: Bindings)
    requires Agrees(b, sigma)
    requires Replace(p, sigma) == e
    ensures MatchState(p, e, b).matched
    ensures Agrees(MatchState(p, e, b).store, sigma)
    decreases p
  {
    match p
    case Sym(s) =>
    case Fun(f, args) =>
      MatchArgsComplete(args, e.args, b, sigma);
  }

  lemma {:induction false} MatchArgsComplete(ps: seq<Expr>, es: seq<Expr>, b: Bindings, sigma: Bindings)
    requires |ps| == |es|
    requires Agrees(b, sigma)
    requires forall i :: 0 <= i < |ps| ==> Replace(ps[i], sigma) == es[i]
    ensures MatchArgs(ps, es, b).matched
    ensures Agrees(MatchArgs(ps, es, b).store, sigma)
    decreases ps
  {
    if ps != [] {
      MatchStateComplete(ps[0], es[0], b, sigma);
      var o := MatchState(ps[0], es[0], b);
      forall i | 0 <= i < |ps[1..]|
        ensures Replace(ps[1..][i], sigma) == es[1..][i]
      {
        assert ps[1..][i] == ps[i + 1] && es[1..][i] == es[i + 1];
      }
      MatchArgsComplete(ps[1..], es[1..], o.store, sigma);
    }
  }

  /** The match succeeds exactly when some substitution consistent with the
      starting store maps the pattern onto the expression. */
  lemma MatchCharacterization(p: Expr, e: Expr, b: Bindings)
    ensures Match(p, e, b).Some? <==> exists sigma :: Agrees(b, sigma) && Replace(p, sigma) == e
  {
    if Match(p, e, b).Some? {
      var s := Match(p, e, b).value;
      MatchSound(p, e, b);
      assert Agrees(b, s);
    }
    if exists sigma :: Agrees(b, sigma) && Replace(p, sigma) == e {
      var sigma :| Agrees(b, sigma) && Replace(p, sigma) == e;
      MatchStateComplete(p, e, b, sigma);
    }
  }

  // ---- Concrete instances ----

  /** Non-linear patterns: f(x, x) matches f(a, a) with x bound to a, and
      fails against f(a, b) -- leaving x bound to a in the store, since the
      binding made by the first argument is not rolled back. */
  lemma NonLinear()
    ensures Match(Fun("f", [Sym("x"), Sym("x")]), Fun("f", [Sym("a"), Sym("a")]), map[])
         == Some(map["x" := Sym("a")])
    ensures MatchState(Fun("f", [Sym("x"), Sym("x")]), Fun("f", [Sym("a"), Sym("b")]), map[])
         == Outcome(false, map["x" := Sym("a")])
  {
    var ps := [Sym("x"), Sym("x")];
    assert ps[1..] == [Sym("x")];
    assert [Sym("a"), Sym("a")][1..] == [Sym("a")];
    assert [Sym("a"), Sym("b")][1..] == [Sym("b")];
  }

  /** Bindings made inside a compound argument before it fails are kept too:
      f(x, g(y, x)) against f(a, g(b, c)) fails with x bound to a and y to b. */
  lemma NestedFailureKeepsBindings()
    ensures MatchState(Fun("f", [Sym("x"), Fun("g", [Sym("y"), Sym("x")])]),
                       Fun("f", [Sym("a"), Fun("g", [Sym("b"), Sym("c")])]), map[])
         == Outcome(false, map["x" := Sym("a"), "y" := Sym("b")])
  {
    var inner := [Sym("y"), Sym("x")];
    var target := [Sym("b"), Sym("c")];
    assert inner[1..] == [Sym("x")] && target[1..] == [Sym("c")];
    var outer := [Sym("x"), Fun("g", inner)];
    var ground := [Sym("a"), Fun("g", target)];
    assert outer[1..] == [Fun("g", inner)] && ground[1..] == [Fun("g", target)];
  }

  /** Name and arity mismatches fail. */
  lemma NameArityMismatch()
    ensures Match(Fun("f", [Sym("a")]), Fun("g", [Sym("a")]), map[]) == None
    ensures Match(Fun("f", [Sym("a")]), Fun("f", [Sym("a"), Sym("b")]), map[]) == None
  {
  }
}
