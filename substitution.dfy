/** Single-pass substitution: every bound symbol is replaced by its binding,
    every unbound symbol is kept, and the inserted expressions are not
    themselves rewritten again. */
module Substitution {
  import opened Terms

  /** `replace`: rewrite e under the bindings b in one structural pass. */
  function Replace(e: Expr, b: Bindings): (r: Expr)
    ensures e.Fun? && r.Fun? ==> r.fname == e.fname && |r.args| == |e.args|
    ensures e.Fun? ==> r.Fun?
    decreases e
  {
    match e
    case Sym(s) => if s in b then b[s] else Sym(s)
    case Fun(f, args) => Fun(f, ReplaceList(args, b))
  }

  /** The arguments rewritten one by one with the same bindings. */
  function ReplaceList(es: seq<Expr>, b: Bindings): (rs: seq<Expr>)
    ensures |rs| == |es|
    ensures forall i :: 0 <= i < |es| ==> rs[i] == Replace(es[i], b)
    decreases es
  {
    if es == [] then [] else [Replace(es[0], b)] + ReplaceList(es[1..], b)
  }

  /** An expression none of whose symbols is bound is left unchanged;
      in particular the empty store is the identity. */
  lemma {:induction false} ReplaceUnbound(e: Expr, b: Bindings)
    requires Syms(e) !! b.Keys
    ensures Replace(e, b) == e
    decreases e
  {
    match e
    case Sym(_) =>
    case Fun(f, args) =>
      forall i | 0 <= i < |args|
        ensures Replace(args[i], b) == args[i]
      {
        SymsListElement(args, i);
        ReplaceUnbound(args[i], b);
      }
      assert ReplaceList(args, b) == args;
  }

  /** The result depends only on how the store rewrites the symbols of e:
      any two stores that rewrite each of them the same way give the same
      result (for instance, a store grown by bindings for other symbols). */
  lemma {:induction false} ReplaceStable(e: Expr, b: Bindings, b': Bindings)
    requires forall k :: k in Syms(e) ==> Replace(Sym(k), b) == Replace(Sym(k), b')
    ensures Replace(e, b') == Replace(e, b)
    decreases e
  {
    match e
    case Sym(s) =>
      assert s in Syms(e);
    case Fun(f, args) =>
      forall i | 0 <= i < |args|
        ensures Replace(args[i], b') == Replace(args[i], b)
      {
        SymsListElement(args, i);
        ReplaceStable(args[i], b, b');
      }
      assert ReplaceList(args, b') == ReplaceList(args, b);
  }

  /** A corollary of ReplaceStable: once all symbols of e are bound, growing
      the store does not change e's rewrite. */
  lemma ReplaceExtends(e: Expr, b: Bindings, b': Bindings)
    requires Syms(e) <= b.Keys
    requires Extends(b, b')
    ensures Replace(e, b') == Replace(e, b)
  {
    ReplaceStable(e, b, b');
  }

  /** The symbols brought in by the values bound to the keys in ks. */
  ghost function Inserted(ks: set<string>, b: Bindings): (r: set<string>)
  {
    set k, x | k in ks && k in b && x in Syms(b[k]) :: x
  }

  lemma InsertedUnion(ks1: set<string>, ks2: set<string>, b: Bindings)
    ensures Inserted(ks1 + ks2, b) == Inserted(ks1, b) + Inserted(ks2, b)
  {
  }

  /** The symbols of the result: the unbound symbols of e, plus the symbols of
      the values bound to e's bound symbols. Nothing inserted is resolved again. */
  lemma {:induction false} ReplaceSyms(e: Expr, b: Bindings)
    ensures Syms(Replace(e, b)) == (Syms(e) - b.Keys) + Inserted(Syms(e), b)
    decreases e
  {
    match e
    case Sym(s) =>
      if s in b {
        assert Syms(e) == {s};
        assert Inserted(Syms(e), b) == Syms(b[s]);
      } else {
        assert Inserted(Syms(e), b) == {};
      }
    case Fun(f, args) =>
      ReplaceListSyms(args, b);
  }

  lemma {:induction false} ReplaceListSyms(es: seq<Expr>, b: Bindings)
    ensures SymsList(ReplaceList(es, b)) == (SymsList(es) - b.Keys) + Inserted(SymsList(es), b)
    decreases es
  {
    if es == [] {
      assert Inserted(SymsList(es), b) == {};
    } else {
      ReplaceSyms(es[0], b);
      ReplaceListSyms(es[1..], b);
      assert ReplaceList(es, b)[0] == Replace(es[0], b);
      assert ReplaceList(es, b)[1..] == ReplaceList(es[1..], b);
      InsertedUnion(Syms(es[0]), SymsList(es[1..]), b);
    }
  }

  /** The single-pass behaviour: with X bound to Y and Y bound to a,
      X rewrites to Y, not to a. */
  lemma NoReResolution()
    ensures Replace(Sym("X"), map["X" := Sym("Y"), "Y" := Sym("a")]) == Sym("Y")
    ensures Replace(Fun("f", [Sym("X"), Sym("Y"), Sym("Z")]), map["X" := Sym("Y"), "Y" := Sym("a")])
         == Fun("f", [Sym("Y"), Sym("a"), Sym("Z")])
  {
    var b := map["X" := Sym("Y"), "Y" := Sym("a")];
    assert ReplaceList([Sym("Z")], b) == [Sym("Z")];
  }
}
