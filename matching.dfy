/** The one-way, non-backtracking matcher. A pattern symbol binds on first
    sight and must equal its binding afterwards; function patterns need the
    same name and arity and match their arguments left to right with one
    shared store. The store lives in a field that is never rolled back. */
module Matching {
  import opened Terms

  /** The state a match attempt leaves behind: whether it succeeded and the
      store the attempt ended with (also after a failure). */
  datatype Outcome = Outcome(matched: bool, store: Bindings)

  /** One match attempt of pattern p against e, starting from store b. */
  function MatchState(p: Expr, e: Expr, b: Bindings): (o: Outcome)
    ensures Extends(b, o.store)
    ensures o.store.Keys <= b.Keys + Syms(p)
    ensures o.matched ==> o.store.Keys == b.Keys + Syms(p)
    decreases p
  {
    match p
    case Sym(s) =>
      if s in b then Outcome(b[s] == e, b)
      else Outcome(true, b[s := e])
    case Fun(f1, args1) =>
      match e
      case Fun(f2, args2) =>
        if f1 == f2 && |args1| == |args2| then MatchArgs(args1, args2, b)
        else Outcome(false, b)
      case Sym(_) => Outcome(false, b)
  }

  /** The argument pairs matched in order; the first failure ends the scan
      and leaves the store as it was when that argument failed. */
  function MatchArgs(ps: seq<Expr>, es: seq<Expr>, b: Bindings): (o: Outcome)
    requires |ps| == |es|
    ensures Extends(b, o.store)
    ensures o.store.Keys <= b.Keys + SymsList(ps)
    ensures o.matched ==> o.store.Keys == b.Keys + SymsList(ps)
    decreases ps
  {
    if ps == [] then Outcome(true, b)
    else
      var o := MatchState(ps[0], es[0], b);
      if o.matched then MatchArgs(ps[1..], es[1..], o.store) else o
  }

  /** One step of the argument scan, from position i. */
  lemma MatchArgsAt(ps: seq<Expr>, es: seq<Expr>, i: nat, b: Bindings)
    requires |ps| == |es| && i < |ps|
    ensures var o := MatchState(ps[i], es[i], b);
      MatchArgs(ps[i..], es[i..], b) == if o.matched then MatchArgs(ps[i + 1..], es[i + 1..], o.store) else o
  {
    assert ps[i..][1..] == ps[i + 1..] && es[i..][1..] == es[i + 1..];
  }

  /** What a caller of the matcher observes: the store on success, None on failure. */
  function Match(p: Expr, e: Expr, b: Bindings): (r: Option<Bindings>)
    ensures r.Some? ==> Extends(b, r.value) && r.value.Keys == b.Keys + Syms(p)
  {
    var o := MatchState(p, e, b);
    if o.matched then Some(o.store) else None
  }

  /** `Pattern`: the matcher object whose field is the binding store. */
  class Pattern {
    var bindings: Bindings

    constructor (b: Bindings)
      ensures bindings == b
    {
      bindings := b;
    }

    /** `pattern_match`: the result is the observable match, and the field
        holds the store the scan ended with, also when the result is None. */
    method PatternMatch(pattern: Expr, expr: Expr) returns (r: Option<Bindings>)
      modifies this
      ensures r == Match(pattern, expr, old(bindings))
      ensures bindings == MatchState(pattern, expr, old(bindings)).store
      decreases pattern
    {
      match pattern
      case Sym(s1) =>
        if s1 in bindings {
          if bindings[s1] == expr {
            r := Some(bindings);
          } else {
            r := None;
          }
        } else {
          bindings := bindings[s1 := expr];
          r := Some(bindings);
        }
      case Fun(f1, args1) =>
        match expr
        case Fun(f2, args2) =>
          if f1 == f2 && |args1| == |args2| {
            for i := 0 to |args1|
              invariant MatchArgs(args1, args2, old(bindings)) == MatchArgs(args1[i..], args2[i..], bindings)
            {
              MatchArgsAt(args1, args2, i, bindings);
              var m := PatternMatch(args1[i], args2[i]);
              match m
              case Some(b) =>
                assert bindings + b == bindings;
                bindings := bindings + b;
              case None =>
                return None;
            }
            r := Some(bindings);
          } else {
            r := None;
          }
        case Sym(_) =>
          r := None;
    }
  }

  /** A match from an empty store, as a caller starts one. */
  method MatchFromEmpty(pattern: Expr, expr: Expr) returns (r: Option<Bindings>)
    ensures r == Match(pattern, expr, map[])
  {
    var matcher := new Pattern(map[]);
    r := matcher.PatternMatch(pattern, expr);
  }
}
