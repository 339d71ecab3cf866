/** The expression model of the rewriting core: symbols and function terms,
    and the binding store that maps symbol names to expressions. */
module Terms {

  datatype Option<+T> = None | Some(value: T)

  /** A term is an atomic symbol or a named function applied to an ordered
      sequence of argument terms. Equality is Dafny's structural equality. */
  datatype Expr = Sym(name: string) | Fun(fname: string, args: seq<Expr>)

  /** The binding store: symbol name to the expression it stands for. */
  type Bindings = map<string, Expr>

  /** The names of all symbols occurring in an expression. */
  function Syms(e: Expr): (r: set<string>)
    decreases e
  {
    match e
    case Sym(s) => {s}
    case Fun(_, args) => SymsList(args)
  }

  function SymsList(es: seq<Expr>): (r: set<string>)
    decreases es
  {
    if es == [] then {} else Syms(es[0]) + SymsList(es[1..])
  }

  /** Every symbol of an argument is a symbol of the argument list. */
  lemma {:induction false} SymsListElement(es: seq<Expr>, i: nat)
    requires i < |es|
    ensures Syms(es[i]) <= SymsList(es)
    decreases es
  {
    if i > 0 {
      SymsListElement(es[1..], i - 1);
    }
  }

  /** b' keeps every entry of b with the same value. */
  ghost predicate Extends(b: Bindings, b': Bindings)
  {
    forall k :: k in b ==> k in b' && b'[k] == b[k]
  }
}
