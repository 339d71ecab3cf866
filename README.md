# A verified model of a minimal term-rewriting core

This project models, in Dafny, the core of a small Rust term-rewriting engine, `src/main.rs`.
It covers four parts:

- **Expressions** (`Terms`). A term is an atomic symbol `Sym(name)` or a function term
  `Fun(name, args)` with an ordered list of argument terms. Dafny's structural datatype
  equality stands for the derived `PartialEq`. The binding store is a `map<string, Expr>`.
- **The matcher** (`Matching`). It mirrors the `Pattern` object: a class with a
  `bindings` field, and a recursive method `PatternMatch` that updates the field in place
  and loops over the argument pairs. It is one-way and never backtracks. A pattern symbol
  binds on first sight. Any later occurrence of that symbol must equal the recorded
  binding. A function pattern needs the same name and the same arity, and its arguments
  are scanned left to right with one shared store. The first argument that fails ends the
  scan with `None`. The method is proved against the specification function `MatchState`.
  That function returns whether the match succeeded and the store the attempt ended with.
  On failure the store keeps every binding made before the point of failure, including
  those made inside the failing argument, because the source never rolls them back. `Match` is what a caller sees: `Some(store)` or `None`.
- **Substitution** (`Substitution`). `Replace` is `replace`: a single structural pass.
  A bound symbol becomes its binding and an unbound symbol stays as it is. A function term
  keeps its name and rewrites each argument. Inserted bindings are not rewritten again.
- **Rendering and rules** (`Rendering`, `Rules`). These are the `Display` impls written
  as pure string functions. A symbol renders as its name. A function term renders as
  `name(` followed by its arguments joined with `", "` and then `)`. A rule renders as
  `head :- body`.

The main results:

- *Soundness* (`MatchProperties.MatchSound`): if the match succeeds, substituting the
  resulting store into the pattern gives back the matched expression. The store extends
  the starting store, and its keys are exactly the starting keys plus the pattern's symbols.
- *Completeness* (`MatchProperties.MatchStateComplete`): if some substitution that agrees
  with the starting store maps the pattern onto the expression, the match succeeds.
  `MatchProperties.MatchCharacterization` joins the two into an if-and-only-if.
- *The scan* (`MatchArgsEach`, `MatchArgsFirstFailure`): an argument list matches iff
  every argument matches in the store its predecessors left. The first failing argument
  decides the result and the store left behind.
- *Single pass* (`Substitution.ReplaceSyms`): the result's symbols are exactly the
  unbound symbols of the input plus the symbols of the inserted bindings.
- *Unambiguous text* (`Rendering.RenderInjective`, `Rules.RenderRuleInjective`):
  rendering is injective when every name is non-empty and contains none of `(`, `)`, `,`
  and space. `Rendering.RenderAmbiguousNames` and `Rules.RenderRuleAmbiguousNames` give, for each excluded
  kind of name, two different terms or rules that share one text.

About the store after a failed match: the source object's `bindings` field does keep the
partial bindings on failure, and its owner could read it. The model follows the code here.
`Pattern.PatternMatch` states the field's value after every call, including failed ones.
The matcher never checks that the target expression has no variables. A symbol in the
target is just a constant to match against.

## Model

| member | source | states |
|---|---|---|
| `Matching.Pattern.PatternMatch` | src/main.rs:46-81 | the result is `Match` of the pattern, the expression and the store before the call; the field afterwards is the store the scan ended with, even on failure (no rollback) |
| `Matching.Pattern.constructor` | src/main.rs:41-43 | a matcher object holds the store it is created with |
| `Matching.MatchFromEmpty` | src/main.rs:116-118 | a matcher created with an empty store and run once returns exactly `Match(pattern, expr, {})` |
| `Matching.MatchState` | src/main.rs:46-81 | every attempt, successful or not, only adds entries and keeps each old entry's value; the keys added are pattern symbols; on success the keys are exactly the old keys plus the pattern's symbols |
| `Matching.MatchArgs` | src/main.rs:61-73 | the left-to-right argument scan grows the store the same way; on success its keys are the old keys plus the symbols of all argument patterns |
| `Matching.Match` | src/main.rs:46-81 | what a caller of `pattern_match` receives: `Some` of the final store exactly when the attempt succeeds, and `None` otherwise; on success the store extends the starting one and its keys are the starting keys plus the pattern's symbols |
| `Matching.MatchArgsAt` | src/main.rs:63-71 | one loop step: if argument i matches, the scan continues from i+1 in the new store; otherwise the scan's outcome is that argument's failure |
| `MatchProperties.MatchUnboundSym` | src/main.rs:55-57 | an unbound pattern symbol matches any expression and returns the store extended by that binding |
| `MatchProperties.MatchBoundSym` | src/main.rs:49-54 | a bound pattern symbol matches iff its binding equals the expression; the store is returned unchanged on success and left unchanged on failure |
| `MatchProperties.MatchShapeMismatch` | src/main.rs:61-78 | a function pattern against a symbol, or against a function with another name or arity, gives `None` and leaves the store unchanged |
| `MatchProperties.NameArityMismatch` | src/main.rs:62-76 | `f(a)` fails against `g(a)` and against `f(a, b)` |
| `MatchProperties.MatchArgsSplit` | src/main.rs:63-72 | scanning a list is scanning any prefix and then, only if it matched, the rest from the prefix's store |
| `MatchProperties.FirstFailureExists` | src/main.rs:63-71 | a failed scan has a first failing argument: every argument before it matched and it fails in the store they left |
| `MatchProperties.MatchArgsFirstFailure` | src/main.rs:63-71 | the first failing argument decides the whole scan, including the partial store left behind |
| `MatchProperties.MatchArgsEach` | src/main.rs:63-73 | an argument list matches iff every argument i matches in the store left by arguments 0..i-1 |
| `MatchProperties.NonLinear` | src/main.rs:46-73 | `f(x, x)` matches `f(a, a)` with `x` bound to `a`; against `f(a, b)` it fails and the store keeps `x` bound to `a` |
| `MatchProperties.NestedFailureKeepsBindings` | src/main.rs:46-73 | `f(x, g(y, x))` against `f(a, g(b, c))` fails and the store keeps both `x` bound to `a` and `y` bound to `b`, the latter made inside the failing argument |
| `MatchProperties.MatchStateSound` | src/main.rs:46-95 | after a successful attempt, replacing the pattern's symbols with the resulting store yields the target expression |
| `MatchProperties.MatchArgsSound` | src/main.rs:61-95 | after a successful scan, each argument pattern rewrites under the final store to its target argument |
| `MatchProperties.MatchSound` | src/main.rs:46-95 | for `Match`: on success, substitution gives back the expression; the store extends the old one; its keys are the old keys plus the pattern's symbols |
| `MatchProperties.MatchStateComplete` | src/main.rs:46-95 | if a substitution that agrees with the starting store maps the pattern to the expression, the match succeeds and its store agrees with that substitution |
| `MatchProperties.MatchArgsComplete` | src/main.rs:61-95 | the same for an argument scan |
| `MatchProperties.MatchCharacterization` | src/main.rs:46-95 | the match succeeds iff some substitution that agrees with the starting store maps the pattern onto the expression |
| `Substitution.Replace` | src/main.rs:83-95 | a function term rewrites to a function term with the same name and arity |
| `Substitution.ReplaceList` | src/main.rs:91-93 | the arguments are rewritten one by one with the same store and keep their number and order |
| `Substitution.ReplaceUnbound` | src/main.rs:83-95 | an expression whose symbols are all unbound (for example under the empty store) is left unchanged |
| `Substitution.ReplaceStable` | src/main.rs:83-95 | the result depends only on what the store does to the symbols of the expression |
| `Substitution.ReplaceExtends` | src/main.rs:83-95 | once every symbol of an expression is bound, adding more bindings does not change its rewrite |
| `Substitution.ReplaceSyms` | src/main.rs:83-95 | the result's symbols are the unbound symbols of the input plus the symbols of the values bound to its bound symbols (no re-resolution) |
| `Substitution.ReplaceListSyms` | src/main.rs:91-93 | the same for an argument list |
| `Substitution.NoReResolution` | src/main.rs:85-92 | with `X` bound to `Y` and `Y` bound to `a`, `X` becomes `Y`, not `a`; an unbound `Z` is kept |
| `Rendering.Render` | src/main.rs:9-25 | a symbol renders as its name; a function term's text is at least as long as its name plus the two parentheses plus two characters for each argument after the first |
| `Rendering.RenderArgs` | src/main.rs:15-20 | an empty argument list has no text, and the text is at least two characters long for each argument after the first |
| `Rendering.LoopFrom` | src/main.rs:15-20 | from any index past the first, the loop writes `", "` followed by the remaining arguments joined as `RenderArgs` joins them |
| `Rendering.RenderArgsIsLoop` | src/main.rs:15-20 | the recursive join is exactly the text of the source's indexed loop, which writes `", "` before every argument but the first |
| `Rendering.FunLayout` | src/main.rs:13-21 | a function renders as `name(` + its arguments + `)`, and the arguments open with the first argument's text followed by `", "` |
| `Rendering.RenderStart` | src/main.rs:12-14 | the text of a well-named expression starts with a name character |
| `Rendering.ArgsStart` | src/main.rs:15-20 | the text of a non-empty, well-named argument list starts with a name character |
| `Rendering.RenderPrefix` | src/main.rs:9-25 | a rendered well-named expression followed by `,`, `)`, a space or nothing determines both the expression and what follows it |
| `Rendering.ArgsPrefix` | src/main.rs:15-21 | a rendered well-named argument list followed by `)` determines the list and what follows it |
| `Rendering.RenderInjective` | src/main.rs:9-25 | well-named expressions with the same text are equal |
| `Rendering.RenderAmbiguousNames` | src/main.rs:12-21 | without the name restriction, `f()`, `f(Sym(""))` and the symbol `f()` share one text, and so do `f(Sym("a, b"))` and `f(a, b)` |
| `Rules.RenderRuleAmbiguousNames` | src/main.rs:35 | with spaces allowed in names, the rules `a :- (b :- c)` and `(a :- b) :- c`, whose symbols are `a`, `b :- c`, `a :- b` and `c`, share the text `a :- b :- c` |
| `Rendering.RenderExamples` | src/main.rs:12-21 | `swap(pair(X, Y))` renders with `", "` between arguments, and a zero-argument function renders as `nil()` |
| `Rules.RenderRule` | src/main.rs:33-37 | the rule's text is exactly the head's text, four characters and the body's text long |
| `Rules.RuleLayout` | src/main.rs:35 | a rule renders as `head :- body`: the head's text, then `" :- "`, then the body's text |
| `Rules.RenderRuleInjective` | src/main.rs:33-37 | a rule with well-named head and body is determined by its text `head :- body` |
| `Rules.SwapRendered` | src/main.rs:97-105 | the rule `swap(pair(X, Y)) :- pair(Y, X)` renders as exactly that text |
| `Rules.SwapMatched` | src/main.rs:97-118 | matching `swap(pair(X, Y))` against `swap(pair(a, b))` from an empty store gives `{X: a, Y: b}` |
| `Rules.SwapRewritten` | src/main.rs:104-121 | substituting `{X: a, Y: b}` into `pair(Y, X)` gives `pair(b, a)` |

## Left out

- `main` (src/main.rs:97-122) builds an example and prints it with `println!`, which is I/O. Its construction of a matcher with an empty store and the single call (src/main.rs:116-118) are the method `Matching.MatchFromEmpty`. Its scenario is kept as the lemmas `Rules.SwapRendered`, `Rules.SwapMatched` and `Rules.SwapRewritten`. The `unwrap` panic on a failed match is not modelled.
- The `std::fmt::Formatter` writes and the `fmt::Result` error propagation in both `Display` impls. Rendering is a pure function to `string`, so formatter errors have no counterpart.
- The `for` loop of `Expr::fmt` (src/main.rs:15-20) is written as the recursive function `RenderArgs`. `Rendering.RenderArgsIsLoop` proves it equal to `LoopText`, which follows the loop index by index.
- `HashMap` internals, and the cost and identity of the `.clone()` calls. A Dafny `map` is a value, so `Some(self.bindings.clone())` is `Some(bindings)`. The `extend(b)` at src/main.rs:66 is modelled as `bindings := bindings + b`. Here `b` is a copy of the current store, so this step changes nothing, and the proof relies on that.
- The `Debug` and `Clone` derives carry no logic. The derived `PartialEq` is Dafny's datatype equality.
- A rewrite driver that chooses and applies rules is not part of the source. `Rule` is plain data with its rendering.
