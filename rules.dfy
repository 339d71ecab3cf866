/** A rule pairs a head pattern with a body template. A rewrite matches an
    expression against the head and substitutes the body. */
module Rules {
  import opened Terms
  import opened Substitution
  import opened Matching
  import opened Rendering

  datatype Rule = Rule(head: Expr, body: Expr)

  /** A rule is shown as "head :- body". */
  function RenderRule(rule: Rule): (r: string)
    ensures |r| == |Render(rule.head)| + 4 + |Render(rule.body)|
  {
    Render(rule.head) + " :- " + Render(rule.body)
  }

  /** The text of a rule is its head's text, " :- ", then its body's text. */
  lemma RuleLayout(rule: Rule)
    ensures var r := RenderRule(rule);
      var h := Render(rule.head);
      && r[..|h|] == h && r[|h|..|h| + 4] == " :- " && r[|h| + 4..] == Render(rule.body)
  {
    var h := Render(rule.head);
    assert RenderRule(rule) == h + (" :- " + Render(rule.body));
  }

  /** The text of a rule with well-named head and body determines the rule. */
  lemma RenderRuleInjective(r1: Rule, r2: Rule)
    requires WellNamed(r1.head) && WellNamed(r1.body)
    requires WellNamed(r2.head) && WellNamed(r2.body)
    requires RenderRule(r1) == RenderRule(r2)
    ensures r1 == r2
  {
    var t1 := " :- " + Render(r1.body);
    var t2 := " :- " + Render(r2.body);
    assert RenderRule(r1) == Render(r1.head) + t1;
    assert RenderRule(r2) == Render(r2.head) + t2;
    RenderPrefix(r1.head, r2.head, t1, t2);
    Peel(" :- ", Render(r1.body), Render(r2.body));
    RenderInjective(r1.body, r2.body);
  }

  /** Why rule names may not contain spaces: two different rules can share
      one text when a name holds " :- ". */
  lemma RenderRuleAmbiguousNames()
    ensures RenderRule(Rule(Sym("a"), Sym("b :- c"))) == RenderRule(Rule(Sym("a :- b"), Sym("c")))
  {
  }

  /** The rule swap(pair(X, Y)) :- pair(Y, X) and the query swap(pair(a, b)). */
  function SwapRule(): (r: Rule)
  {
    Rule(Fun("swap", [Fun("pair", [Sym("X"), Sym("Y")])]), Fun("pair", [Sym("Y"), Sym("X")]))
  }

  function SwapQuery(): (r: Expr)
  {
    Fun("swap", [Fun("pair", [Sym("a"), Sym("b")])])
  }

  lemma SwapRendered()
    ensures RenderRule(SwapRule()) == "swap(pair(X, Y)) :- pair(Y, X)"
  {
    assert Render(SwapRule().head) == "swap(pair(X, Y))";
    assert Render(SwapRule().body) == "pair(Y, X)";
  }

  /** Matching the head binds X to a and Y to b. */
  lemma SwapMatched()
    ensures Match(SwapRule().head, SwapQuery(), map[]) == Some(map["X" := Sym("a"), "Y" := Sym("b")])
  {
    var xy := [Sym("X"), Sym("Y")];
    var ab := [Sym("a"), Sym("b")];
    assert xy[1..] == [Sym("Y")] && ab[1..] == [Sym("b")];
    var m1 := map["X" := Sym("a")];
    assert MatchArgs(xy, ab, map[]) == MatchArgs([Sym("Y")], [Sym("b")], m1);
    assert MatchArgs([Sym("Y")], [Sym("b")], m1).store == map["X" := Sym("a"), "Y" := Sym("b")];
  }

  /** Substituting those bindings into the body gives pair(b, a). */
  lemma SwapRewritten()
    ensures Replace(SwapRule().body, map["X" := Sym("a"), "Y" := Sym("b")]) == Fun("pair", [Sym("b"), Sym("a")])
  {
    var b := map["X" := Sym("a"), "Y" := Sym("b")];
    assert ReplaceList([Sym("X")], b) == [Sym("a")];
  }
}
