/**
 Worked instances of the matcher on small documents: the `env` document with a
 `def` fallback, the inclusive range `{from: 10, to: 20}`, list conditions, and
 a bare key name used as the parameters.
 */
module Scenarios {
  import opened Values
  import opened Conditions
  import opened Matcher

  function Entry(name: string, v: Value): (Key, Value)
  {
    (StrKey(name), v)
  }

  /** `{k: {env: e}, v: r}` */
  function EnvLink(e: string, r: string): Value
  {
    Arr([Entry("k", Arr([Entry("env", Str(e))])), Entry("v", Str(r))])
  }

  /** `{links: [{k: {env: prod}, v: A}, {k: {env: dev}, v: B}], def: C}` */
  function EnvDoc(): Value
  {
    Arr([Entry("links", ListOf([EnvLink("prod", "A"), EnvLink("dev", "B")])), Entry("def", Str("C"))])
  }

  function EnvParams(e: string): Value
  {
    Arr([Entry("env", Str(e))])
  }

  lemma EnvLinks()
    ensures LinksOf(EnvDoc()) == [EnvLink("prod", "A"), EnvLink("dev", "B")]
    ensures Field(EnvDoc(), "def") == Str("C")
  {
  }

  /** A link `{k: {env: e}, v: r}` matches the parameters `{env: p}` exactly when `e` is `p`. */
  lemma EnvLinkVerdict(e: string, r: string, p: string)
    ensures LinkVerdict(EnvParams(p), EnvLink(e, r)) == (if e == p then Match else NoMatch)
  {
    assert Field(EnvLink(e, r), "k") == Arr([Entry("env", Str(e))]);
    var conds := Iterated(Field(EnvLink(e, r), "k"));
    assert conds == [Entry("env", Str(e))];
    assert conds[1..] == [];
    assert Field(EnvParams(p), "env") == Str(p);
    assert !IsSet(Str(e), "NOT");
    assert Coincides(EnvParams(p), "env", Str(e)) == (e == p);
    assert ConditionHolds(EnvParams(p), "env", Str(e)) == (e == p);
    assert ConditionsVerdict(EnvParams(p), conds[1..]) == Match;
  }

  /** `prod` selects the first link. */
  lemma EnvProdScenario()
    ensures SearchMatches(EnvDoc(), EnvParams("prod"), true, false) == Returned(One(Str("A")))
  {
    EnvLinks();
    EnvLinkVerdict("prod", "A", "prod");
    FirstMatchWins(EnvDoc(), EnvParams("prod"), false, 0);
  }

  /** `qa` matches no link and falls back to `def`. */
  lemma EnvQaScenario()
    ensures SearchMatches(EnvDoc(), EnvParams("qa"), true, false) == Returned(One(Str("C")))
  {
    EnvLinks();
    EnvLinkVerdict("prod", "A", "qa");
    EnvLinkVerdict("dev", "B", "qa");
    NothingMatchedFallsBack(EnvDoc(), EnvParams("qa"), true, false);
  }

  /** `dev` in collect-all mode lists `B` alone. */
  lemma EnvDevScenario()
    ensures SearchMatches(EnvDoc(), EnvParams("dev"), false, false) == Returned(Many([Str("B")]))
  {
    EnvLinks();
    var links := LinksOf(EnvDoc());
    EnvLinkVerdict("prod", "A", "dev");
    EnvLinkVerdict("dev", "B", "dev");
    var vs := Verdicts(EnvParams("dev"), links);
    assert vs == [NoMatch, Match];
    assert links[..1] == [EnvLink("prod", "A")];
    assert vs[..1] == [NoMatch];
    assert Gather(links[..1][..0], vs[..1][..0], false) == [];
    assert Gather(links[..1], vs[..1], false) == [];
    assert Gather(links, vs, false) == [Str("B")];
  }

  /** Asking for the bare key `def` returns the document's `def` entry without looking at any link. */
  lemma DirectLookupScenario()
    ensures SearchMatches(EnvDoc(), Str("def"), true, false) == Returned(One(Str("C")))
    ensures SearchMatches(EnvDoc(), Str("def"), false, true) == Returned(One(Str("C")))
  {
  }

  function RangeParams(x: int): Value
  {
    Arr([Entry("n", Int(x))])
  }

  /** `{from: 10, to: 20}`: 9 fails, 10 and 20 match, 21 fails. */
  lemma RangeScenario()
    ensures !Coincides(RangeParams(9), "n", Arr([Entry("from", Int(10)), Entry("to", Int(20))]))
    ensures Coincides(RangeParams(10), "n", Arr([Entry("from", Int(10)), Entry("to", Int(20))]))
    ensures Coincides(RangeParams(20), "n", Arr([Entry("from", Int(10)), Entry("to", Int(20))]))
    ensures !Coincides(RangeParams(21), "n", Arr([Entry("from", Int(10)), Entry("to", Int(20))]))
  {
  }

  /** `[a, b, c]` against `b` and `[b, z]` matches; against `[x, z]` it fails. */
  lemma ListScenario()
    ensures Coincides(Arr([Entry("p", Str("b"))]), "p", ListOf([Str("a"), Str("b"), Str("c")]))
    ensures Coincides(Arr([Entry("p", ListOf([Str("b"), Str("z")]))]), "p", ListOf([Str("a"), Str("b"), Str("c")]))
    ensures !Coincides(Arr([Entry("p", ListOf([Str("x"), Str("z")]))]), "p", ListOf([Str("a"), Str("b"), Str("c")]))
  {
    var abc := ListOf([Str("a"), Str("b"), Str("c")]);
    assert Str("b") in ValuesOf(abc);
    assert Str("b") in ValuesOf(ListOf([Str("b"), Str("z")]));
    assert !IsSet(abc, "from") && !IsSet(abc, "to");
  }
}
