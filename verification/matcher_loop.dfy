/**
 The matcher as the PHP code walks it: an outer loop over the links that
 gathers matches into a list which starts out null, and an inner loop over one
 link's conditions that stops at the first failing one. Each method is proved
 to compute what the functional definitions of `Matcher` state.
 */
module MatcherLoop {
  import opened Values
  import opened Conditions
  import opened Matcher

  /** PHP's `$matches`, which is null until the first match. */
  datatype Option<T> = None | Some(value: T)

  /** Lines 83-106: one link, its conditions evaluated in order until one fails. */
  method EvaluateLink(params: Value, link: Value) returns (v: Verdict)
    ensures v == LinkVerdict(params, link)
  {
    if !IsSet(link, "k") {
      return NoMatch;
    }
    var conds := Iterated(Field(link, "k"));
    var found := true;
    var c := 0;
    while c < |conds|
      invariant 0 <= c <= |conds|
      invariant found
      invariant ConditionsVerdict(params, conds[c..]) == ConditionsVerdict(params, conds)
    {
      var key := conds[c].0;
      var cond := conds[c].1;
      var invert := false;
      if IsSet(cond, "NOT") {
        cond := Field(cond, "NOT");
        invert := true;
      }
      if key.IntKey? {
        return RaisesOn(key.n);
      }
      found := Coincides(params, key.s, cond);
      if invert {
        found := !found;
      }
      if !found {
        break;
      }
      assert conds[c..][1..] == conds[c + 1..];
      c := c + 1;
    }
    v := if found then Match else NoMatch;
  }

  /** Gathering one more link adds its contribution exactly when it matches. */
  lemma GatherStep(links: seq<Value>, vs: seq<Verdict>, n: nat, withKeys: bool)
    requires n < |links| == |vs|
    ensures Gather(links[..n + 1], vs[..n + 1], withKeys)
            == Gather(links[..n], vs[..n], withKeys) + (if vs[n] == Match then [Select(links[n], withKeys)] else [])
  {
    assert links[..n + 1][..n] == links[..n];
    assert vs[..n + 1][..n] == vs[..n];
  }

  /** PHP's `$matches` for what has been gathered so far: null while it is empty. */
  function Nullable(gathered: seq<Value>): Option<seq<Value>>
  {
    if gathered == [] then None else Some(gathered)
  }

  /** Evaluates link `n` of a list whose verdicts are `vs`. */
  method EvaluateListed(params: Value, links: seq<Value>, ghost vs: seq<Verdict>, n: nat) returns (v: Verdict)
    requires n < |links| == |vs|
    requires forall i {:trigger LinkVerdict(params, links[i])} :: 0 <= i < |links| ==> vs[i] == LinkVerdict(params, links[i])
    ensures v == vs[n]
  {
    v := EvaluateLink(params, links[n]);
  }

  /** Lines 79-130: the walk over the links, then the `def` fallback. */
  method MatchLinksLoop(params: Value, links: seq<Value>, def: Value, onlyFirstMatch: bool, withKeys: bool)
    returns (o: Outcome)
    ensures o == MatchLinks(params, links, def, onlyFirstMatch, withKeys)
  {
    ghost var vs := Verdicts(params, links);
    o := WalkLinks(params, links, vs, def, onlyFirstMatch, withKeys);
  }

  /** The walk of lines 79-130 against the verdicts `vs` of the links. */
  method WalkLinks(params: Value, links: seq<Value>, ghost vs: seq<Verdict>, def: Value, onlyFirstMatch: bool, withKeys: bool)
    returns (o: Outcome)
    requires |vs| == |links|
    requires forall i {:trigger LinkVerdict(params, links[i])} :: 0 <= i < |links| ==> vs[i] == LinkVerdict(params, links[i])
    ensures o == Decide(links, vs, def, onlyFirstMatch, withKeys)
  {
    var matches: Option<seq<Value>> := None;
    var n := 0;
    while n < |links|
      invariant 0 <= n <= |links|
      invariant forall j :: 0 <= j < n ==> !vs[j].RaisesOn?
      invariant onlyFirstMatch ==> matches == None && forall j :: 0 <= j < n ==> vs[j] == NoMatch
      invariant !onlyFirstMatch ==> matches == Nullable(Gather(links[..n], vs[..n], withKeys))
    {
      var link := links[n];
      var verdict := EvaluateListed(params, links, vs, n);
      if verdict.RaisesOn? {
        return Threw(verdict.key);
      }
      GatherStep(links, vs, n, withKeys);
      ghost var before := Gather(links[..n], vs[..n], withKeys);
      ghost var after := Gather(links[..n + 1], vs[..n + 1], withKeys);
      if verdict == Match {
        assert after == before + [Select(link, withKeys)];
        if onlyFirstMatch {
          return Returned(One(Select(link, withKeys)));
        }
        if matches == None {
          matches := Some([Select(link, withKeys)]);
          assert before == [];
          assert after == [Select(link, withKeys)];
        } else {
          matches := Some(matches.value + [Select(link, withKeys)]);
        }
      } else {
        assert after == before;
      }
      n := n + 1;
    }
    assert links[..n] == links;
    assert vs[..n] == vs;
    if matches == None && def != Null {
      if onlyFirstMatch {
        return Returned(One(if withKeys then DefLink(def) else def));
      }
      return Returned(Many([if withKeys then DefLink(def) else def]));
    }
    return Returned(if matches == None then Nothing else Many(matches.value));
  }

  /** Lines 69-131: `searchMatches`, the empty and scalar parameter cases before the walk. */
  method SearchMatchesLoop(doc: Value, params: Value, onlyFirstMatch: bool, withKeys: bool) returns (o: Outcome)
    requires doc.Arr?
    ensures o == SearchMatches(doc, params, onlyFirstMatch, withKeys)
  {
    if IsEmpty(params) {
      return Returned(Nothing);
    }
    if !params.Arr? {
      var found := Get(doc, OffsetKey(params));
      return Returned(if found == Null then Nothing else One(found));
    }
    o := MatchLinksLoop(params, LinksOf(doc), Field(doc, "def"), onlyFirstMatch, withKeys);
  }
}
