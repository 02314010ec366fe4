/**
 The rule matcher `searchMatches`: given a configuration document and query
 parameters it returns the value (or the whole link) of the first matching
 link, of every matching link in document order, the `def` fallback, or null.
 This module states the matcher functionally; `MatcherLoop` mirrors the PHP
 loop and is proved equal to it.
 */
module Matcher {
  import opened Values
  import opened Conditions

  /** What one link, or the conditions of one link, amount to for a query. */
  datatype Verdict =
    | Match
    | NoMatch
      /** `areCoincidences` declares `string $key` under strict types: an integer key throws a TypeError */
    | RaisesOn(key: int)

  /** The matcher's result, in place of PHP's mixed return value. */
  datatype Answer = Nothing | One(value: Value) | Many(items: seq<Value>)

  /** A returned answer, or the TypeError thrown on an integer condition key. */
  datatype Outcome = Returned(answer: Answer) | Threw(badKey: int)

  /** The value PHP hands back for an answer: null, the value, or a list of values. */
  function AsPhp(a: Answer): (r: Value)
    ensures a.Nothing? ==> r == Null
    ensures a.One? ==> r == a.value
    ensures a.Many? ==> r.Arr? && ValuesOf(r) == a.items && |r.entries| == |a.items|
    ensures a.Many? ==> forall i :: 0 <= i < |a.items| ==> r.entries[i] == (IntKey(i), a.items[i])
  {
    match a
    case Nothing => Null
    case One(v) => v
    case Many(vs) => ListOf(vs)
  }

  /**
   PHP cannot tell a matching link without `v` (line 110 reads `$link['v']` as
   null) from no match at all: both come back as null.
   */
  lemma MissingValueLooksLikeNothing()
    ensures One(Null) != Nothing
    ensures AsPhp(One(Null)) == AsPhp(Nothing)
  {
  }

  /** One `(key, condition)` pair holds: its key is a string and the condition holds. */
  predicate PairHolds(params: Value, pair: (Key, Value))
  {
    pair.0.StrKey? && ConditionHolds(params, pair.0.s, pair.1)
  }

  /** Evaluation of `conds` throws at index `i`: every earlier pair held and this key is an integer. */
  ghost predicate RaisesAt(params: Value, conds: seq<(Key, Value)>, i: int)
  {
    && 0 <= i < |conds|
    && conds[i].0.IntKey?
    && forall j :: 0 <= j < i ==> PairHolds(params, conds[j])
  }

  /**
   The conditions of one link evaluated in order, AND-combined, stopping at the
   first one that fails (src/ConfigDataParser.php lines 87-106).
   */
  function ConditionsVerdict(params: Value, conds: seq<(Key, Value)>): Verdict
  {
    if conds == [] then Match
    else if conds[0].0.IntKey? then RaisesOn(conds[0].0.n)
    else if !ConditionHolds(params, conds[0].0.s, conds[0].1) then NoMatch
    else ConditionsVerdict(params, conds[1..])
  }

  /**
   The short-circuit evaluation means: all pairs hold for a match, and it
   throws exactly when an integer key is reached with every earlier pair held.
   */
  lemma {:induction false} ConditionsVerdictMeaning(params: Value, conds: seq<(Key, Value)>)
    ensures ConditionsVerdict(params, conds) == Match <==>
            forall i :: 0 <= i < |conds| ==> PairHolds(params, conds[i])
    ensures ConditionsVerdict(params, conds).RaisesOn? <==> exists i :: RaisesAt(params, conds, i)
    ensures ConditionsVerdict(params, conds).RaisesOn? ==>
            exists i :: RaisesAt(params, conds, i) && conds[i].0 == IntKey(ConditionsVerdict(params, conds).key)
  {
    if conds == [] {
    } else if conds[0].0.IntKey? {
      assert RaisesAt(params, conds, 0);
    } else if !ConditionHolds(params, conds[0].0.s, conds[0].1) {
      assert !PairHolds(params, conds[0]);
      assert forall i :: 0 < i < |conds| ==> !RaisesAt(params, conds, i);
    } else {
      var tail := conds[1..];
      ConditionsVerdictMeaning(params, tail);
      assert PairHolds(params, conds[0]);
      assert forall i :: 0 < i < |conds| ==> conds[i] == tail[i - 1];
      assert forall i :: 0 < i < |conds| ==> (RaisesAt(params, conds, i) <==> RaisesAt(params, tail, i - 1));
      assert forall i :: 0 <= i < |tail| ==> (RaisesAt(params, tail, i) ==> RaisesAt(params, conds, i + 1));
    }
  }

  /** One link: a link without a `k` entry is skipped, otherwise its conditions decide. */
  function LinkVerdict(params: Value, link: Value): Verdict
  {
    if !IsSet(link, "k") then NoMatch
    else ConditionsVerdict(params, Iterated(Field(link, "k")))
  }

  /**
   A link without `k` is skipped; one with `k` matches exactly when every
   `(key, condition)` pair of it holds, and throws exactly when evaluation
   reaches an integer key.
   */
  lemma LinkVerdictMeaning(params: Value, link: Value)
    ensures !IsSet(link, "k") ==> LinkVerdict(params, link) == NoMatch
    ensures IsSet(link, "k") ==>
      (LinkVerdict(params, link) == Match <==>
         forall i :: 0 <= i < |Iterated(Field(link, "k"))| ==> PairHolds(params, Iterated(Field(link, "k"))[i]))
    ensures IsSet(link, "k") ==>
      (LinkVerdict(params, link).RaisesOn? <==> exists i :: RaisesAt(params, Iterated(Field(link, "k")), i))
  {
    if IsSet(link, "k") {
      ConditionsVerdictMeaning(params, Iterated(Field(link, "k")));
    }
  }

  predicate LinkMatches(params: Value, link: Value)
  {
    LinkVerdict(params, link) == Match
  }

  /** What a matching link contributes: its `v` (null when absent), or the whole link with `withKeys`. */
  function Select(link: Value, withKeys: bool): Value
  {
    if withKeys then link else Field(link, "v")
  }

  /** The synthetic link `{k: 'def', v: def}` returned for the fallback with `withKeys`. */
  function DefLink(def: Value): Value
  {
    Arr([(StrKey("k"), Str("def")), (StrKey("v"), def)])
  }

  /** The links of a document, `$cfgData['links'] ?? []`; a scalar there iterates nothing. */
  function LinksOf(doc: Value): seq<Value>
  {
    ValuesOf(Field(doc, "links"))
  }

  /** The verdict of every link, in document order. */
  function Verdicts(params: Value, links: seq<Value>): (vs: seq<Verdict>)
    ensures |vs| == |links|
    ensures forall i {:trigger LinkVerdict(params, links[i])} :: 0 <= i < |links| ==> vs[i] == LinkVerdict(params, links[i])
  {
    seq(|links|, i requires 0 <= i < |links| => LinkVerdict(params, links[i]))
  }

  /** Index of the first verdict that matches or throws, `|vs|` when there is none. */
  function FirstDecisive(vs: seq<Verdict>): (i: nat)
    ensures i <= |vs|
    ensures forall j :: 0 <= j < i ==> vs[j] == NoMatch
    ensures i < |vs| ==> vs[i] != NoMatch
  {
    if vs == [] then 0
    else if vs[0] != NoMatch then 0
    else
      var k := FirstDecisive(vs[1..]);
      assert forall j :: 0 < j < |vs| ==> vs[j] == vs[1..][j - 1];
      1 + k
  }

  /** Index of the first verdict that throws, `|vs|` when none does. */
  function FirstRaising(vs: seq<Verdict>): (i: nat)
    ensures i <= |vs|
    ensures forall j :: 0 <= j < i ==> !vs[j].RaisesOn?
    ensures i < |vs| ==> vs[i].RaisesOn?
  {
    if vs == [] then 0
    else if vs[0].RaisesOn? then 0
    else
      var k := FirstRaising(vs[1..]);
      assert forall j :: 0 < j < |vs| ==> vs[j] == vs[1..][j - 1];
      1 + k
  }

  /** The positions of the matches. */
  ghost function MatchSet(vs: seq<Verdict>): set<int>
  {
    set i | 0 <= i < |vs| && vs[i] == Match
  }

  /**
   The positions of the matches in document order: strictly increasing and
   exactly the matching ones.
   */
  function MatchIndices(vs: seq<Verdict>): (idx: seq<nat>)
    ensures forall k :: 0 <= k < |idx| ==> idx[k] < |vs| && vs[idx[k]] == Match
    ensures forall k, l :: 0 <= k < l < |idx| ==> idx[k] < idx[l]
    ensures forall i :: 0 <= i < |vs| && vs[i] == Match ==> i in idx
    decreases |vs|
  {
    if vs == [] then []
    else
      var n := |vs| - 1;
      var front := MatchIndices(vs[..n]);
      assert forall i :: 0 <= i < n ==> vs[..n][i] == vs[i];
      if vs[n] == Match then front + [n] else front
  }

  /** Appending a verdict adds its position to the matches exactly when it is a match. */
  lemma MatchSetSnoc(vs: seq<Verdict>)
    requires vs != []
    ensures |vs| - 1 !in MatchSet(vs[..|vs| - 1])
    ensures MatchSet(vs) == MatchSet(vs[..|vs| - 1]) + (if vs[|vs| - 1] == Match then {|vs| - 1} else {})
  {
    var n := |vs| - 1;
    assert forall i :: 0 <= i < n ==> vs[..n][i] == vs[i];
  }

  /** There are as many match positions as matches. */
  lemma {:induction false} MatchIndicesCount(vs: seq<Verdict>)
    ensures |MatchIndices(vs)| == |MatchSet(vs)|
    decreases |vs|
  {
    if vs != [] {
      var n := |vs| - 1;
      MatchIndicesCount(vs[..n]);
      MatchSetSnoc(vs);
      assert |MatchIndices(vs)| == |MatchIndices(vs[..n])| + (if vs[n] == Match then 1 else 0);
    }
  }

  /** The positions of the matching links of a list. */
  ghost function MatchingLinks(params: Value, links: seq<Value>): set<int>
  {
    MatchSet(Verdicts(params, links))
  }

  /** The contributions of the links whose verdict is a match, in document order. */
  function Gather(links: seq<Value>, vs: seq<Verdict>, withKeys: bool): seq<Value>
    requires |vs| == |links|
    decreases |links|
  {
    if links == [] then []
    else
      var n := |links| - 1;
      Gather(links[..n], vs[..n], withKeys) + (if vs[n] == Match then [Select(links[n], withKeys)] else [])
  }

  /**
   What is gathered is, position by position, the contribution of the link at
   the matching positions listed in order.
   */
  lemma {:induction false} GatherMeaning(links: seq<Value>, vs: seq<Verdict>, withKeys: bool)
    requires |vs| == |links|
    ensures |Gather(links, vs, withKeys)| == |MatchIndices(vs)|
    ensures forall k :: 0 <= k < |MatchIndices(vs)| ==>
      Gather(links, vs, withKeys)[k] == Select(links[MatchIndices(vs)[k]], withKeys)
    decreases |links|
  {
    if links != [] {
      var n := |links| - 1;
      GatherMeaning(links[..n], vs[..n], withKeys);
      var idx, jdx := MatchIndices(vs), MatchIndices(vs[..n]);
      assert idx == jdx + (if vs[n] == Match then [n] else []);
      assert forall i :: 0 <= i < n ==> links[..n][i] == links[i];
    }
  }

  /** Nothing is gathered when no verdict is a match. */
  lemma {:induction false} GatherNoMatch(links: seq<Value>, vs: seq<Verdict>, withKeys: bool)
    requires |vs| == |links|
    requires forall j :: 0 <= j < |vs| ==> vs[j] != Match
    ensures Gather(links, vs, withKeys) == []
    decreases |links|
  {
    if links != [] {
      var n := |links| - 1;
      GatherNoMatch(links[..n], vs[..n], withKeys);
    }
  }

  /** What collect-all mode gathers: the contribution of every matching link, in document order. */
  function Collected(params: Value, links: seq<Value>, withKeys: bool): (r: seq<Value>)
    ensures |r| == |MatchingLinks(params, links)| == |MatchIndices(Verdicts(params, links))|
    ensures forall k :: 0 <= k < |r| ==>
      var i := MatchIndices(Verdicts(params, links))[k];
      i < |links| && LinkMatches(params, links[i]) && r[k] == Select(links[i], withKeys)
  {
    var vs := Verdicts(params, links);
    GatherMeaning(links, vs, withKeys);
    MatchIndicesCount(vs);
    Gather(links, vs, withKeys)
  }

  /**
   Lines 122-130 when nothing matched: `def` when it is set (wrapped as a link
   with `withKeys`, in a one-element list in collect-all mode), otherwise null.
   */
  function Fallback(def: Value, onlyFirstMatch: bool, withKeys: bool): Answer
  {
    if def == Null then Nothing
    else
      var item := if withKeys then DefLink(def) else def;
      if onlyFirstMatch then One(item) else Many([item])
  }

  /** The outcome of the walk over `links` given each link's verdict `vs`, then the `def` fallback. */
  function Decide(links: seq<Value>, vs: seq<Verdict>, def: Value, onlyFirstMatch: bool, withKeys: bool): Outcome
    requires |vs| == |links|
  {
    if onlyFirstMatch then
      var i := FirstDecisive(vs);
      if i == |links| then Returned(Fallback(def, true, withKeys))
      else if vs[i].RaisesOn? then Threw(vs[i].key)
      else Returned(One(Select(links[i], withKeys)))
    else
      var e := FirstRaising(vs);
      if e < |links| then Threw(vs[e].key)
      else
        var items := Gather(links, vs, withKeys);
        if items == [] then Returned(Fallback(def, false, withKeys))
        else Returned(Many(items))
  }

  /** Rule matching over the list of links, once the parameters are known to be a non-empty array. */
  function MatchLinks(params: Value, links: seq<Value>, def: Value, onlyFirstMatch: bool, withKeys: bool): Outcome
  {
    Decide(links, Verdicts(params, links), def, onlyFirstMatch, withKeys)
  }

  /** `searchMatches($cfgData, $params, $onlyFirstMatch, $withKeys)`. */
  function SearchMatches(doc: Value, params: Value, onlyFirstMatch: bool, withKeys: bool): (o: Outcome)
    requires doc.Arr?
    // empty parameters: null, whatever the document holds
    ensures IsEmpty(params) ==> o == Returned(Nothing)
    // scalar parameters: a direct top-level lookup, no rule matching
    ensures !IsEmpty(params) && !params.Arr? ==>
      o == Returned(if Get(doc, OffsetKey(params)) == Null then Nothing else One(Get(doc, OffsetKey(params))))
    // collect-all mode never returns an empty list: "nothing found" is null
    ensures o.Returned? && o.answer.Many? ==> o.answer.items != []
    // the result shape follows the mode
    ensures params.Arr? && onlyFirstMatch ==> !(o.Returned? && o.answer.Many?)
    ensures params.Arr? && !onlyFirstMatch ==> !(o.Returned? && o.answer.One?)
  {
    if IsEmpty(params) then Returned(Nothing)
    else if !params.Arr? then
      var found := Get(doc, OffsetKey(params));
      Returned(if found == Null then Nothing else One(found))
    else MatchLinks(params, LinksOf(doc), Field(doc, "def"), onlyFirstMatch, withKeys)
  }

  /**
   A link whose `k` iterates nothing (an empty mapping, or a scalar that
   `foreach` skips) matches whatever the parameters are.
   */
  lemma EmptyConditionsMatch(params: Value, link: Value)
    requires IsSet(link, "k") && Iterated(Field(link, "k")) == []
    ensures LinkMatches(params, link)
  {
    LinkVerdictMeaning(params, link);
  }

  /**
   First-match mode: the result is the contribution of the first matching link
   when no earlier link throws.
   */
  lemma FirstMatchWins(doc: Value, params: Value, withKeys: bool, i: nat)
    requires doc.Arr? && params.Arr? && !IsEmpty(params)
    requires i < |LinksOf(doc)| && LinkMatches(params, LinksOf(doc)[i])
    requires forall j :: 0 <= j < i ==> LinkVerdict(params, LinksOf(doc)[j]) == NoMatch
    ensures SearchMatches(doc, params, true, withKeys) == Returned(One(Select(LinksOf(doc)[i], withKeys)))
  {
    var links := LinksOf(doc);
    var vs := Verdicts(params, links);
    assert vs[i] == Match;
    assert forall j :: 0 <= j < i ==> vs[j] == LinkVerdict(params, links[j]);
    FirstDecisiveAt(vs, i);
  }

  /** A decisive verdict preceded only by non-matches is the first decisive one. */
  lemma FirstDecisiveAt(vs: seq<Verdict>, i: nat)
    requires i < |vs| && vs[i] != NoMatch
    requires forall j :: 0 <= j < i ==> vs[j] == NoMatch
    ensures FirstDecisive(vs) == i
  {
  }

  /** The first decisive verdict of a list stays the first one when verdicts are appended. */
  lemma FirstDecisiveOfExtension(vs: seq<Verdict>, ws: seq<Verdict>)
    requires |ws| <= |vs| && vs[..|ws|] == ws
    requires FirstDecisive(ws) < |ws|
    ensures FirstDecisive(vs) == FirstDecisive(ws)
  {
    assert forall j :: 0 <= j < |ws| ==> vs[j] == ws[j];
  }

  /** First-match mode: once a prefix decides, links after it do not affect the result. */
  lemma FirstMatchIgnoresLater(params: Value, front: seq<Value>, later: seq<Value>, def: Value, withKeys: bool)
    requires FirstDecisive(Verdicts(params, front)) < |front|
    ensures MatchLinks(params, front + later, def, true, withKeys) == MatchLinks(params, front, def, true, withKeys)
  {
    var links := front + later;
    assert forall j :: 0 <= j < |front| ==> links[j] == front[j];
    var vs, ws := Verdicts(params, links), Verdicts(params, front);
    assert vs[..|front|] == ws;
    FirstDecisiveOfExtension(vs, ws);
  }

  /**
   Collect-all mode: when some link matches and none throws, the result lists
   the contribution of every matching link in document order, one per link.
   */
  lemma CollectAllMatches(doc: Value, params: Value, withKeys: bool)
    requires doc.Arr? && params.Arr? && !IsEmpty(params)
    requires forall j :: 0 <= j < |LinksOf(doc)| ==> !LinkVerdict(params, LinksOf(doc)[j]).RaisesOn?
    requires MatchingLinks(params, LinksOf(doc)) != {}
    ensures SearchMatches(doc, params, false, withKeys) == Returned(Many(Collected(params, LinksOf(doc), withKeys)))
    ensures |SearchMatches(doc, params, false, withKeys).answer.items| == |MatchingLinks(params, LinksOf(doc))|
  {
  }

  /**
   The `def` fallback: when no link matches and none throws, the result is the
   fallback in either mode; with no `def` it is null.
   */
  lemma NothingMatchedFallsBack(doc: Value, params: Value, onlyFirstMatch: bool, withKeys: bool)
    requires doc.Arr? && params.Arr? && !IsEmpty(params)
    requires forall j :: 0 <= j < |LinksOf(doc)| ==> LinkVerdict(params, LinksOf(doc)[j]) == NoMatch
    ensures Field(doc, "def") == Null ==> SearchMatches(doc, params, onlyFirstMatch, withKeys) == Returned(Nothing)
    ensures Field(doc, "def") != Null && onlyFirstMatch ==>
      var def := Field(doc, "def");
      SearchMatches(doc, params, onlyFirstMatch, withKeys) == Returned(One(if withKeys then DefLink(def) else def))
    ensures Field(doc, "def") != Null && !onlyFirstMatch ==>
      var def := Field(doc, "def");
      SearchMatches(doc, params, onlyFirstMatch, withKeys) == Returned(Many([if withKeys then DefLink(def) else def]))
  {
    var links := LinksOf(doc);
    GatherNoMatch(links, Verdicts(params, links), withKeys);
  }

  /**
   An integer key reached while evaluating a link throws the TypeError, in both
   modes, when every earlier link failed to match.
   */
  lemma IntegerKeyThrows(doc: Value, params: Value, onlyFirstMatch: bool, withKeys: bool, e: nat)
    requires doc.Arr? && params.Arr? && !IsEmpty(params)
    requires e < |LinksOf(doc)| && LinkVerdict(params, LinksOf(doc)[e]).RaisesOn?
    requires forall j :: 0 <= j < e ==> LinkVerdict(params, LinksOf(doc)[j]) == NoMatch
    ensures SearchMatches(doc, params, onlyFirstMatch, withKeys) == Threw(LinkVerdict(params, LinksOf(doc)[e]).key)
  {
    var links := LinksOf(doc);
    var vs := Verdicts(params, links);
    assert vs[e] == LinkVerdict(params, links[e]);
    assert forall j :: 0 <= j < e ==> vs[j] == LinkVerdict(params, links[j]);
    FirstDecisiveAt(vs, e);
  }
}
