/** Scoring two result lists against themselves and merging them into one. Scores
    are reals; the star count's logarithm is known only to be non-negative and to
    grow with the count. */
module Ranking {
  import opened Sorting

  datatype Provenance = Catalogued(source: string) | Collection | Encountered
  datatype Result = Result(namespace: string, name: string, versions: seq<string>, stars: int,
                           provenance: Provenance, installed: bool)
  datatype Scored = Scored(result: Result, score: real)

  /** What a query brings to the ranking: which names it spells exactly, the arrows of
      followed collections, and log10(1 + stars). */
  datatype Query = Query(spells: string -> bool, followed: set<string>, decades: int -> real)

  const EXACT_NAME_BOOST: real := 2.0
  const FOLLOWED_BOOST: real := 0.5
  const STAR_BOOST_MAX: real := 0.3
  const STAR_BOOST_DECADES: real := 5.0

  ghost predicate Logarithmic(decades: int -> real) {
    forall m, n :: 0 < m <= n ==> 0.0 <= decades(m) <= decades(n)
  }

  // ------------------------------------------------------- positions to scores

  method PositionScores(n: nat) returns (scores: seq<real>)
    ensures |scores| == n && forall i :: 0 <= i < n ==> scores[i] == (n - 1 - i) as real
  {
    scores := seq(n, _ => 0.0);
    for i := 0 to n
      invariant |scores| == n && forall k :: 0 <= k < i ==> scores[k] == (n - 1 - k) as real
    {
      scores := scores[i := (n - 1 - i) as real];
    }
  }

  ghost predicate Spans(scores: seq<real>, lowest: real, highest: real) {
    && lowest in scores && highest in scores
    && forall i :: 0 <= i < |scores| ==> lowest <= scores[i] <= highest
  }

  function Unit(score: real, lowest: real, highest: real): real {
    if highest == lowest then 1.0 else (score - lowest) / (highest - lowest)
  }

  method Normalise(scores: seq<real>) returns (out: seq<real>)
    ensures |out| == |scores|
    ensures forall lowest, highest, i :: Spans(scores, lowest, highest) && 0 <= i < |scores| ==>
      out[i] == Unit(scores[i], lowest, highest)
  {
    out := seq(|scores|, _ => 0.0);
    if |scores| == 0 {
      return;
    }
    var lowest, highest := scores[0], scores[0];
    for i := 1 to |scores|
      invariant Spans(scores[..i], lowest, highest)
    {
      lowest := if scores[i] < lowest then scores[i] else lowest;
      highest := if scores[i] > highest then scores[i] else highest;
      assert scores[..i + 1] == scores[..i] + [scores[i]];
    }
    assert scores[..|scores|] == scores;
    var span := highest - lowest;
    for i := 0 to |scores|
      invariant |out| == |scores|
      invariant forall k :: 0 <= k < i ==> out[k] == Unit(scores[k], lowest, highest)
    {
      out := out[i := if span == 0.0 then 1.0 else (scores[i] - lowest) / span];
    }
    forall l, h | Spans(scores, l, h) ensures l == lowest && h == highest {
      OneSpan(scores, l, h, lowest, highest);
    }
  }

  lemma OneSpan(scores: seq<real>, l: real, h: real, lowest: real, highest: real)
    requires Spans(scores, l, h) && Spans(scores, lowest, highest)
    ensures l == lowest && h == highest
  {
  }

  /** The base score of place `i` among `n`: from 1 down to 0 in equal steps. */
  function Base(n: nat, i: nat): real
    requires i < n
  {
    if n == 1 then 1.0 else (n - 1 - i) as real / (n - 1) as real
  }

  /** Normalising leaves every score in [0,1], the best at 1, and keeps which of two
      scores is the better and by how much relative to the others. */
  lemma {:induction false} NormaliseKeepsRanking(scores: seq<real>, lowest: real, highest: real, i: nat, j: nat)
    requires Spans(scores, lowest, highest) && i < |scores| && j < |scores|
    ensures var a, b := Unit(scores[i], lowest, highest), Unit(scores[j], lowest, highest);
            && 0.0 <= a <= 1.0 && (scores[i] == highest ==> a == 1.0)
            && (a > b <==> scores[i] > scores[j])
            && (a - b) * (highest - lowest) == scores[i] - scores[j]
  {
    UnitKeepsRanking(scores[i], scores[j], lowest, highest);
  }

  lemma UnitKeepsRanking(x: real, y: real, lowest: real, highest: real)
    requires lowest <= x <= highest && lowest <= y <= highest
    ensures var a, b := Unit(x, lowest, highest), Unit(y, lowest, highest);
            && 0.0 <= a <= 1.0 && (x == highest ==> a == 1.0)
            && (a > b <==> x > y) && (a - b) * (highest - lowest) == x - y
  {
    var span := highest - lowest;
    if span != 0.0 {
      Division(x - lowest, span);
      Division(y - lowest, span);
      Ratios(Unit(x, lowest, highest), Unit(y, lowest, highest), span, x - lowest, y - lowest);
    }
  }

  lemma Ratios(a: real, b: real, span: real, p: real, q: real)
    requires span > 0.0 && a * span == p && b * span == q
    ensures (a - b) * span == p - q && (a > b <==> p > q)
  {
    Sign(a - b, span);
  }

  lemma Division(x: real, y: real)
    requires 0.0 <= x <= y && y > 0.0
    ensures 0.0 <= x / y <= 1.0 && (x / y) * y == x
    ensures x == y ==> x / y == 1.0
  {
    var q := x / y;
    assert q * y == x;
    if q < 0.0 {
      Sign(q, y);
    }
    if q > 1.0 {
      Sign(q - 1.0, y);
    }
    if q < 1.0 && x == y {
      Sign(q - 1.0, y);
    }
  }

  lemma Sign(a: real, y: real)
    requires y > 0.0
    ensures a > 0.0 <==> a * y > 0.0
    ensures a < 0.0 <==> a * y < 0.0
  {
  }

  /** Positions of a list of `n`, normalised, are the base scores. */
  lemma BaseScores(n: nat, scores: seq<real>, out: seq<real>, i: nat)
    requires i < n == |scores| == |out|
    requires forall k :: 0 <= k < n ==> scores[k] == (n - 1 - k) as real
    requires forall lowest, highest, k :: Spans(scores, lowest, highest) && 0 <= k < n ==> out[k] == Unit(scores[k], lowest, highest)
    ensures out[i] == Base(n, i)
  {
    assert scores[0] == (n - 1) as real && scores[n - 1] == 0.0;
    assert Spans(scores, 0.0, (n - 1) as real);
  }

  lemma BaseIsUnit(n: nat, i: nat)
    requires i < n
    ensures 0.0 <= Base(n, i) <= 1.0
  {
    if n > 1 {
      Division((n - 1 - i) as real, (n - 1) as real);
    }
  }

  // ----------------------------------------------------------------- boosts

  function StarBoost(q: Query, stars: int): real {
    if stars <= 0 then 0.0 else STAR_BOOST_MAX * Least(1.0, q.decades(stars) / STAR_BOOST_DECADES)
  }

  function Least(a: real, b: real): real {
    if a <= b then a else b
  }

  function Score(q: Query, base: real, r: Result): real {
    base + (if q.spells(r.name) then EXACT_NAME_BOOST else 0.0)
         + (if r.namespace in q.followed then FOLLOWED_BOOST else 0.0) + StarBoost(q, r.stars)
  }

  method ApplyBoosts(q: Query, base: real, r: Result, followed: bool) returns (score: real)
    requires followed == (r.namespace in q.followed)
    ensures score == Score(q, base, r)
  {
    score := base;
    if q.spells(r.name) {
      score := score + EXACT_NAME_BOOST;
    }
    if followed {
      score := score + FOLLOWED_BOOST;
    }
    score := score + StarBoost(q, r.stars);
  }

  lemma StarsAreCapped(q: Query, m: int, n: int)
    requires Logarithmic(q.decades) && m <= n
    ensures 0.0 <= StarBoost(q, m) <= StarBoost(q, n) <= STAR_BOOST_MAX
  {
    if n > 0 {
      assert 0.0 <= q.decades(n);
      assert m > 0 ==> 0.0 <= q.decades(m) <= q.decades(n);
    }
  }

  /** The boost in numbers: 0.06 for every decade of stars, up to five of them. */
  lemma StarBoostIs(q: Query, n: int)
    requires Logarithmic(q.decades)
    ensures n <= 0 ==> StarBoost(q, n) == 0.0
    ensures n > 0 && q.decades(n) < 5.0 ==> StarBoost(q, n) == 0.06 * q.decades(n)
    ensures n > 0 && q.decades(n) >= 5.0 ==> StarBoost(q, n) == 0.3
  {
    if n > 0 {
      Fifths(q.decades(n));
    }
  }

  lemma Fifths(x: real)
    ensures x / STAR_BOOST_DECADES < 1.0 <==> x < 5.0
    ensures STAR_BOOST_MAX * (x / STAR_BOOST_DECADES) == 0.06 * x
  {
  }

  /** Between results alike in all else more stars score higher exactly when they make
      a higher power of ten and the fewer do not reach the fifth. */
  lemma StarsMove(q: Query, base: real, fewer: Result, more: Result)
    requires Logarithmic(q.decades) && 0 < fewer.stars <= more.stars
    requires q.spells(fewer.name) == q.spells(more.name)
    requires fewer.namespace in q.followed <==> more.namespace in q.followed
    ensures Score(q, base, more) > Score(q, base, fewer) <==>
            q.decades(fewer.stars) < q.decades(more.stars) && q.decades(fewer.stars) < 5.0
  {
    StarBoostIs(q, fewer.stars);
    StarBoostIs(q, more.stars);
  }

  // ---------------------------------------------------------------- the merge

  /** Higher scores first, then lower namespaces. */
  predicate Before(a: Scored, b: Scored) {
    a.score > b.score || (a.score == b.score && Below(a.result.namespace, b.result.namespace))
  }

  function Scores(q: Query, results: seq<Result>): (items: seq<Scored>)
    ensures |items| == |results|
    ensures forall i :: 0 <= i < |results| ==> items[i].result == results[i]
  {
    seq(|results|, i requires 0 <= i < |results| => Scored(results[i], Score(q, Base(|results|, i), results[i])))
  }

  function Results(items: seq<Scored>): (results: seq<Result>)
    ensures |results| == |items|
    ensures forall i :: 0 <= i < |items| ==> results[i] == items[i].result
  {
    seq(|items|, i requires 0 <= i < |items| => items[i].result)
  }

  function Ranked(q: Query, catalog: seq<Result>, seen: seq<Result>): seq<Result> {
    Results(Sort(Scores(q, catalog) + Scores(q, seen), Before))
  }

  method ScoreSet(q: Query, results: seq<Result>) returns (items: seq<Scored>)
    ensures items == Scores(q, results)
  {
    var positions := PositionScores(|results|);
    var bases := Normalise(positions);
    items := [];
    for i := 0 to |results|
      invariant items == Scores(q, results)[..i]
    {
      BaseScores(|results|, positions, bases, i);
      var score := ApplyBoosts(q, bases[i], results[i], results[i].namespace in q.followed);
      items := items + [Scored(results[i], score)];
    }
  }

  method Merge(q: Query, catalog: seq<Result>, seen: seq<Result>) returns (merged: seq<Result>)
    ensures merged == Ranked(q, catalog, seen)
  {
    var fromCatalog := ScoreSet(q, catalog);
    var fromVault := ScoreSet(q, seen);
    var items := Sort(fromCatalog + fromVault, Before);
    merged := [];
    for i := 0 to |items|
      invariant merged == Results(items)[..i]
    {
      merged := merged + [items[i].result];
    }
  }

  lemma BeforeOrders()
    ensures WeakOrder(Before)
  {
    BelowOrders();
    forall x, y, z | !Before(y, x) && !Before(z, y) ensures !Before(z, x) {
      assert !Below(y.result.namespace, x.result.namespace) && !Below(z.result.namespace, y.result.namespace)
        ==> !Below(z.result.namespace, x.result.namespace);
    }
  }

  /** Nothing is lost, added or repeated by merging. */
  lemma MergeIsPermutation(q: Query, catalog: seq<Result>, seen: seq<Result>)
    ensures multiset(Ranked(q, catalog, seen)) == multiset(catalog) + multiset(seen)
    ensures |Ranked(q, catalog, seen)| == |catalog| + |seen|
  {
    var items := Scores(q, catalog) + Scores(q, seen);
    SortPermutes(items, Before);
    SortKeepsResults(items);
    assert Results(items) == catalog + seen;
  }

  lemma {:induction false} SortKeepsResults(items: seq<Scored>)
    ensures multiset(Results(Sort(items, Before))) == multiset(Results(items))
  {
    if items != [] {
      SortKeepsResults(items[1..]);
      InsertAddsResult(items[0], Sort(items[1..], Before));
      assert Results(items) == [items[0].result] + Results(items[1..]);
    }
  }

  lemma {:induction false} InsertAddsResult(x: Scored, s: seq<Scored>)
    ensures multiset(Results(Insert(x, s, Before))) == multiset(Results(s)) + multiset{x.result}
  {
    if s != [] && Before(s[0], x) {
      InsertAddsResult(x, s[1..]);
      FirstResult(s[0], s[1..]);
      FirstResult(s[0], Insert(x, s[1..], Before));
      assert s == [s[0]] + s[1..];
    } else {
      FirstResult(x, s);
    }
  }

  lemma FirstResult(x: Scored, s: seq<Scored>)
    ensures Results([x] + s) == [x.result] + Results(s)
    ensures multiset(Results([x] + s)) == multiset(Results(s)) + multiset{x.result}
  {
    assert Results([x] + s) == [x.result] + Results(s);
  }

  ghost predicate DistinctNamespaces(items: seq<Scored>) {
    forall i, j :: 0 <= i < j < |items| ==> items[i].result.namespace != items[j].result.namespace
  }

  /** With distinct namespaces there is one order, whatever order the scored items
      are combined in and whichever store answered first. */
  lemma OneRanking(items: seq<Scored>, other: seq<Scored>)
    requires DistinctNamespaces(items) && multiset(items) == multiset(other)
    ensures Sort(items, Before) == Sort(other, Before)
  {
    BeforeOrders();
    BelowOrders();
    SortOrders(items, Before);
    SortOrders(other, Before);
    SortPermutes(items, Before);
    SortPermutes(other, Before);
    var sorted := Sort(items, Before);
    forall x, y | x in sorted && y in sorted && x != y ensures Before(x, y) || Before(y, x) {
      assert x in multiset(sorted) && y in multiset(sorted);
      assert x in items && y in items;
    }
    OneArrangement(sorted, Sort(other, Before), Before);
  }

  /** The two stores' answers can be swapped without changing what is shown. */
  lemma SourcesCommute(q: Query, catalog: seq<Result>, seen: seq<Result>)
    requires DistinctNamespaces(Scores(q, catalog) + Scores(q, seen))
    ensures Ranked(q, catalog, seen) == Ranked(q, seen, catalog)
  {
    OneRanking(Scores(q, catalog) + Scores(q, seen), Scores(q, seen) + Scores(q, catalog));
  }

  /** Where a result is in the merged list its scored item is in the sorted one. */
  lemma PlacedAs(items: seq<Scored>, x: Scored, p: nat)
    requires DistinctNamespaces(items) && x in items
    requires p < |Results(Sort(items, Before))| && Results(Sort(items, Before))[p] == x.result
    ensures p < |Sort(items, Before)| && Sort(items, Before)[p] == x
  {
    var sorted := Sort(items, Before);
    SortPermutes(items, Before);
    assert sorted[p] in multiset(sorted);
    assert sorted[p] in items && sorted[p].result == x.result;
  }

  /** The merged list is in the order of the scores, each result scored by its place in
      its own list, and equal scores in that of their namespaces. */
  lemma MergedByScore(q: Query, catalog: seq<Result>, seen: seq<Result>, x: Scored, y: Scored, p: nat, r: nat)
    requires var items := Scores(q, catalog) + Scores(q, seen);
             DistinctNamespaces(items) && x in items && y in items
    requires x.score > y.score || (x.score == y.score && Below(x.result.namespace, y.result.namespace))
    requires p < |Ranked(q, catalog, seen)| && Ranked(q, catalog, seen)[p] == x.result
    requires r < |Ranked(q, catalog, seen)| && Ranked(q, catalog, seen)[r] == y.result
    ensures p < r
  {
    var items := Scores(q, catalog) + Scores(q, seen);
    PlacedAs(items, x, p);
    PlacedAs(items, y, r);
    BeforeOrders();
    SortOrders(items, Before);
    BelowIsOneWay(x.result.namespace, x.result.namespace);
  }

  predicate AlikeSignals(q: Query, a: Result, b: Result) {
    && q.spells(a.name) == q.spells(b.name)
    && (a.namespace in q.followed <==> b.namespace in q.followed)
    && a.stars == b.stars
  }

  /** Where nothing but relevance tells two results of one store apart, the merged list
      keeps them in that store's order. */
  lemma RelevanceIsKept(
    q: Query, catalog: seq<Result>, seen: seq<Result>, store: seq<Result>, i: nat, j: nat, p: nat, r: nat)
    requires DistinctNamespaces(Scores(q, catalog) + Scores(q, seen)) && (store == catalog || store == seen)
    requires i < j < |store| && AlikeSignals(q, store[i], store[j])
    requires p < |Ranked(q, catalog, seen)| && Ranked(q, catalog, seen)[p] == store[i]
    requires r < |Ranked(q, catalog, seen)| && Ranked(q, catalog, seen)[r] == store[j]
    ensures p < r
  {
    var items := Scores(q, store);
    BaseFalls(|store|, i, j);
    assert items[i] in Scores(q, catalog) + Scores(q, seen) && items[j] in Scores(q, catalog) + Scores(q, seen);
    MergedByScore(q, catalog, seen, items[i], items[j], p, r);
  }

  lemma BaseFalls(n: nat, i: nat, j: nat)
    requires i < j < n
    ensures Base(n, i) > Base(n, j)
  {
    var span := (n - 1) as real;
    Division((n - 1 - i) as real, span);
    Division((n - 1 - j) as real, span);
    Ratios(Base(n, i), Base(n, j), span, (n - 1 - i) as real, (n - 1 - j) as real);
  }

  // ---------------------------------------------------------- ranking policy

  /** What a boosted score can be. */
  lemma ScoreBounds(q: Query, n: nat, i: nat, r: Result)
    requires Logarithmic(q.decades) && i < n
    ensures var s := Score(q, Base(n, i), r);
            if q.spells(r.name) then 2.0 <= s <= 3.8 else 0.0 <= s <= 1.8
  {
    BaseIsUnit(n, i);
    StarsAreCapped(q, r.stars, r.stars);
  }

  /** In the merged list no result the query does not name precedes one it names,
      wherever each was placed, followed or starred. */
  lemma ExactNameOutranksEverything(q: Query, catalog: seq<Result>, seen: seq<Result>, i: nat, j: nat)
    requires Logarithmic(q.decades) && i < j < |Ranked(q, catalog, seen)|
    requires q.spells(Ranked(q, catalog, seen)[j].name)
    ensures q.spells(Ranked(q, catalog, seen)[i].name)
  {
    var items := Scores(q, catalog) + Scores(q, seen);
    var sorted := Sort(items, Before);
    BeforeOrders();
    SortOrders(items, Before);
    SortPermutes(items, Before);
    assert !Before(sorted[j], sorted[i]);
    assert sorted[i] in multiset(sorted) && sorted[j] in multiset(sorted);
    ItemBounds(q, catalog, seen, sorted[i]);
    ItemBounds(q, catalog, seen, sorted[j]);
  }

  lemma ItemBounds(q: Query, catalog: seq<Result>, seen: seq<Result>, x: Scored)
    requires Logarithmic(q.decades) && x in Scores(q, catalog) + Scores(q, seen)
    ensures if q.spells(x.result.name) then 2.0 <= x.score else x.score <= 1.8
  {
    if x in Scores(q, catalog) {
      var k :| 0 <= k < |catalog| && Scores(q, catalog)[k] == x;
      ScoreBounds(q, |catalog|, k, catalog[k]);
    } else {
      var k :| 0 <= k < |seen| && Scores(q, seen)[k] == x;
      ScoreBounds(q, |seen|, k, seen[k]);
    }
  }

  /** At equal relevance an arrow of a followed collection precedes any other,
      whatever their stars. */
  lemma CurationOutranksPopularity(q: Query, base: real, curated: Result, popular: Result)
    requires Logarithmic(q.decades) && q.spells(curated.name) == q.spells(popular.name)
    requires curated.namespace in q.followed && popular.namespace !in q.followed
    ensures Score(q, base, curated) > Score(q, base, popular)
  {
    StarsAreCapped(q, curated.stars, curated.stars);
    StarsAreCapped(q, popular.stars, popular.stars);
  }

  /** Between unstarred results of one list, being followed moves a result past one
      placed `j - i` before it exactly when that is less than half the list's span:
      never in a list of two, and only to a tie in a list of three. */
  lemma CurationMoves(q: Query, n: nat, i: nat, j: nat, curated: Result, other: Result)
    requires i < j < n && curated.stars <= 0 && other.stars <= 0
    requires q.spells(curated.name) == q.spells(other.name)
    requires curated.namespace in q.followed && other.namespace !in q.followed
    ensures Score(q, Base(n, j), curated) > Score(q, Base(n, i), other) <==> 2 * (j - i) < n - 1
    ensures Score(q, Base(n, j), curated) == Score(q, Base(n, i), other) <==> 2 * (j - i) == n - 1
  {
    Steps(n, i, j);
  }

  lemma Steps(n: nat, i: nat, j: nat)
    requires i < j < n
    ensures Base(n, j) + 0.5 > Base(n, i) <==> 2 * (j - i) < n - 1
    ensures Base(n, j) + 0.5 == Base(n, i) <==> 2 * (j - i) == n - 1
  {
    var span := (n - 1) as real;
    var a, b, behind := Base(n, i), Base(n, j), (j - i) as real;
    Division((n - 1 - i) as real, span);
    Division((n - 1 - j) as real, span);
    assert a * span - b * span == behind;
    Doubled(b + 0.5 - a, span, behind, (2 * (j - i)) as real);
  }

  lemma Doubled(gain: real, span: real, behind: real, twice: real)
    requires span > 0.0 && gain * span == 0.5 * span - behind && twice == 2.0 * behind
    ensures gain > 0.0 <==> twice < span
    ensures gain == 0.0 <==> twice == span
  {
    Sign(gain, span);
  }
}
