/** Answering a search from the catalog and the vault index: which rows the vault
    hands over, how they collapse onto arrows, and how many results come back. */
module Search {
  import opened Wrappers
  import opened Sorting
  import opened Ranking

  /** One cached ref of an arrow, as the vault index ranks them. */
  datatype Row = Row(namespace: string, ref: string, name: string, stars: int)
  datatype Hit = Hit(namespace: string, name: string, refs: seq<string>, source: string)
  datatype Answer = EmptyQuery | StoreFailed | Found(results: seq<Result>)

  const DEFAULT_SEARCH_LIMIT: nat := 25

  function First<T>(s: seq<T>, n: nat): seq<T> {
    if |s| <= n then s else s[..n]
  }

  // ------------------------------------------------------ namespaces of rows

  /** The distinct namespaces of ranked rows, best first. */
  function Distinct(rows: seq<Row>): seq<string> {
    if rows == [] then []
    else
      var before, last := Distinct(rows[..|rows| - 1]), rows[|rows| - 1].namespace;
      if last in before then before else before + [last]
  }

  function Restrict(rows: seq<Row>, names: seq<string>): seq<Row> {
    if rows == [] then []
    else
      var before, last := Restrict(rows[..|rows| - 1], names), rows[|rows| - 1];
      if last.namespace in names then before + [last] else before
  }

  function Without(names: seq<string>, catalog: set<string>): seq<string> {
    if names == [] then []
    else
      var before, last := Without(names[..|names| - 1], catalog), names[|names| - 1];
      if last in catalog then before else before + [last]
  }

  /** All refs of a namespace, in rank order. */
  function RefsOf(rows: seq<Row>, ns: string): seq<string> {
    if rows == [] then []
    else
      var before, last := RefsOf(rows[..|rows| - 1], ns), rows[|rows| - 1];
      if last.namespace == ns then before + [last.ref] else before
  }

  /** The best-ranked row of a namespace. */
  function Best(rows: seq<Row>, ns: string): (best: Option<Row>)
    ensures best.Some? ==> best.value.namespace == ns
  {
    if rows == [] then None
    else
      var before, last := Best(rows[..|rows| - 1], ns), rows[|rows| - 1];
      if before.Some? then before else if last.namespace == ns then Some(last) else None
  }

  ghost predicate NoRepeats(names: seq<string>) {
    forall i, j :: 0 <= i < j < |names| ==> names[i] != names[j]
  }

  lemma {:induction false} DistinctIsExact(rows: seq<Row>)
    ensures NoRepeats(Distinct(rows))
    ensures forall ns :: ns in Distinct(rows) <==> Best(rows, ns).Some?
    ensures forall row :: row in rows ==> row.namespace in Distinct(rows)
  {
    if rows != [] {
      var front, last := rows[..|rows| - 1], rows[|rows| - 1];
      DistinctIsExact(front);
      assert rows == front + [last];
    }
  }

  /** The best row of a namespace is the first it has. */
  lemma {:induction false} BestIsFirst(rows: seq<Row>, ns: string)
    ensures match Best(rows, ns)
            case None => forall k :: 0 <= k < |rows| ==> rows[k].namespace != ns
            case Some(best) => exists k :: 0 <= k < |rows| && rows[k] == best && FirstOf(rows, ns, k)
  {
    if rows != [] {
      var front, last := rows[..|rows| - 1], |rows| - 1;
      BestIsFirst(front, ns);
      if Best(front, ns).Some? {
        var k :| 0 <= k < |front| && front[k] == Best(front, ns).value && FirstOf(front, ns, k);
        assert rows[k] == front[k] && FirstOf(rows, ns, k);
      } else if rows[last].namespace == ns {
        assert FirstOf(rows, ns, last);
      }
    }
  }

  ghost predicate FirstOf(rows: seq<Row>, ns: string, k: nat) {
    k < |rows| && rows[k].namespace == ns && forall j :: 0 <= j < k ==> rows[j].namespace != ns
  }

  /** Namespaces come in the order of their best rows. */
  lemma {:induction false} DistinctIsRanked(rows: seq<Row>, i: nat, j: nat) returns (k: nat, m: nat)
    requires i < j < |Distinct(rows)|
    ensures k < m && FirstOf(rows, Distinct(rows)[i], k) && FirstOf(rows, Distinct(rows)[j], m)
  {
    var front, row := rows[..|rows| - 1], rows[|rows| - 1];
    assert rows == front + [row];
    if j < |Distinct(front)| {
      k, m := DistinctIsRanked(front, i, j);
      StillFirst(front, row, Distinct(front)[i], k);
      StillFirst(front, row, Distinct(front)[j], m);
    } else {
      DistinctIsExact(front);
      assert Distinct(front)[i] in Distinct(front);
      BestIsFirst(front, Distinct(front)[i]);
      BestIsFirst(front, row.namespace);
      k :| FirstOf(front, Distinct(front)[i], k);
      m := |front|;
      StillFirst(front, row, Distinct(front)[i], k);
      FirstAtLast(front, row);
    }
  }

  lemma StillFirst(rows: seq<Row>, row: Row, ns: string, k: nat)
    requires FirstOf(rows, ns, k)
    ensures FirstOf(rows + [row], ns, k)
  {
  }

  lemma FirstAtLast(rows: seq<Row>, row: Row)
    requires forall k :: 0 <= k < |rows| ==> rows[k].namespace != row.namespace
    ensures FirstOf(rows + [row], row.namespace, |rows|)
  {
  }

  // ----------------------------------------------------- the vault's answer

  /** Every row of the first `limit` distinct namespaces. */
  method FirstNamespaces(rows: seq<Row>, limit: nat) returns (kept: seq<Row>)
    ensures kept == Restrict(rows, First(Distinct(rows), limit))
  {
    kept := [];
    var seen: set<string> := {};
    ghost var names: seq<string> := [];
    for i := 0 to |rows|
      invariant names == First(Distinct(rows[..i]), limit) && kept == Restrict(rows[..i], names)
      invariant Names(seen, names)
    {
      var row := rows[i];
      NextRow(rows[..i], row, limit);
      assert rows[..i + 1] == rows[..i] + [row];
      names := First(Distinct(rows[..i + 1]), limit);
      if row.namespace !in seen && |seen| == limit {
        continue;
      }
      OneMoreName(seen, First(Distinct(rows[..i]), limit), row.namespace);
      seen := seen + {row.namespace};
      kept := kept + [row];
    }
    assert rows[..|rows|] == rows;
  }

  ghost predicate Names(seen: set<string>, names: seq<string>) {
    |seen| == |names| && forall ns :: ns in seen <==> ns in names
  }

  lemma OneMoreName(seen: set<string>, names: seq<string>, ns: string)
    requires Names(seen, names)
    ensures Names(seen + {ns}, if ns in names then names else names + [ns])
  {
    assert ns in seen ==> seen + {ns} == seen;
  }

  /** What one more row does to the kept ones. */
  lemma {:induction false} NextRow(rows: seq<Row>, row: Row, limit: nat)
    ensures var before, after := First(Distinct(rows), limit), First(Distinct(rows + [row]), limit);
            && (row.namespace in before || |before| == limit ==> after == before)
            && (row.namespace !in before && |before| < limit ==> after == before + [row.namespace])
            && Restrict(rows + [row], after) ==
                 Restrict(rows, before) + (if row.namespace in after then [row] else [])
  {
    assert (rows + [row])[..|rows|] == rows;
    DistinctIsExact(rows);
    var before, after := First(Distinct(rows), limit), First(Distinct(rows + [row]), limit);
    if row.namespace !in before && |before| < limit {
      RestrictIgnoresStrangers(rows, before, row.namespace);
    }
  }

  lemma {:induction false} RestrictIgnoresStrangers(rows: seq<Row>, names: seq<string>, ns: string)
    requires forall row :: row in rows ==> row.namespace != ns
    ensures Restrict(rows, names + [ns]) == Restrict(rows, names)
  {
    if rows != [] {
      var front, last := rows[..|rows| - 1], rows[|rows| - 1];
      assert rows == front + [last];
      assert last in rows;
      RestrictIgnoresStrangers(front, names, ns);
    }
  }

  // ------------------------------------------------- collapsing rows to arrows

  function SeenResult(ns: string, row: Row, refs: seq<string>, followed: set<string>): Result {
    Result(ns, row.name, refs, row.stars, if ns in followed then Collection else Encountered, false)
  }

  /** An arrow as its rows describe it: the best row's metadata and every ref. */
  function Collapsed(rows: seq<Row>, ns: string, followed: set<string>): Result {
    var best := Best(rows, ns);
    SeenResult(ns, if best.Some? then best.value else Row(ns, "", "", 0), RefsOf(rows, ns), followed)
  }

  function WithRef(r: Result, ref: string): Result {
    r.(versions := r.versions + [ref])
  }

  function Tidy(r: Result): Result {
    r.(versions := SortedRefs(r.versions))
  }

  function Seen(rows: seq<Row>, catalog: set<string>, followed: set<string>): (results: seq<Result>)
    ensures |results| == |Without(Distinct(rows), catalog)|
    ensures forall i :: 0 <= i < |results| ==> results[i].namespace == Without(Distinct(rows), catalog)[i]
  {
    var names := Without(Distinct(rows), catalog);
    seq(|names|, i requires 0 <= i < |names| => Tidy(Collapsed(rows, names[i], followed)))
  }

  method SeenResults(rows: seq<Row>, catalog: set<string>, followed: set<string>) returns (results: seq<Result>)
    ensures results == Seen(rows, catalog, followed)
  {
    var order, grouped := Group(rows, catalog, followed);
    results := [];
    for i := 0 to |order|
      invariant results == Seen(rows, catalog, followed)[..i]
    {
      assert order[i] in order;
      results := results + [Tidy(grouped[order[i]])];
    }
  }

  ghost predicate Groups(grouped: map<string, Result>, order: seq<string>, rows: seq<Row>, followed: set<string>) {
    && (forall ns :: ns in grouped <==> ns in order)
    && (forall ns :: ns in grouped ==> grouped[ns] == Collapsed(rows, ns, followed))
  }

  method Group(rows: seq<Row>, catalog: set<string>, followed: set<string>)
      returns (order: seq<string>, grouped: map<string, Result>)
    ensures order == Without(Distinct(rows), catalog) && Groups(grouped, order, rows, followed)
  {
    order, grouped := [], map[];
    for i := 0 to |rows|
      invariant order == Without(Distinct(rows[..i]), catalog) && Groups(grouped, order, rows[..i], followed)
    {
      var row := rows[i];
      var ns := row.namespace;
      assert rows[..i + 1] == rows[..i] + [row];
      OneMoreRow(rows[..i], row, catalog, followed);
      if ns in catalog {
        continue;
      }
      if ns in grouped {
        grouped := grouped[ns := WithRef(grouped[ns], row.ref)];
        continue;
      }
      grouped := grouped[ns := SeenResult(ns, row, [row.ref], followed)];
      order := order + [ns];
    }
    assert rows[..|rows|] == rows;
  }

  /** What one more row does to the arrows collapsed so far. */
  lemma {:induction false} OneMoreRow(rows: seq<Row>, row: Row, catalog: set<string>, followed: set<string>)
    ensures var order, ns := Without(Distinct(rows), catalog), row.namespace;
            && Without(Distinct(rows + [row]), catalog) == (if ns in catalog || ns in order then order else order + [ns])
            && (forall other :: other != ns ==> Collapsed(rows + [row], other, followed) == Collapsed(rows, other, followed))
            && (ns in catalog ==> ns !in order)
            && (ns in order ==> Collapsed(rows + [row], ns, followed) == WithRef(Collapsed(rows, ns, followed), row.ref))
            && (ns !in catalog && ns !in order ==> Collapsed(rows + [row], ns, followed) == SeenResult(ns, row, [row.ref], followed))
  {
    assert (rows + [row])[..|rows|] == rows;
    DistinctIsExact(rows);
    WithoutIsExact(Distinct(rows), catalog);
    var names := Distinct(rows);
    assert (names + [row.namespace])[..|names|] == names;
    if row.namespace !in names {
      NoRefsUnseen(rows, row.namespace);
    }
  }

  lemma {:induction false} NoRefsUnseen(rows: seq<Row>, ns: string)
    requires Best(rows, ns).None?
    ensures RefsOf(rows, ns) == []
  {
    if rows != [] {
      NoRefsUnseen(rows[..|rows| - 1], ns);
    }
  }

  lemma {:induction false} WithoutIsExact(names: seq<string>, catalog: set<string>)
    ensures forall ns :: ns in Without(names, catalog) <==> ns in names && ns !in catalog
    ensures NoRepeats(names) ==> NoRepeats(Without(names, catalog))
  {
    if names != [] {
      var front, last := names[..|names| - 1], names[|names| - 1];
      assert names == front + [last];
      WithoutIsExact(front, catalog);
      if NoRepeats(names) {
        assert NoRepeats(front);
        assert last !in front;
      }
    }
  }

  // -------------------------------------------------- the widened vault limit

  /** Keeping the first namespaces keeps exactly those, in the same order. */
  lemma {:induction false} DistinctOfRestricted(rows: seq<Row>, names: seq<string>)
    requires names <= Distinct(rows)
    ensures Distinct(Restrict(rows, names)) == names
  {
    if rows != [] {
      var front, last := rows[..|rows| - 1], rows[|rows| - 1];
      DistinctIsExact(front);
      DistinctIsExact(rows);
      if names <= Distinct(front) {
        DistinctOfRestricted(front, names);
        var kept := Restrict(front, names);
        assert (kept + [last])[..|kept|] == kept;
      } else {
        assert names == Distinct(front) + [last.namespace];
        RestrictIgnoresStrangers(front, Distinct(front), last.namespace);
        DistinctOfRestricted(front, Distinct(front));
        var kept := Restrict(front, names);
        assert (kept + [last])[..|kept|] == kept;
      }
    }
  }

  /** A kept namespace keeps all its rows. */
  lemma {:induction false} RestrictKeepsWhole(rows: seq<Row>, names: seq<string>, ns: string)
    requires ns in names
    ensures RefsOf(Restrict(rows, names), ns) == RefsOf(rows, ns)
    ensures Best(Restrict(rows, names), ns) == Best(rows, ns)
  {
    if rows != [] {
      var front, last := rows[..|rows| - 1], rows[|rows| - 1];
      assert rows == front + [last];
      RestrictKeepsWhole(front, names, ns);
      RestrictSnoc(front, last, names);
      OneRowMore(front, last, ns);
      if last.namespace in names {
        OneRowMore(Restrict(front, names), last, ns);
      }
    }
  }

  lemma {:induction false} RestrictSnoc(rows: seq<Row>, row: Row, names: seq<string>)
    ensures Restrict(rows + [row], names) ==
            if row.namespace in names then Restrict(rows, names) + [row] else Restrict(rows, names)
  {
    assert (rows + [row])[..|rows|] == rows;
  }

  lemma {:induction false} OneRowMore(rows: seq<Row>, row: Row, ns: string)
    ensures RefsOf(rows + [row], ns) == if row.namespace == ns then RefsOf(rows, ns) + [row.ref] else RefsOf(rows, ns)
    ensures Best(rows + [row], ns) ==
            if Best(rows, ns).Some? || row.namespace != ns then Best(rows, ns) else Some(row)
  {
    assert (rows + [row])[..|rows|] == rows;
  }

  /** Filtering a prefix gives a prefix, shorter than it by at most the size of what
      is filtered out. */
  lemma {:induction false} WithoutPrefix(names: seq<string>, n: nat, catalog: set<string>)
    requires n <= |names|
    ensures Without(names[..n], catalog) <= Without(names, catalog)
  {
    if n < |names| {
      assert names[..|names| - 1][..n] == names[..n];
      WithoutPrefix(names[..|names| - 1], n, catalog);
    } else {
      assert names[..n] == names;
    }
  }

  lemma {:induction false} WithoutDropsFew(names: seq<string>, catalog: set<string>)
    requires NoRepeats(names)
    ensures |names| - |catalog| <= |Without(names, catalog)| <= |names|
  {
    if names != [] {
      var front, last := names[..|names| - 1], names[|names| - 1];
      if last in catalog {
        WithoutDropsFew(front, catalog - {last});
        StrangerIsNoMatter(front, catalog, last);
      } else {
        WithoutDropsFew(front, catalog);
      }
    }
  }

  lemma {:induction false} StrangerIsNoMatter(names: seq<string>, catalog: set<string>, ns: string)
    requires ns !in names
    ensures Without(names, catalog - {ns}) == Without(names, catalog)
  {
    if names != [] {
      assert names[|names| - 1] in names;
      StrangerIsNoMatter(names[..|names| - 1], catalog, ns);
    }
  }

  /** The rows the vault hands over when it is asked for `limit` namespaces more than the
      catalog has hits. */
  function Kept(limit: nat, hits: nat, rows: seq<Row>): seq<Row> {
    Restrict(rows, First(Distinct(rows), limit + hits))
  }

  /** Asking the vault for `limit` more namespaces than the catalog has results is
      enough: what is left after dropping the catalog's is a prefix of all the
      matches it lacks, has `limit` of them if there are so many, and describes each
      as all the matching rows would. */
  lemma WidenedLimitIsEnough(rows: seq<Row>, catalog: set<string>, hits: nat, limit: nat, followed: set<string>)
    requires |catalog| <= hits
    ensures var kept, missing := Kept(limit, hits, rows), Without(Distinct(rows), catalog);
            && Without(Distinct(kept), catalog) <= missing
            && |Without(Distinct(kept), catalog)| >= (if |missing| < limit then |missing| else limit)
            && Seen(kept, catalog, followed) <= Seen(rows, catalog, followed)
  {
    var all := Distinct(rows);
    var names := First(all, limit + hits);
    var kept := Restrict(rows, names);
    DistinctIsExact(rows);
    DistinctOfRestricted(rows, names);
    assert all[..|names|] == names;
    WithoutPrefix(all, |names|, catalog);
    WithoutDropsFew(names, catalog);
    SeenOfRestricted(rows, names, catalog, followed);
  }

  lemma SeenOfRestricted(rows: seq<Row>, names: seq<string>, catalog: set<string>, followed: set<string>)
    requires Distinct(Restrict(rows, names)) == names
    requires Without(names, catalog) <= Without(Distinct(rows), catalog)
    ensures Seen(Restrict(rows, names), catalog, followed) <= Seen(rows, catalog, followed)
  {
    WithoutIsExact(names, catalog);
    var left := Without(names, catalog);
    forall i | 0 <= i < |left|
      ensures Seen(Restrict(rows, names), catalog, followed)[i] == Seen(rows, catalog, followed)[i]
    {
      assert left[i] in left;
      RestrictKeepsWhole(rows, names, left[i]);
    }
  }

  /** What a collapsed arrow carries: the name and stars of its best row, and each
      ref the index holds for it once, in increasing order. */
  lemma SeenIsWhole(rows: seq<Row>, catalog: set<string>, followed: set<string>, i: nat)
    requires i < |Seen(rows, catalog, followed)|
    ensures var r := Seen(rows, catalog, followed)[i];
            && r.namespace !in catalog && Best(rows, r.namespace).Some?
            && r.name == Best(rows, r.namespace).value.name && r.stars == Best(rows, r.namespace).value.stars
            && r.provenance == (if r.namespace in followed then Collection else Encountered) && !r.installed
            && Increasing(r.versions)
            && forall ref :: ref in r.versions <==> exists row :: row in rows && row.namespace == r.namespace && row.ref == ref
  {
    var names := Without(Distinct(rows), catalog);
    DistinctIsExact(rows);
    WithoutIsExact(Distinct(rows), catalog);
    assert names[i] in names;
    SortedRefsAreExact(RefsOf(rows, names[i]));
    RefsAreExact(rows, names[i]);
  }

  lemma {:induction false} RefsAreExact(rows: seq<Row>, ns: string)
    ensures forall ref :: ref in RefsOf(rows, ns) <==> exists row :: row in rows && row.namespace == ns && row.ref == ref
  {
    if rows != [] {
      var front, last := rows[..|rows| - 1], rows[|rows| - 1];
      RefsAreExact(front, ns);
      assert rows == front + [last];
    }
  }

  // -------------------------------------------------------------- the search

  function CatalogResult(hit: Hit, followed: set<string>): Result {
    Result(hit.namespace, hit.name, SortedRefs(hit.refs), 0,
           if hit.namespace in followed then Collection else Catalogued(hit.source), true)
  }

  function Catalog(hits: seq<Hit>, followed: set<string>): (results: seq<Result>)
    ensures |results| == |hits|
    ensures forall i :: 0 <= i < |hits| ==> results[i] == CatalogResult(hits[i], followed)
  {
    seq(|hits|, i requires 0 <= i < |hits| => CatalogResult(hits[i], followed))
  }

  /** What a catalog result carries: the hit's name, each of its refs once, in increasing
      order, and its source unless a followed collection has it; it is installed. */
  lemma CatalogIsWhole(hits: seq<Hit>, followed: set<string>, i: nat)
    requires i < |hits|
    ensures var r := Catalog(hits, followed)[i];
            && r.namespace == hits[i].namespace && r.name == hits[i].name && r.installed && r.stars == 0
            && r.provenance == (if hits[i].namespace in followed then Collection else Catalogued(hits[i].source))
            && Increasing(r.versions) && forall ref :: ref in r.versions <==> ref in hits[i].refs
  {
    SortedRefsAreExact(hits[i].refs);
  }

  function Namespaces(hits: seq<Hit>): (names: set<string>)
    ensures |names| <= |hits|
    ensures forall hit :: hit in hits ==> hit.namespace in names
  {
    if hits == [] then {} else Namespaces(hits[..|hits| - 1]) + {hits[|hits| - 1].namespace}
  }

  method CatalogResults(hits: seq<Hit>, followed: set<string>) returns (results: seq<Result>)
    ensures results == Catalog(hits, followed)
  {
    results := [];
    for i := 0 to |hits|
      invariant results == Catalog(hits, followed)[..i]
    {
      results := results + [CatalogResult(hits[i], followed)];
    }
  }

  method NamespaceSet(hits: seq<Hit>) returns (names: set<string>)
    ensures names == Namespaces(hits)
  {
    names := {};
    for i := 0 to |hits|
      invariant names == Namespaces(hits[..i])
    {
      assert hits[..i + 1][..i] == hits[..i];
      names := names + {hits[i].namespace};
    }
    assert hits[..|hits|] == hits;
  }

  /** How many of the arrows in these rows the catalog lacks. */
  function Missing(hits: seq<Hit>, rows: seq<Row>): nat {
    |Without(Distinct(rows), Namespaces(hits))|
  }

  /** All there is to rank: the catalog's results, and the vault's for arrows the
      catalog does not have. */
  function Gathered(q: Query, limit: nat, hits: seq<Hit>, rows: seq<Row>): seq<Result> {
    Ranked(q, Catalog(hits, q.followed),
           Seen(Kept(limit, |hits|, rows), Namespaces(hits), q.followed))
  }

  method Gather(q: Query, limit: nat, hits: seq<Hit>, rows: seq<Row>) returns (merged: seq<Result>)
    ensures merged == Gathered(q, limit, hits, rows)
  {
    var kept := FirstNamespaces(rows, limit + |hits|);
    var catalog := CatalogResults(hits, q.followed);
    var names := NamespaceSet(hits);
    var seen := SeenResults(kept, names, q.followed);
    merged := Merge(q, catalog, seen);
  }

  /** `hits` are the catalog's matches and `rows` everything the vault index matches,
      best first; None is a store that failed. */
  method Run(
    text: string, requested: int, q: Query, hits: Option<seq<Hit>>,
    rows: Option<seq<Row>>) returns (answer: Answer)
    ensures answer == EmptyQuery <==> text == ""
    ensures answer == StoreFailed <==> text != "" && (hits.None? || rows.None?)
    ensures answer.Found? ==>
      var limit := if requested <= 0 then 25 else requested;
      var total := |hits.value| + Missing(hits.value, rows.value);
      && answer.results <= Gathered(q, limit, hits.value, rows.value)
      && |answer.results| == if total < limit then total else limit
  {
    if text == "" {
      return EmptyQuery;
    }
    var limit := if requested <= 0 then DEFAULT_SEARCH_LIMIT else requested;
    if hits.None? {
      return StoreFailed;
    }
    if rows.None? {
      return StoreFailed;
    }
    var merged := Gather(q, limit, hits.value, rows.value);
    SearchFillsTheLimit(q, limit, hits.value, rows.value);
    if |merged| > limit {
      merged := merged[..limit];
    }
    return Found(merged);
  }

  /** A search shows `limit` arrows whenever the two stores together match so many,
      and all of them otherwise: the limit on the vault never costs a place. */
  lemma {:induction false} SearchFillsTheLimit(q: Query, limit: nat, hits: seq<Hit>, rows: seq<Row>)
    ensures var total := |hits| + Missing(hits, rows);
            |First(Gathered(q, limit, hits, rows), limit)| == if total < limit then total else limit
  {
    GatheredIsEnough(q, limit, hits, rows);
    FirstSize(Gathered(q, limit, hits, rows), limit);
  }

  lemma {:induction false} GatheredIsEnough(q: Query, limit: nat, hits: seq<Hit>, rows: seq<Row>)
    ensures var total, size := |hits| + Missing(hits, rows), |Gathered(q, limit, hits, rows)|;
            size <= total && (size == total || size >= limit)
  {
    GatheredSize(q, limit, hits, rows);
    EnoughLeft(limit, hits, rows);
  }

  lemma {:induction false} EnoughLeft(limit: nat, hits: seq<Hit>, rows: seq<Row>)
    ensures var left, missing := Missing(hits, Kept(limit, |hits|, rows)), Missing(hits, rows);
            left <= missing && (left >= missing || left >= limit)
  {
    WidenedLimitIsEnough(rows, Namespaces(hits), |hits|, limit, {});
  }

  lemma FirstSize<T>(s: seq<T>, n: nat)
    ensures |First(s, n)| == if |s| < n then |s| else n
  {
  }

  lemma {:induction false} GatheredSize(q: Query, limit: nat, hits: seq<Hit>, rows: seq<Row>)
    ensures |Gathered(q, limit, hits, rows)| == |hits| + Missing(hits, Kept(limit, |hits|, rows))
  {
    MergeIsPermutation(q, Catalog(hits, q.followed), Seen(Kept(limit, |hits|, rows), Namespaces(hits), q.followed));
  }

  ghost predicate DistinctHits(hits: seq<Hit>) {
    forall i, j :: 0 <= i < j < |hits| ==> hits[i].namespace != hits[j].namespace
  }

  /** No arrow is shown twice, and the catalog's account of it is the one shown. */
  lemma OneResultPerArrow(q: Query, limit: nat, hits: seq<Hit>, rows: seq<Row>)
    requires DistinctHits(hits)
    ensures forall i, j :: 0 <= i < j < |Gathered(q, limit, hits, rows)| ==>
      Gathered(q, limit, hits, rows)[i].namespace != Gathered(q, limit, hits, rows)[j].namespace
  {
    var kept := Kept(limit, |hits|, rows);
    SourcesAreApart(q, hits, kept);
    SortKeepsApart(Scores(q, Catalog(hits, q.followed)) + Scores(q, Seen(kept, Namespaces(hits), q.followed)));
  }

  /** Every result shown is a hit of the catalog, or an arrow the catalog lacks as all
      the rows that match it describe it. */
  lemma {:induction false} ResultsAreAccountedFor(q: Query, limit: nat, hits: seq<Hit>, rows: seq<Row>, r: Result)
    requires r in Gathered(q, limit, hits, rows)
    ensures r in Catalog(hits, q.followed) || r in Seen(rows, Namespaces(hits), q.followed)
  {
    var kept := Kept(limit, |hits|, rows);
    MergedFrom(q, Catalog(hits, q.followed), Seen(kept, Namespaces(hits), q.followed), r);
    KeptIsPrefix(limit, hits, rows, q.followed);
    InPrefix(Seen(Kept(limit, |hits|, rows), Namespaces(hits), q.followed), Seen(rows, Namespaces(hits), q.followed), r);
  }

  lemma MergedFrom(q: Query, catalog: seq<Result>, seen: seq<Result>, r: Result)
    requires r in Ranked(q, catalog, seen)
    ensures r in catalog || r in seen
  {
    MergeIsPermutation(q, catalog, seen);
    assert r in multiset(Ranked(q, catalog, seen));
  }

  lemma {:induction false} KeptIsPrefix(limit: nat, hits: seq<Hit>, rows: seq<Row>, followed: set<string>)
    ensures Seen(Kept(limit, |hits|, rows), Namespaces(hits), followed) <= Seen(rows, Namespaces(hits), followed)
  {
    WidenedLimitIsEnough(rows, Namespaces(hits), |hits|, limit, followed);
  }

  lemma InPrefix<T>(a: seq<T>, b: seq<T>, x: T)
    requires a <= b
    ensures x in a ==> x in b
  {
  }

  /** What the two stores contribute never shares a namespace, so the merged order is
      the only one. */
  lemma {:induction false} SourcesAreApart(q: Query, hits: seq<Hit>, rows: seq<Row>)
    requires DistinctHits(hits)
    ensures DistinctNamespaces(Scores(q, Catalog(hits, q.followed)) + Scores(q, Seen(rows, Namespaces(hits), q.followed)))
  {
    var names := Without(Distinct(rows), Namespaces(hits));
    DistinctIsExact(rows);
    WithoutIsExact(Distinct(rows), Namespaces(hits));
    var a, b := Scores(q, Catalog(hits, q.followed)), Scores(q, Seen(rows, Namespaces(hits), q.followed));
    forall i, j | 0 <= i < |a| && 0 <= j < |b| ensures a[i].result.namespace != b[j].result.namespace {
      assert hits[i] in hits && names[j] in names;
    }
    ApartTogether(a, b);
  }

  lemma ApartTogether(a: seq<Scored>, b: seq<Scored>)
    requires DistinctNamespaces(a) && DistinctNamespaces(b)
    requires forall i, j :: 0 <= i < |a| && 0 <= j < |b| ==> a[i].result.namespace != b[j].result.namespace
    ensures DistinctNamespaces(a + b)
  {
  }

  lemma SortKeepsApart(items: seq<Scored>)
    requires DistinctNamespaces(items)
    ensures DistinctNamespaces(Sort(items, Before))
  {
    var sorted := Sort(items, Before);
    SortPermutes(items, Before);
    forall i, j | 0 <= i < j < |sorted| ensures sorted[i].result.namespace != sorted[j].result.namespace {
      if sorted[i].result.namespace == sorted[j].result.namespace {
        assert sorted[i] in multiset(sorted) && sorted[j] in multiset(sorted);
        assert sorted[i] in items && sorted[j] in items;
        assert sorted[i] == sorted[j];
        TwiceMeansTwice(sorted, i, j);
        OnceMeansOnce(items, sorted[i]);
      }
    }
  }

  lemma TwiceMeansTwice<T>(s: seq<T>, i: nat, j: nat)
    requires i < j < |s| && s[i] == s[j]
    ensures multiset(s)[s[i]] >= 2
  {
    assert s == s[..i] + [s[i]] + s[i + 1..j] + [s[j]] + s[j + 1..];
  }

  lemma OnceMeansOnce(items: seq<Scored>, x: Scored)
    requires DistinctNamespaces(items)
    ensures multiset(items)[x] <= 1
  {
    if x in items {
      var k :| 0 <= k < |items| && items[k] == x;
      assert items == items[..k] + [x] + items[k + 1..];
    }
  }
}
