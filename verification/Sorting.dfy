/** Sorting by a comparison, and the order of Go strings. The library's sorts are
    stood for by a stable insertion sort, which any sort that meets the same two
    clauses equals. */
module Sorting {

  ghost predicate WeakOrder<T(!new)>(before: (T, T) -> bool) {
    && (forall x, y :: before(x, y) ==> !before(y, x))
    && (forall x, y, z :: !before(y, x) && !before(z, y) ==> !before(z, x))
  }

  ghost predicate Ordered<T>(s: seq<T>, before: (T, T) -> bool) {
    forall i, j :: 0 <= i < j < |s| ==> !before(s[j], s[i])
  }

  /** Whatever differs is told apart. */
  ghost predicate Separates<T>(s: seq<T>, before: (T, T) -> bool) {
    forall x, y :: x in s && y in s && x != y ==> before(x, y) || before(y, x)
  }

  function Sort<T>(s: seq<T>, before: (T, T) -> bool): seq<T> {
    if s == [] then [] else Insert(s[0], Sort(s[1..], before), before)
  }

  function Insert<T>(x: T, s: seq<T>, before: (T, T) -> bool): seq<T> {
    if s == [] || !before(s[0], x) then [x] + s else [s[0]] + Insert(x, s[1..], before)
  }

  lemma {:induction false} SortPermutes<T>(s: seq<T>, before: (T, T) -> bool)
    ensures multiset(Sort(s, before)) == multiset(s)
    ensures |Sort(s, before)| == |s|
  {
    if s != [] {
      SortPermutes(s[1..], before);
      InsertAdds(s[0], Sort(s[1..], before), before);
      assert s == [s[0]] + s[1..];
      assert |Sort(s, before)| == |multiset(s)|;
    }
  }

  lemma {:induction false} InsertAdds<T>(x: T, s: seq<T>, before: (T, T) -> bool)
    ensures multiset(Insert(x, s, before)) == multiset(s) + multiset{x}
    ensures |Insert(x, s, before)| == |s| + 1
  {
    if s != [] && before(s[0], x) {
      InsertAdds(x, s[1..], before);
      assert s == [s[0]] + s[1..];
    }
  }

  lemma {:induction false} SortOrders<T(!new)>(s: seq<T>, before: (T, T) -> bool)
    requires WeakOrder(before)
    ensures Ordered(Sort(s, before), before)
  {
    if s != [] {
      SortOrders(s[1..], before);
      InsertKeepsOrder(s[0], Sort(s[1..], before), before);
    }
  }

  lemma {:induction false} InsertKeepsOrder<T(!new)>(x: T, s: seq<T>, before: (T, T) -> bool)
    requires WeakOrder(before) && Ordered(s, before)
    ensures Ordered(Insert(x, s, before), before)
  {
    var r := Insert(x, s, before);
    if s != [] && before(s[0], x) {
      InsertKeepsOrder(x, s[1..], before);
      InsertAdds(x, s[1..], before);
      var tail := Insert(x, s[1..], before);
      forall j | 0 <= j < |tail| ensures !before(tail[j], s[0]) {
        assert tail[j] in multiset(tail);
        if tail[j] != x {
          assert tail[j] in multiset(s[1..]);
          var k :| 0 <= k < |s[1..]| && s[1..][k] == tail[j];
          assert s[k + 1] == tail[j];
        }
      }
    } else if s != [] {
      forall j | 0 <= j < |s| ensures !before(s[j], x) {
        assert j > 0 ==> !before(s[j], s[0]);
      }
    }
  }

  /** An order that tells everything apart leaves one way to arrange it. */
  lemma {:induction false} OneArrangement<T>(a: seq<T>, b: seq<T>, before: (T, T) -> bool)
    requires Ordered(a, before) && Ordered(b, before) && Separates(a, before)
    requires multiset(a) == multiset(b)
    ensures a == b
  {
    assert |b| == |multiset(a)| == |a|;
    if a != [] {
      SameHead(a, b, before);
      SameRest(a, b);
      OneArrangement(a[1..], b[1..], before);
      assert a == [a[0]] + a[1..] && b == [b[0]] + b[1..];
    }
  }

  lemma SameRest<T>(a: seq<T>, b: seq<T>)
    requires a != [] && b != [] && a[0] == b[0] && multiset(a) == multiset(b)
    ensures multiset(a[1..]) == multiset(b[1..])
  {
    assert a == [a[0]] + a[1..] && b == [b[0]] + b[1..];
    assert multiset(a[1..]) == multiset(a) - multiset{a[0]};
  }

  lemma SameHead<T>(a: seq<T>, b: seq<T>, before: (T, T) -> bool)
    requires Ordered(a, before) && Ordered(b, before) && Separates(a, before)
    requires a != [] && b != [] && multiset(a) == multiset(b)
    ensures a[0] == b[0]
  {
    assert a[0] in multiset(b) && b[0] in multiset(a);
    var j :| 0 <= j < |b| && b[j] == a[0];
    var k :| 0 <= k < |a| && a[k] == b[0];
    assert j > 0 ==> !before(b[j], b[0]);
    assert k > 0 ==> !before(a[k], a[0]);
  }

  // -------------------------------------------------------- the string order

  predicate Below(a: string, b: string) {
    b != [] && (a == [] || a[0] < b[0] || (a[0] == b[0] && Below(a[1..], b[1..])))
  }

  /** The order of a dictionary: by the first place where two strings differ, the
      shorter first when there is none. */
  lemma {:induction false} BelowMeans(a: string, b: string)
    ensures Below(a, b) <==>
            exists k :: 0 <= k <= |a| && k < |b| && a[..k] == b[..k] && (k == |a| || a[k] < b[k])
  {
    if Below(a, b) {
      if a == [] || a[0] < b[0] {
        assert a[..0] == b[..0];
      } else {
        BelowMeans(a[1..], b[1..]);
        var k :| 0 <= k <= |a[1..]| && k < |b[1..]| && a[1..][..k] == b[1..][..k] && (k == |a[1..]| || a[1..][k] < b[1..][k]);
        assert a[..k + 1] == [a[0]] + a[1..][..k] && b[..k + 1] == [b[0]] + b[1..][..k];
      }
    }
    if k :| 0 <= k <= |a| && k < |b| && a[..k] == b[..k] && (k == |a| || a[k] < b[k]) {
      if k > 0 {
        BelowMeans(a[1..], b[1..]);
        assert a[..k][0] == a[0] && b[..k][0] == b[0];
        assert a[1..][..k - 1] == a[..k][1..] && b[1..][..k - 1] == b[..k][1..];
      }
    }
  }

  lemma {:induction false} BelowIsOneWay(a: string, b: string)
    ensures Below(a, b) ==> !Below(b, a)
    ensures a != b ==> Below(a, b) || Below(b, a)
  {
    if a != [] && b != [] {
      BelowIsOneWay(a[1..], b[1..]);
      assert a == [a[0]] + a[1..] && b == [b[0]] + b[1..];
    }
  }

  lemma {:induction false} BelowIsTransitive(a: string, b: string, c: string)
    requires Below(a, b) && Below(b, c)
    ensures Below(a, c)
  {
    if a != [] && a[0] == b[0] == c[0] {
      BelowIsTransitive(a[1..], b[1..], c[1..]);
    }
  }

  lemma BelowOrders()
    ensures WeakOrder(Below)
    ensures forall x, y :: x != y ==> Below(x, y) || Below(y, x)
  {
    forall x, y ensures Below(x, y) ==> !Below(y, x) {
      BelowIsOneWay(x, y);
    }
    forall x, y | x != y ensures Below(x, y) || Below(y, x) {
      BelowIsOneWay(x, y);
    }
    forall x, y, z | !Below(y, x) && !Below(z, y) ensures !Below(z, x) {
      BelowIsOneWay(x, y);
      BelowIsOneWay(y, z);
      if Below(z, x) && x != y && y != z {
        BelowIsTransitive(x, y, z);
        BelowIsOneWay(x, z);
      }
    }
  }

  // ------------------------------------------------------------- version lists

  function SortedRefs(refs: seq<string>): seq<string> {
    Compact(Sort(refs, Below))
  }

  /** Drops every element equal to the one before it. */
  function Compact(s: seq<string>): seq<string> {
    if |s| <= 1 then s
    else if s[0] == s[1] then Compact(s[1..])
    else [s[0]] + Compact(s[1..])
  }

  ghost predicate Increasing(s: seq<string>) {
    forall i, j :: 0 <= i < j < |s| ==> Below(s[i], s[j])
  }

  /** A version list is the refs, each once, in increasing order. */
  lemma SortedRefsAreExact(refs: seq<string>)
    ensures Increasing(SortedRefs(refs))
    ensures forall r :: r in SortedRefs(refs) <==> r in refs
  {
    BelowOrders();
    SortPermutes(refs, Below);
    SortOrders(refs, Below);
    CompactKeeps(Sort(refs, Below));
    forall r ensures r in Sort(refs, Below) <==> r in refs {
      assert r in Sort(refs, Below) <==> r in multiset(Sort(refs, Below));
    }
  }

  lemma {:induction false} CompactKeeps(s: seq<string>)
    requires Ordered(s, Below)
    ensures Increasing(Compact(s))
    ensures forall r :: r in Compact(s) <==> r in s
    ensures s != [] ==> Compact(s) != [] && Compact(s)[0] == s[0]
  {
    if |s| > 1 {
      CompactKeeps(s[1..]);
      assert s == [s[0]] + s[1..];
      if s[0] != s[1] {
        var rest := Compact(s[1..]);
        forall j | 0 <= j < |rest| ensures Below(s[0], rest[j]) {
          BelowIsOneWay(s[0], s[1]);
          assert !Below(s[1], s[0]);
          if j > 0 {
            assert Below(rest[0], rest[j]);
            BelowIsTransitive(s[0], s[1], rest[j]);
          }
        }
      }
    }
  }
}
