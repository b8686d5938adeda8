/** Ranking of the tally: Object.values(...).sort((a, b) => b.count - a.count).slice(0, 10).
    Array.prototype.sort is stable, so the order is fully determined: by
    descending count, and among equal counts by position in the input. The
    model sorts by stable insertion; StableSortUnique shows that every
    stable descending sort gives the same list. */
module Rank {
  import opened Tally

  /** How many ranked entries are kept as trending skills. */
  const TrendingLimit: nat := 10

  /** Non-increasing in count. */
  predicate Descending(s: seq<Entry>)
  {
    forall i, j :: 0 <= i < j < |s| ==> s[i].count >= s[j].count
  }

  /** The entries of `s` whose count is `c`, in their order in `s`. */
  function WithCount(s: seq<Entry>, c: nat): seq<Entry>
  {
    if s == [] then []
    else (if s[0].count == c then [s[0]] else []) + WithCount(s[1..], c)
  }

  /** Place `x` after every entry of `t` with a larger count and before the
      rest, which is where a stable sort puts an element that precedes all of `t`. */
  function Insert(x: Entry, t: seq<Entry>): (r: seq<Entry>)
    ensures multiset(r) == multiset(t) + multiset{x}
  {
    if t == [] || t[0].count <= x.count then [x] + t
    else
      assert t == [t[0]] + t[1..];
      [t[0]] + Insert(x, t[1..])
  }

  lemma {:induction false} InsertMembers(x: Entry, t: seq<Entry>, k: nat)
    requires k < |Insert(x, t)|
    ensures Insert(x, t)[k] == x || Insert(x, t)[k] in t
  {
    if !(t == [] || t[0].count <= x.count) && k > 0 {
      InsertMembers(x, t[1..], k - 1);
      assert Insert(x, t)[k] == Insert(x, t[1..])[k - 1];
    }
  }

  lemma {:induction false} InsertDescending(x: Entry, t: seq<Entry>)
    requires Descending(t)
    ensures Descending(Insert(x, t))
  {
    if !(t == [] || t[0].count <= x.count) {
      var rest := Insert(x, t[1..]);
      InsertDescending(x, t[1..]);
      forall k | 0 <= k < |rest| ensures t[0].count >= rest[k].count {
        InsertMembers(x, t[1..], k);
      }
      var r := Insert(x, t);
      assert r == [t[0]] + rest;
      forall a, b | 0 <= a < b < |r| ensures r[a].count >= r[b].count {
        assert r[b] == rest[b - 1];
        if a > 0 { assert r[a] == rest[a - 1]; }
      }
    }
  }

  /** Stable sort by descending count. */
  function SortByCount(s: seq<Entry>): (r: seq<Entry>)
    ensures multiset(r) == multiset(s)
    ensures Descending(r)
  {
    if s == [] then []
    else
      assert s == [s[0]] + s[1..];
      InsertDescending(s[0], SortByCount(s[1..]));
      Insert(s[0], SortByCount(s[1..]))
  }

  /** The first TrendingLimit entries of the sorted tally. */
  function Trending(values: seq<Entry>): seq<Entry>
  {
    var sorted := SortByCount(values);
    if |sorted| <= TrendingLimit then sorted else sorted[..TrendingLimit]
  }

  // ---------------------------------------------------------------------

  lemma {:induction false} WithCountMembers(s: seq<Entry>, c: nat, e: Entry)
    ensures e in WithCount(s, c) <==> e in s && e.count == c
  {
    if s != [] {
      WithCountMembers(s[1..], c, e);
      assert s == [s[0]] + s[1..];
    }
  }

  lemma {:induction false} WithCountAppend(a: seq<Entry>, b: seq<Entry>, c: nat)
    ensures WithCount(a + b, c) == WithCount(a, c) + WithCount(b, c)
  {
    if a != [] {
      WithCountAppend(a[1..], b, c);
      var head := if a[0].count == c then [a[0]] else [];
      assert (a + b)[0] == a[0];
      assert (a + b)[1..] == a[1..] + b;
      assert WithCount(a + b, c) == head + WithCount(a[1..] + b, c);
      assert WithCount(a, c) == head + WithCount(a[1..], c);
    } else {
      assert a + b == b;
    }
  }

  /** Inserting an entry adds it in front of the entries of equal count. */
  lemma {:induction false} InsertWithCount(x: Entry, t: seq<Entry>, c: nat)
    ensures WithCount(Insert(x, t), c) == (if x.count == c then [x] else []) + WithCount(t, c)
  {
    var r := Insert(x, t);
    var hx: seq<Entry> := if x.count == c then [x] else [];
    if t == [] || t[0].count <= x.count {
      assert r == [x] + t && r[0] == x && r[1..] == t;
      assert WithCount(r, c) == hx + WithCount(r[1..], c);
    } else {
      var rest := Insert(x, t[1..]);
      var h0: seq<Entry> := if t[0].count == c then [t[0]] else [];
      InsertWithCount(x, t[1..], c);
      assert rest == Insert(x, t[1..]);
      assert r == [t[0]] + rest && r[0] == t[0] && r[1..] == rest;
      assert WithCount(r, c) == h0 + WithCount(rest, c);
      assert WithCount(t, c) == h0 + WithCount(t[1..], c);
      var w := WithCount(t[1..], c);
      if h0 == [] {
        assert h0 + (hx + w) == hx + w && hx + (h0 + w) == hx + w;
      } else {
        assert hx == [];
        assert h0 + (hx + w) == h0 + w && hx + (h0 + w) == h0 + w;
      }
    }
  }

  /** Stability: for every count, the entries with that count appear in the
      sorted list in the same order as in the input. */
  lemma {:induction false} SortStable(s: seq<Entry>, c: nat)
    ensures WithCount(SortByCount(s), c) == WithCount(s, c)
  {
    if s != [] {
      SortStable(s[1..], c);
      InsertWithCount(s[0], SortByCount(s[1..]), c);
    }
  }

  lemma WithCountHead(s: seq<Entry>)
    requires s != []
    ensures WithCount(s, s[0].count) == [s[0]] + WithCount(s[1..], s[0].count)
    ensures forall d :: d != s[0].count ==> WithCount(s, d) == WithCount(s[1..], d)
  {
  }

  /** A descending list is determined by its per-count subsequences: so any
      stable sort by descending count, whatever its algorithm, returns
      SortByCount's list. */
  lemma {:induction false} StableSortUnique(r1: seq<Entry>, r2: seq<Entry>)
    requires Descending(r1) && Descending(r2)
    requires forall c :: WithCount(r1, c) == WithCount(r2, c)
    ensures r1 == r2
  {
    if r1 == [] || r2 == [] {
      if r1 != [] {
        WithCountHead(r1);
      } else if r2 != [] {
        WithCountHead(r2);
      }
    } else {
      var a, b := r1[0], r2[0];
      WithCountHead(r1);
      WithCountHead(r2);
      WithCountMembers(r1, b.count, b);
      WithCountMembers(r2, a.count, a);
      assert b in WithCount(r1, b.count);
      assert a in WithCount(r2, a.count);
      assert a.count == b.count;
      assert WithCount(r1, a.count) == WithCount(r2, a.count);
      assert WithCount(r1, a.count)[0] == a && WithCount(r2, a.count)[0] == b;
      forall d ensures WithCount(r1[1..], d) == WithCount(r2[1..], d) {
        assert WithCount(r1, d) == WithCount(r2, d);
        if d == a.count {
          assert WithCount(r1[1..], d) == WithCount(r1, d)[1..];
          assert WithCount(r2[1..], d) == WithCount(r2, d)[1..];
        }
      }
      StableSortUnique(r1[1..], r2[1..]);
      assert r1 == [a] + r1[1..] && r2 == [b] + r2[1..];
    }
  }

  /** SortByCount is a stable descending sort of its input: a permutation,
      non-increasing in count, and tie-preserving; and it is the only one. */
  lemma SortByCountSpec(s: seq<Entry>, r: seq<Entry>)
    ensures multiset(SortByCount(s)) == multiset(s) && Descending(SortByCount(s))
    ensures forall c :: WithCount(SortByCount(s), c) == WithCount(s, c)
    ensures Descending(r) && (forall c :: WithCount(r, c) == WithCount(s, c)) ==> r == SortByCount(s)
  {
    forall c ensures WithCount(SortByCount(s), c) == WithCount(s, c) { SortStable(s, c); }
    if Descending(r) && (forall c :: WithCount(r, c) == WithCount(s, c)) {
      StableSortUnique(r, SortByCount(s));
    }
  }

  /** The trending list keeps min(10, n) entries of the n tallied ones, in
      non-increasing count, each taken from the tally. */
  lemma TrendingShape(values: seq<Entry>)
    ensures |Trending(values)| == if |values| < TrendingLimit then |values| else TrendingLimit
    ensures Descending(Trending(values))
    ensures multiset(Trending(values)) <= multiset(values)
  {
    var sorted := SortByCount(values);
    assert |multiset(sorted)| == |sorted|;
    assert |multiset(values)| == |values|;
    if |sorted| > TrendingLimit {
      assert sorted == sorted[..TrendingLimit] + sorted[TrendingLimit..];
      assert multiset(sorted) == multiset(sorted[..TrendingLimit]) + multiset(sorted[TrendingLimit..]);
    }
  }

  /** Top-k: a tallied entry that was not kept has a count no greater than
      that of any entry that was kept. */
  lemma TopK(values: seq<Entry>, e: Entry, t: Entry)
    requires e in values && e !in Trending(values)
    requires t in Trending(values)
    ensures e.count <= t.count
  {
    var sorted := SortByCount(values);
    assert e in multiset(sorted);
    var k :| 0 <= k < |sorted| && sorted[k] == e;
    var j :| 0 <= j < |Trending(values)| && Trending(values)[j] == t;
    assert sorted[j] == t;
  }

  /** Ties within the trending list are the first entries of that count in
      the tally's order. */
  lemma TrendingStable(values: seq<Entry>, c: nat)
    ensures WithCount(Trending(values), c) <= WithCount(values, c)
  {
    var sorted := SortByCount(values);
    var t := Trending(values);
    SortStable(values, c);
    if |sorted| > TrendingLimit {
      var rest := sorted[TrendingLimit..];
      assert sorted == t + rest;
      WithCountAppend(t, rest, c);
    }
  }

  /** Where entry `i` of `s` lands in WithCount(s, s[i].count): after the
      equal-count entries that precede it. */
  lemma WithCountAt(s: seq<Entry>, i: nat)
    requires i < |s|
    ensures |WithCount(s[..i], s[i].count)| < |WithCount(s, s[i].count)|
    ensures WithCount(s, s[i].count)[|WithCount(s[..i], s[i].count)|] == s[i]
  {
    var c := s[i].count;
    assert s == s[..i] + s[i..];
    WithCountAppend(s[..i], s[i..], c);
    WithCountHead(s[i..]);
  }

  /** Equal-count entries keep their relative order in WithCount. */
  lemma WithCountBefore(s: seq<Entry>, i: nat, j: nat)
    requires i < j <= |s|
    ensures |WithCount(s[..i], s[i].count)| < |WithCount(s[..j], s[i].count)|
  {
    var c := s[i].count;
    assert s[..j] == s[..i] + s[i..j];
    WithCountAppend(s[..i], s[i..j], c);
    WithCountHead(s[i..j]);
  }
}
