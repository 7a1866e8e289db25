/**
 * `filter_and_sort_businesses`: keep the entries whose lower-cased
 * `name + description` contains the lower-cased query, then sort them by
 * category, largest first, with a stable sort (`sorted(..., reverse=True)`
 * keeps entries with equal keys in their input order).
 */
module Query {
  import opened Text
  import opened Businesses

  /** One `(id, record)` pair of `businesses.items()`. */
  datatype Entry = Entry(id: string, record: Business)

  /** The sort key: the `category` field. */
  function Key(e: Entry): int {
    e.record.category
  }

  /** The filter predicate: `q.lower() in (name + description).lower()`. */
  predicate Matches(b: Business, q: string): (r: bool)
    ensures r <==> exists i :: OccursAt(Lower(b.name) + Lower(b.description), Lower(q), i)
  {
    LowerAppend(b.name, b.description);
    Contains(Lower(b.name + b.description), Lower(q))
  }

  /** `filter(...)`: the matching entries, in input order. */
  function Filter(items: seq<Entry>, q: string): (r: seq<Entry>)
    ensures |r| <= |items|
    ensures forall i :: 0 <= i < |r| ==> Matches(r[i].record, q)
    decreases |items|
  {
    if items == [] then []
    else (if Matches(items[0].record, q) then [items[0]] else []) + Filter(items[1..], q)
  }

  /** Non-increasing by key. */
  ghost predicate SortedDesc(s: seq<Entry>) {
    forall i, j :: 0 <= i < j < |s| ==> Key(s[i]) >= Key(s[j])
  }

  /** The entries of `s` whose key is `c`, in the order of `s`. */
  function WithKey(s: seq<Entry>, c: int): seq<Entry>
    decreases |s|
  {
    if s == [] then [] else (if Key(s[0]) == c then [s[0]] else []) + WithKey(s[1..], c)
  }

  /** `t` keeps the relative order `s` gives to entries of equal key. */
  ghost predicate StableWrt(t: seq<Entry>, s: seq<Entry>) {
    forall c :: WithKey(t, c) == WithKey(s, c)
  }

  /** Insert `x` before the first entry whose key is not larger than its own. */
  function InsertDesc(x: Entry, s: seq<Entry>): (r: seq<Entry>)
    ensures multiset(r) == multiset{x} + multiset(s)
    decreases |s|
  {
    if s == [] || Key(s[0]) <= Key(x) then [x] + s
    else
      assert s == [s[0]] + s[1..];
      [s[0]] + InsertDesc(x, s[1..])
  }

  /** A stable sort by descending key; it permutes its input. */
  function SortDesc(s: seq<Entry>): (r: seq<Entry>)
    ensures multiset(r) == multiset(s)
    decreases |s|
  {
    if s == [] then []
    else
      assert s == [s[0]] + s[1..];
      InsertDesc(s[0], SortDesc(s[1..]))
  }

  /**
   * `filter_and_sort_businesses(q, 'category')` over the given items: exactly
   * the matching entries, each as often as in the input, ordered by descending
   * category, and the entries of each category in input order.
   */
  function FilterAndSort(items: seq<Entry>, q: string): (r: seq<Entry>)
    ensures forall i :: 0 <= i < |r| ==> Matches(r[i].record, q)
    ensures forall e :: multiset(r)[e] == if Matches(e.record, q) then multiset(items)[e] else 0
    ensures SortedDesc(r)
    ensures forall c :: WithKey(r, c) == Filter(WithKey(items, c), q)
  {
    var f := Filter(items, q);
    SortDescCorrect(f);
    FilterCount(items, q);
    FilterKeepsOrder(items, q);
    SortedMembersMatch(f, q);
    SortDesc(f)
  }

  // ---------------------------------------------------------------------------
  // The filter

  lemma WithKeyCons(x: Entry, s: seq<Entry>, c: int)
    ensures WithKey([x] + s, c) == (if Key(x) == c then [x] else []) + WithKey(s, c)
  {
    assert ([x] + s)[1..] == s;
  }

  lemma FilterCons(x: Entry, s: seq<Entry>, q: string)
    ensures Filter([x] + s, q) == (if Matches(x.record, q) then [x] else []) + Filter(s, q)
  {
    assert ([x] + s)[1..] == s;
  }

  /** The filter keeps every matching entry as often as it occurs, and nothing else. */
  lemma {:induction false} FilterCount(items: seq<Entry>, q: string)
    ensures forall e :: multiset(Filter(items, q))[e] == if Matches(e.record, q) then multiset(items)[e] else 0
    decreases |items|
  {
    if items != [] {
      FilterCount(items[1..], q);
      assert items == [items[0]] + items[1..];
    }
  }

  /** An empty query matches every record. */
  lemma EmptyQueryMatches(b: Business)
    ensures Matches(b, "")
  {
    ContainsEmpty(Lower(b.name + b.description));
  }

  /** The query is case-insensitive: lower-casing it first changes nothing. */
  lemma MatchesIgnoresQueryCase(b: Business, q: string)
    ensures Matches(b, q) == Matches(b, Lower(q))
  {
    LowerIdempotent(q);
  }

  /** With the empty query the filter is the identity. */
  lemma {:induction false} FilterEmptyQuery(items: seq<Entry>)
    ensures Filter(items, "") == items
    decreases |items|
  {
    if items != [] {
      EmptyQueryMatches(items[0].record);
      FilterEmptyQuery(items[1..]);
    }
  }

  // ---------------------------------------------------------------------------
  // The sort

  lemma {:induction false} InsertDescSorted(x: Entry, s: seq<Entry>)
    requires SortedDesc(s)
    ensures SortedDesc(InsertDesc(x, s))
    decreases |s|
  {
    if s != [] && Key(s[0]) > Key(x) {
      var rest := InsertDesc(x, s[1..]);
      InsertDescSorted(x, s[1..]);
      forall j | 0 <= j < |rest| ensures Key(s[0]) >= Key(rest[j]) {
        assert rest[j] in multiset(rest);
        if rest[j] != x {
          assert rest[j] in multiset(s[1..]);
          var k :| 0 <= k < |s[1..]| && s[1..][k] == rest[j];
          assert s[k + 1] == rest[j];
        }
      }
      var r := InsertDesc(x, s);
      assert r == [s[0]] + rest;
      forall i, j | 0 <= i < j < |r| ensures Key(r[i]) >= Key(r[j]) {
        if i == 0 {
          assert r[j] == rest[j - 1];
        } else {
          assert r[i] == rest[i - 1] && r[j] == rest[j - 1];
        }
      }
    } else if s != [] {
      var r := InsertDesc(x, s);
      forall i, j | 0 <= i < j < |r| ensures Key(r[i]) >= Key(r[j]) {
        if i > 0 {
          assert r[i] == s[i - 1];
        }
        assert r[j] == s[j - 1];
      }
    }
  }

  /** Entries skipped over by the insertion have a larger key, so `x` lands after none of its equals. */
  lemma {:induction false} InsertDescStable(x: Entry, s: seq<Entry>, c: int)
    ensures WithKey(InsertDesc(x, s), c) == (if Key(x) == c then [x] else []) + WithKey(s, c)
    decreases |s|
  {
    if s == [] || Key(s[0]) <= Key(x) {
      WithKeyCons(x, s, c);
    } else {
      InsertDescStable(x, s[1..], c);
      WithKeyCons(s[0], InsertDesc(x, s[1..]), c);
      WithKeyCons(s[0], s[1..], c);
      assert [s[0]] + s[1..] == s;
    }
  }

  lemma {:induction false} SortDescSorted(s: seq<Entry>)
    ensures SortedDesc(SortDesc(s))
    decreases |s|
  {
    if s != [] {
      SortDescSorted(s[1..]);
      InsertDescSorted(s[0], SortDesc(s[1..]));
    }
  }

  lemma {:induction false} SortDescStable(s: seq<Entry>, c: int)
    ensures WithKey(SortDesc(s), c) == WithKey(s, c)
    decreases |s|
  {
    if s != [] {
      var t := SortDesc(s[1..]);
      SortDescStable(s[1..], c);
      assert SortDesc(s) == InsertDesc(s[0], t);
      InsertDescStable(s[0], t, c);
      assert WithKey(s, c) == (if Key(s[0]) == c then [s[0]] else []) + WithKey(s[1..], c);
    }
  }

  /** The sort returns a permutation of its input, ordered by descending key, stable on ties. */
  lemma SortDescCorrect(s: seq<Entry>)
    ensures multiset(SortDesc(s)) == multiset(s)
    ensures SortedDesc(SortDesc(s))
    ensures StableWrt(SortDesc(s), s)
  {
    SortDescSorted(s);
    forall c ensures WithKey(SortDesc(s), c) == WithKey(s, c) {
      SortDescStable(s, c);
    }
  }

  lemma {:induction false} WithKeyHasAll(s: seq<Entry>, i: nat)
    requires i < |s|
    ensures s[i] in WithKey(s, Key(s[i]))
    decreases |s|
  {
    WithKeyCons(s[0], s[1..], Key(s[i]));
    assert s == [s[0]] + s[1..];
    if i > 0 {
      WithKeyHasAll(s[1..], i - 1);
    }
  }

  lemma {:induction false} WithKeyOnlyKey(s: seq<Entry>, c: int, e: Entry)
    requires e in WithKey(s, c)
    ensures e in s && Key(e) == c
    decreases |s|
  {
    WithKeyCons(s[0], s[1..], c);
    assert s == [s[0]] + s[1..];
    if e != s[0] || Key(s[0]) != c {
      WithKeyOnlyKey(s[1..], c, e);
    }
  }

  /**
   * A sequence ordered by descending key and stable with respect to `s` is the
   * sort of `s`: any stable descending sort, Python's included, returns exactly
   * what SortDesc returns.
   */
  lemma {:induction false} SortDescUnique(s: seq<Entry>, t: seq<Entry>)
    requires SortedDesc(t) && StableWrt(t, s)
    ensures t == SortDesc(s)
  {
    SortDescCorrect(s);
    SortedStableUnique(t, SortDesc(s));
  }

  lemma {:induction false} SortedStableUnique(t1: seq<Entry>, t2: seq<Entry>)
    requires SortedDesc(t1) && SortedDesc(t2)
    requires forall c :: WithKey(t1, c) == WithKey(t2, c)
    ensures t1 == t2
    decreases |t1|
  {
    if t1 == [] || t2 == [] {
      NonemptyTogether(t1, t2);
    } else {
      SameHead(t1, t2);
      SameTailKeys(t1, t2);
      SortedStableUnique(t1[1..], t2[1..]);
      assert t1 == [t1[0]] + t1[1..] && t2 == [t2[0]] + t2[1..];
    }
  }

  /** The first entry of a descending sequence carries its largest key. */
  lemma FirstKeyIsMax(t: seq<Entry>, e: Entry)
    requires SortedDesc(t) && e in t
    ensures Key(t[0]) >= Key(e)
  {
    var i :| 0 <= i < |t| && t[i] == e;
    if i > 0 {
      assert Key(t[0]) >= Key(t[i]);
    }
  }

  lemma SameHead(t1: seq<Entry>, t2: seq<Entry>)
    requires t1 != [] && t2 != []
    requires SortedDesc(t1) && SortedDesc(t2)
    requires forall c :: WithKey(t1, c) == WithKey(t2, c)
    ensures t1[0] == t2[0]
  {
    var c1, c2 := Key(t1[0]), Key(t2[0]);
    WithKeyHasAll(t1, 0);
    assert t1[0] in WithKey(t2, c1);
    WithKeyOnlyKey(t2, c1, t1[0]);
    WithKeyHasAll(t2, 0);
    assert t2[0] in WithKey(t1, c2);
    WithKeyOnlyKey(t1, c2, t2[0]);
    FirstKeyIsMax(t2, t1[0]);
    FirstKeyIsMax(t1, t2[0]);
    assert c1 == c2;
    WithKeyCons(t1[0], t1[1..], c1);
    WithKeyCons(t2[0], t2[1..], c1);
    assert t1 == [t1[0]] + t1[1..] && t2 == [t2[0]] + t2[1..];
    assert WithKey(t1, c1)[0] == t1[0];
    assert WithKey(t2, c1)[0] == t2[0];
  }

  /** Two sequences with the same entries of every key are empty together. */
  lemma NonemptyTogether(t1: seq<Entry>, t2: seq<Entry>)
    requires forall c :: WithKey(t1, c) == WithKey(t2, c)
    ensures t1 == [] <==> t2 == []
  {
    if t1 != [] {
      WithKeyHasAll(t1, 0);
      assert WithKey(t2, Key(t1[0])) != [];
    }
    if t2 != [] {
      WithKeyHasAll(t2, 0);
      assert WithKey(t1, Key(t2[0])) != [];
    }
  }

  lemma SameTailKeys(t1: seq<Entry>, t2: seq<Entry>)
    requires t1 != [] && t2 != [] && t1[0] == t2[0]
    requires forall c :: WithKey(t1, c) == WithKey(t2, c)
    ensures forall c :: WithKey(t1[1..], c) == WithKey(t2[1..], c)
  {
    forall c ensures WithKey(t1[1..], c) == WithKey(t2[1..], c) {
      SameTailKey(t1, t2, c);
    }
  }

  lemma SameTailKey(t1: seq<Entry>, t2: seq<Entry>, c: int)
    requires t1 != [] && t2 != [] && t1[0] == t2[0]
    requires WithKey(t1, c) == WithKey(t2, c)
    ensures WithKey(t1[1..], c) == WithKey(t2[1..], c)
  {
    var w1, w2 := WithKey(t1[1..], c), WithKey(t2[1..], c);
    if Key(t1[0]) == c {
      assert WithKey(t1, c) == [t1[0]] + w1;
      assert WithKey(t2, c) == [t1[0]] + w2;
      assert w1 == WithKey(t1, c)[1..];
    } else {
      assert WithKey(t1, c) == w1;
    }
  }

  // ---------------------------------------------------------------------------
  // The query

  /** Sorting the matches yields only matches. */
  lemma SortedMembersMatch(f: seq<Entry>, q: string)
    requires forall i :: 0 <= i < |f| ==> Matches(f[i].record, q)
    ensures forall i :: 0 <= i < |SortDesc(f)| ==> Matches(SortDesc(f)[i].record, q)
  {
    forall i | 0 <= i < |SortDesc(f)| ensures Matches(SortDesc(f)[i].record, q) {
      assert SortDesc(f)[i] in multiset(f);
    }
  }

  /** The filter keeps input order: its entries of each category are the matching ones, in input order. */
  lemma {:induction false} FilterKeepsOrderAt(items: seq<Entry>, q: string, c: int)
    ensures WithKey(Filter(items, q), c) == Filter(WithKey(items, c), q)
    decreases |items|
  {
    if items != [] {
      var x, rest := items[0], items[1..];
      assert items == [x] + rest;
      FilterKeepsOrderAt(rest, q, c);
      FilterCons(x, rest, q);
      WithKeyCons(x, rest, c);
      if Matches(x.record, q) {
        WithKeyCons(x, Filter(rest, q), c);
      } else {
        assert Filter(items, q) == Filter(rest, q);
      }
      if Key(x) == c {
        FilterCons(x, WithKey(rest, c), q);
      } else {
        assert WithKey(items, c) == WithKey(rest, c);
      }
    }
  }

  lemma FilterKeepsOrder(items: seq<Entry>, q: string)
    ensures forall c :: WithKey(Filter(items, q), c) == Filter(WithKey(items, c), q)
  {
    forall c ensures WithKey(Filter(items, q), c) == Filter(WithKey(items, c), q) {
      FilterKeepsOrderAt(items, q, c);
    }
  }

  /** No other order is possible: the result is the one stable descending sort of the matches. */
  lemma FilterAndSortDetermined(items: seq<Entry>, q: string, t: seq<Entry>)
    requires SortedDesc(t)
    requires forall c :: WithKey(t, c) == Filter(WithKey(items, c), q)
    ensures t == FilterAndSort(items, q)
  {
    FilterKeepsOrder(items, q);
    SortDescUnique(Filter(items, q), t);
  }

  /** An empty query returns every entry, sorted. */
  lemma EmptyQueryReturnsAll(items: seq<Entry>)
    ensures FilterAndSort(items, "") == SortDesc(items)
    ensures multiset(FilterAndSort(items, "")) == multiset(items)
  {
    FilterEmptyQuery(items);
    SortDescCorrect(items);
  }
}
