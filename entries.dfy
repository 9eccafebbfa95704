/**
 * Catalog entries and the two list operations the catalog builder applies to
 * them once the walk over metapackages is over: keeping the first entry seen
 * for each application name, and sorting by lower-cased application name.
 */
module Entries {
  import opened Text

  /** One catalog record: the application (package) name, its short category, its description. */
  datatype Entry = Entry(app: string, pack: string, desc: string)

  /** Some entry carries application name `app`. */
  predicate HasApp(entries: seq<Entry>, app: string) {
    exists i :: 0 <= i < |entries| && entries[i].app == app
  }

  /** No two positions carry the same application name. */
  predicate UniqueApps(entries: seq<Entry>) {
    forall i, j :: 0 <= i < |entries| && 0 <= j < |entries| && i != j ==> entries[i].app != entries[j].app
  }

  /** `i` is the first position of `s` with the application name of `s[i]`. */
  predicate FirstOfApp(s: seq<Entry>, i: int)
    requires 0 <= i < |s|
  {
    forall j :: 0 <= j < i ==> s[j].app != s[i].app
  }

  // ---------------------------------------------------------------------
  // First seen wins
  // ---------------------------------------------------------------------

  /** Entries appended one by one, each only when no kept entry has its application name. */
  function Dedup(s: seq<Entry>): seq<Entry>
  {
    if s == [] then []
    else
      var kept := Dedup(s[..|s| - 1]);
      var e := s[|s| - 1];
      if HasApp(kept, e.app) then kept else kept + [e]
  }

  /** Appending `e` adds exactly its name. */
  lemma HasAppSnoc(s: seq<Entry>, e: Entry, app: string)
    ensures HasApp(s + [e], app) <==> HasApp(s, app) || e.app == app
  {
    var r := s + [e];
    if HasApp(r, app) {
      var i :| 0 <= i < |r| && r[i].app == app;
      if i < |s| {
        assert s[i] == r[i];
      }
    }
    if HasApp(s, app) {
      var i :| 0 <= i < |s| && s[i].app == app;
      assert r[i] == s[i];
    }
    assert r[|s|] == e;
  }

  /** Appending an entry whose name is new keeps names unique. */
  lemma UniqueSnoc(s: seq<Entry>, e: Entry)
    requires UniqueApps(s) && !HasApp(s, e.app)
    ensures UniqueApps(s + [e])
  {
    var r := s + [e];
    forall i, j | 0 <= i < |r| && 0 <= j < |r| && i != j
      ensures r[i].app != r[j].app
    {
      if i < |s| && j < |s| {
        assert r[i] == s[i] && r[j] == s[j];
      } else if i < |s| {
        assert r[i] == s[i];
      } else if j < |s| {
        assert r[j] == s[j];
      }
    }
  }

  /** `x` is the entry of `s` at the first position with its name. */
  predicate FirstEntry(s: seq<Entry>, x: Entry) {
    exists i :: 0 <= i < |s| && s[i] == x && FirstOfApp(s, i)
  }

  /** A first occurrence stays first when an entry is appended. */
  lemma FirstEntrySnoc(s: seq<Entry>, e: Entry, x: Entry)
    requires FirstEntry(s, x)
    ensures FirstEntry(s + [e], x)
  {
    var r := s + [e];
    var i :| 0 <= i < |s| && s[i] == x && FirstOfApp(s, i);
    forall j | 0 <= j < i ensures r[j].app != r[i].app {
      assert r[j] == s[j] && r[i] == s[i];
    }
    assert r[i] == x && FirstOfApp(r, i);
  }

  /** An appended entry whose name is new is the first with it. */
  lemma FirstEntryNew(s: seq<Entry>, e: Entry)
    requires !HasApp(s, e.app)
    ensures FirstEntry(s + [e], e)
  {
    var r := s + [e];
    forall j | 0 <= j < |s| ensures r[j].app != e.app {
      assert r[j] == s[j];
    }
    assert r[|s|] == e && FirstOfApp(r, |s|);
  }

  /** The kept list has the same names as the input. */
  lemma {:induction false} DedupNames(s: seq<Entry>)
    ensures forall app :: HasApp(Dedup(s), app) <==> HasApp(s, app)
  {
    if s != [] {
      var init, e := s[..|s| - 1], s[|s| - 1];
      DedupNames(init);
      assert s == init + [e];
      forall app ensures HasApp(Dedup(s), app) <==> HasApp(s, app) {
        HasAppSnoc(init, e, app);
        HasAppSnoc(Dedup(init), e, app);
      }
    }
  }

  /** No name is kept twice. */
  lemma {:induction false} DedupUnique(s: seq<Entry>)
    ensures UniqueApps(Dedup(s))
  {
    if s != [] {
      var init, e := s[..|s| - 1], s[|s| - 1];
      DedupUnique(init);
      if !HasApp(Dedup(init), e.app) {
        UniqueSnoc(Dedup(init), e);
      }
    }
  }

  /** Every kept entry is the first entry of the input with its name. */
  lemma {:induction false} DedupFirst(s: seq<Entry>)
    ensures forall k :: 0 <= k < |Dedup(s)| ==> FirstEntry(s, Dedup(s)[k])
  {
    if s != [] {
      var init, e := s[..|s| - 1], s[|s| - 1];
      DedupFirst(init);
      var kept := Dedup(init);
      assert s == init + [e];
      forall k | 0 <= k < |kept| ensures FirstEntry(s, kept[k]) {
        FirstEntrySnoc(init, e, kept[k]);
      }
      if !HasApp(kept, e.app) {
        DedupNames(init);
        FirstEntryNew(init, e);
        var r := kept + [e];
        forall k | 0 <= k < |r| ensures FirstEntry(s, r[k]) {
          if k < |kept| {
            assert r[k] == kept[k];
          }
        }
      }
    }
  }

  /** The kept list has unique names, the same names as the input, and keeps for each name its first entry. */
  lemma DedupSpec(s: seq<Entry>)
    ensures UniqueApps(Dedup(s))
    ensures forall app :: HasApp(Dedup(s), app) <==> HasApp(s, app)
    ensures forall k :: 0 <= k < |Dedup(s)| ==> FirstEntry(s, Dedup(s)[k])
  {
    DedupUnique(s);
    DedupNames(s);
    DedupFirst(s);
  }

  // ---------------------------------------------------------------------
  // Stable sort by lower-cased application name
  // ---------------------------------------------------------------------

  /** The sort key: the application name, lower-cased. */
  function Key(e: Entry): string {
    Lower(e.app)
  }

  predicate SortedByKey(s: seq<Entry>) {
    forall i, j :: 0 <= i < j < |s| ==> LexLe(Key(s[i]), Key(s[j]))
  }

  /** The entries of `s` whose key is `k`, in the order of `s`. */
  function KeyFilter(s: seq<Entry>, k: string): (r: seq<Entry>)
    ensures |r| <= |s|
  {
    if s == [] then []
    else KeyFilter(s[..|s| - 1], k) + (if Key(s[|s| - 1]) == k then [s[|s| - 1]] else [])
  }

  /** `e` placed into sorted `t` after every entry whose key is not greater than its own. */
  function Insert(t: seq<Entry>, e: Entry): seq<Entry>
  {
    if t == [] then [e]
    else if LexLe(Key(t[|t| - 1]), Key(e)) then t + [e]
    else Insert(t[..|t| - 1], e) + [t[|t| - 1]]
  }

  /** `list.sort(key=lambda x: x['app'].lower())`: a stable insertion sort. */
  function SortByKey(s: seq<Entry>): seq<Entry>
  {
    if s == [] then [] else Insert(SortByKey(s[..|s| - 1]), s[|s| - 1])
  }

  lemma LexLeReflexive(a: string)
    ensures LexLe(a, a)
  {
    LexLeTotal(a, a);
  }

  /** Insertion adds exactly `e`. */
  lemma {:induction false} InsertPerm(t: seq<Entry>, e: Entry)
    ensures multiset(Insert(t, e)) == multiset(t) + multiset{e}
    decreases |t|
  {
    if t != [] && !LexLe(Key(t[|t| - 1]), Key(e)) {
      InsertPerm(t[..|t| - 1], e);
      assert t == t[..|t| - 1] + [t[|t| - 1]];
    }
  }

  /** Insertion into a sorted list leaves it sorted. */
  lemma {:induction false} InsertSorted(t: seq<Entry>, e: Entry)
    requires SortedByKey(t)
    ensures SortedByKey(Insert(t, e))
    decreases |t|
  {
    if t != [] {
      var init, last := t[..|t| - 1], t[|t| - 1];
      var r := Insert(t, e);
      if LexLe(Key(last), Key(e)) {
        forall i, j | 0 <= i < j < |r| ensures LexLe(Key(r[i]), Key(r[j])) {
          if j == |t| && i < |t| - 1 {
            assert r[i] == t[i];
            LexLeTransitive(Key(t[i]), Key(last), Key(e));
          }
        }
      } else {
        InsertSorted(init, e);
        InsertPerm(init, e);
        var mid := Insert(init, e);
        assert r == mid + [last];
        forall i | 0 <= i < |mid| ensures LexLe(Key(mid[i]), Key(last)) {
          assert mid[i] in multiset(init) + multiset{e};
          if mid[i] == e {
            LexLeTotal(Key(e), Key(last));
          } else {
            var p :| 0 <= p < |init| && init[p] == mid[i];
            assert t[p] == init[p];
          }
        }
        forall i, j | 0 <= i < j < |r| ensures LexLe(Key(r[i]), Key(r[j])) {
          if j < |mid| {
            assert r[i] == mid[i] && r[j] == mid[j];
          } else {
            assert r[i] == mid[i];
          }
        }
      }
    }
  }

  /** Insertion appends `e` to the entries of its own key and changes no other key's entries. */
  lemma {:induction false} InsertFilter(t: seq<Entry>, e: Entry, k: string)
    ensures KeyFilter(Insert(t, e), k) == KeyFilter(t, k) + (if Key(e) == k then [e] else [])
    decreases |t|
  {
    if t == [] {
      KeyFilterSnoc([], e, k);
      assert [] + [e] == [e];
    } else {
      var init, last := t[..|t| - 1], t[|t| - 1];
      assert t == init + [last];
      if LexLe(Key(last), Key(e)) {
        assert Insert(t, e) == t + [e];
        KeyFilterSnoc(t, e, k);
      } else {
        InsertFilter(init, e, k);
        var mid := Insert(init, e);
        assert Insert(t, e) == mid + [last];
        KeyFilterSnoc(mid, last, k);
        KeyFilterSnoc(init, last, k);
        if Key(last) == k {
          if Key(e) == k {
            LexLeReflexive(k);
            assert false;
          }
          assert KeyFilter(mid, k) == KeyFilter(init, k);
        }
      }
    }
  }

  lemma {:induction false} SortByKeySpec(s: seq<Entry>)
    ensures SortedByKey(SortByKey(s))
    ensures multiset(SortByKey(s)) == multiset(s)
    ensures forall k :: KeyFilter(SortByKey(s), k) == KeyFilter(s, k)
  {
    if s != [] {
      var init := s[..|s| - 1];
      SortByKeySpec(init);
      InsertSorted(SortByKey(init), s[|s| - 1]);
      InsertPerm(SortByKey(init), s[|s| - 1]);
      forall k ensures KeyFilter(SortByKey(s), k) == KeyFilter(s, k) {
        InsertFilter(SortByKey(init), s[|s| - 1], k);
      }
      assert s == init + [s[|s| - 1]];
    }
  }

  lemma KeyFilterLast(s: seq<Entry>)
    requires s != []
    ensures KeyFilter(s, Key(s[|s| - 1])) != []
  {
  }

  lemma KeyFilterMember(s: seq<Entry>, k: string, x: Entry)
    requires x in KeyFilter(s, k)
    ensures x in s && Key(x) == k
  {
    if s != [] {
      var init := s[..|s| - 1];
      if x in KeyFilter(init, k) {
        KeyFilterMember(init, k, x);
        assert init <= s;
      }
    }
  }

  /**
   * A stable sort has one possible outcome: a list sorted by key that keeps,
   * for every key, the entries with that key in their original order, is
   * `SortByKey` of the original.
   */
  lemma StableSortUnique(s: seq<Entry>, t: seq<Entry>)
    requires SortedByKey(t)
    requires forall k :: KeyFilter(t, k) == KeyFilter(s, k)
    ensures t == SortByKey(s)
  {
    SortByKeySpec(s);
    SortedSameFiltersEqual(t, SortByKey(s));
  }

  /** Appending `e` adds it to the entries of its own key only. */
  lemma KeyFilterSnoc(s: seq<Entry>, e: Entry, k: string)
    ensures Key(e) == k ==> KeyFilter(s + [e], k) == KeyFilter(s, k) + [e]
    ensures Key(e) != k ==> KeyFilter(s + [e], k) == KeyFilter(s, k)
  {
    assert (s + [e])[..|s|] == s;
  }

  /** An entry of sorted `u` has a key at most the last key of `u`. */
  lemma LastKeyBound(u: seq<Entry>, a: Entry)
    requires SortedByKey(u) && a in u
    ensures LexLe(Key(a), Key(u[|u| - 1]))
  {
    var p :| 0 <= p < |u| && u[p] == a;
    if p == |u| - 1 {
      LexLeReflexive(Key(a));
    } else {
      assert LexLe(Key(u[p]), Key(u[|u| - 1]));
    }
  }

  /** When `u` holds the same entries with the key of `a` as `init + [a]`, it holds `a`. */
  lemma LastIn(init: seq<Entry>, a: Entry, u: seq<Entry>)
    requires KeyFilter(init + [a], Key(a)) == KeyFilter(u, Key(a))
    ensures a in u
  {
    KeyFilterSnoc(init, a, Key(a));
    var f := KeyFilter(u, Key(a));
    assert f[|f| - 1] == a;
    KeyFilterMember(u, Key(a), a);
  }

  /** Two lists that end alike after appending one element each were alike before. */
  lemma SnocEqual<T>(x: seq<T>, a: T, y: seq<T>, b: T)
    requires x + [a] == y + [b]
    ensures x == y && a == b
  {
    assert (x + [a])[..|x|] == x && (y + [b])[..|y|] == y;
    assert (x + [a])[|x|] == a && (y + [b])[|y|] == b;
  }

  /** Two lists ending in entries with the same key and holding the same per-key entries end alike and agree before. */
  lemma FiltersOfInit(t: seq<Entry>, a: Entry, u: seq<Entry>, b: Entry)
    requires Key(a) == Key(b)
    requires forall k :: KeyFilter(t + [a], k) == KeyFilter(u + [b], k)
    ensures a == b
    ensures forall k :: KeyFilter(t, k) == KeyFilter(u, k)
  {
    var K := Key(a);
    KeyFilterSnoc(t, a, K);
    KeyFilterSnoc(u, b, K);
    SnocEqual(KeyFilter(t, K), a, KeyFilter(u, K), b);
    forall k ensures KeyFilter(t, k) == KeyFilter(u, k) {
      KeyFilterSnoc(t, a, k);
      KeyFilterSnoc(u, b, k);
    }
  }

  /** Dropping the last entry keeps a list sorted. */
  lemma SortedInit(t: seq<Entry>)
    requires t != [] && SortedByKey(t)
    ensures SortedByKey(t[..|t| - 1])
  {
    var init := t[..|t| - 1];
    forall i, j | 0 <= i < j < |init| ensures LexLe(Key(init[i]), Key(init[j])) {
      assert init[i] == t[i] && init[j] == t[j];
    }
  }

  lemma {:induction false} SortedSameFiltersEqual(t: seq<Entry>, u: seq<Entry>)
    requires SortedByKey(t) && SortedByKey(u)
    requires forall k :: KeyFilter(t, k) == KeyFilter(u, k)
    ensures t == u
    decreases |t| + |u|
  {
    if t == [] && u != [] {
      KeyFilterLast(u);
      assert false;
    } else if t != [] && u == [] {
      KeyFilterLast(t);
      assert false;
    } else if t != [] {
      var t', a := t[..|t| - 1], t[|t| - 1];
      var u', b := u[..|u| - 1], u[|u| - 1];
      assert t == t' + [a] && u == u' + [b];
      LastIn(t', a, u);
      LastIn(u', b, t);
      LastKeyBound(u, a);
      LastKeyBound(t, b);
      LexLeAntisymmetric(Key(a), Key(b));
      FiltersOfInit(t', a, u', b);
      SortedInit(t);
      SortedInit(u);
      SortedSameFiltersEqual(t', u');
    }
  }

  /** Insertion of an entry whose name is new keeps names unique. */
  lemma {:induction false} InsertUniqueApps(t: seq<Entry>, e: Entry)
    requires UniqueApps(t) && !HasApp(t, e.app)
    ensures UniqueApps(Insert(t, e))
    decreases |t|
  {
    if t != [] {
      var init, last := t[..|t| - 1], t[|t| - 1];
      var r := Insert(t, e);
      if LexLe(Key(last), Key(e)) {
        forall i, j | 0 <= i < |r| && 0 <= j < |r| && i != j
          ensures r[i].app != r[j].app
        {
          if i < |t| && j < |t| {
            assert r[i] == t[i] && r[j] == t[j];
          } else if i < |t| {
            assert r[i] == t[i];
          } else if j < |t| {
            assert r[j] == t[j];
          }
        }
      } else {
        assert !HasApp(init, e.app) by {
          forall i | 0 <= i < |init| ensures init[i].app != e.app {
            assert init[i] == t[i];
          }
        }
        assert UniqueApps(init) by {
          forall i, j | 0 <= i < |init| && 0 <= j < |init| && i != j
            ensures init[i].app != init[j].app
          {
            assert init[i] == t[i] && init[j] == t[j];
          }
        }
        InsertUniqueApps(init, e);
        InsertPerm(init, e);
        var mid := Insert(init, e);
        assert r == mid + [last];
        forall i | 0 <= i < |mid| ensures mid[i].app != last.app {
          assert mid[i] in multiset(init) + multiset{e};
          if mid[i] != e {
            var p :| 0 <= p < |init| && init[p] == mid[i];
            assert t[p] == init[p];
          } else {
            assert t[|t| - 1] == last;
          }
        }
        forall i, j | 0 <= i < |r| && 0 <= j < |r| && i != j
          ensures r[i].app != r[j].app
        {
          if i < |mid| && j < |mid| {
            assert r[i] == mid[i] && r[j] == mid[j];
          } else if i < |mid| {
            assert r[i] == mid[i];
          } else if j < |mid| {
            assert r[j] == mid[j];
          }
        }
      }
    }
  }

  /** Sorting keeps application names unique. */
  lemma {:induction false} SortKeepsUniqueApps(s: seq<Entry>)
    requires UniqueApps(s)
    ensures UniqueApps(SortByKey(s))
  {
    if s != [] {
      var init, e := s[..|s| - 1], s[|s| - 1];
      assert UniqueApps(init) by {
        forall i, j | 0 <= i < |init| && 0 <= j < |init| && i != j
          ensures init[i].app != init[j].app
        {
          assert init[i] == s[i] && init[j] == s[j];
        }
      }
      SortKeepsUniqueApps(init);
      SortByKeySpec(init);
      var sorted := SortByKey(init);
      assert !HasApp(sorted, e.app) by {
        forall i | 0 <= i < |sorted| ensures sorted[i].app != e.app {
          assert sorted[i] in multiset(init);
          var p :| 0 <= p < |init| && init[p] == sorted[i];
          assert s[p] == init[p];
        }
      }
      InsertUniqueApps(sorted, e);
    }
  }
}
