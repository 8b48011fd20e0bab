/**
  The sort policy of the tab list (src/page.js, `loadTabs`). When sorting is
  asked for, the snapshot goes through `Array.prototype.sort` with the
  comparator `(a, b) => (a.k > b.k) ? 1 : -1` on the URL and then on the
  title. That comparator answers -1 for equal keys in both argument orders,
  so it is not a consistent comparator in the sense of section 23.1.3.30 of
  ECMA-262, and for such a comparator the standard leaves the whole sort
  order implementation-defined. The model assumes what insertion and merge
  sorts driven by this comparator deliver: a permutation that is
  non-decreasing by the key, with tabs of equal keys in any order. `SortBy`
  is one such order (an insertion sort driven by the same comparator), and
  `ConformingSortsAgreeOnKeys` shows that every other order meeting the
  assumption differs from it only among tabs with equal keys.
 */
module SortPolicy {
  import opened JsText
  import opened Tabs
  import opened Wrappers

  datatype SortKey = ByUrl | ByTitle

  /** The popup's `settings` object; a missing flag reads as false. */
  datatype Settings = Settings(sortByUrl: bool, sortByTitle: bool)

  function KeyOf(t: Tab, key: SortKey): JsString
  {
    match key
    case ByUrl => t.url
    case ByTitle => t.title
  }

  /** The comparator passed to `sort`: 1 when `a`'s key is greater, otherwise -1. */
  function Compare(a: Tab, b: Tab, key: SortKey): int
  {
    if Greater(KeyOf(a, key), KeyOf(b, key)) then 1 else -1
  }

  /** Ascending by `key`: no tab's key exceeds that of a tab after it. */
  ghost predicate SortedBy(s: seq<Tab>, key: SortKey)
  {
    forall i, j :: 0 <= i < j < |s| ==> AtMost(KeyOf(s[i], key), KeyOf(s[j], key))
  }

  /** What an engine whose sort respects the comparator on distinct keys returns for `input`. */
  ghost predicate ConformingSort(input: seq<Tab>, output: seq<Tab>, key: SortKey)
  {
    multiset(output) == multiset(input) && SortedBy(output, key)
  }

  /** Equal keys compare as -1 in both orders: the comparator is inconsistent on ties. */
  lemma CompareInconsistentOnTies(a: Tab, b: Tab, key: SortKey)
    requires KeyOf(a, key) == KeyOf(b, key)
    ensures Compare(a, b, key) == -1 && Compare(b, a, key) == -1
  {
    LessIrreflexive(KeyOf(a, key));
  }

  /** On distinct keys the comparator is antisymmetric, as a consistent comparator must be. */
  lemma CompareAntisymmetricOnDistinctKeys(a: Tab, b: Tab, key: SortKey)
    requires KeyOf(a, key) != KeyOf(b, key)
    ensures Compare(a, b, key) == -Compare(b, a, key)
    ensures Compare(a, b, key) == 1 <==> Less(KeyOf(b, key), KeyOf(a, key))
  {
    LessTrichotomy(KeyOf(a, key), KeyOf(b, key));
    if Less(KeyOf(a, key), KeyOf(b, key)) {
      LessAsymmetric(KeyOf(a, key), KeyOf(b, key));
    }
  }

  /** Inserts `t` before the first tab that the comparator does not put below it. */
  function Insert(t: Tab, s: seq<Tab>, key: SortKey): (r: seq<Tab>)
    ensures multiset(r) == multiset(s) + multiset{t}
  {
    if s == [] then [t]
    else if Compare(t, s[0], key) > 0 then
      assert s == [s[0]] + s[1..];
      [s[0]] + Insert(t, s[1..], key)
    else [t] + s
  }

  lemma {:induction false} InsertKeepsSorted(t: Tab, s: seq<Tab>, key: SortKey)
    requires SortedBy(s, key)
    ensures SortedBy(Insert(t, s, key), key)
  {
    if s != [] {
      if Compare(t, s[0], key) > 0 {
        InsertKeepsSorted(t, s[1..], key);
        HeadBelowInsert(t, s, key);
      } else {
        forall j | 0 < j < |s|
          ensures AtMost(KeyOf(t, key), KeyOf(s[j], key))
        {
          AtMostTransitive(KeyOf(t, key), KeyOf(s[0], key), KeyOf(s[j], key));
        }
      }
    }
  }

  /** When `t` goes past the head, the head is at most every tab `t` is inserted among. */
  lemma HeadBelowInsert(t: Tab, s: seq<Tab>, key: SortKey)
    requires s != [] && SortedBy(s, key) && Compare(t, s[0], key) > 0
    ensures forall x :: x in Insert(t, s[1..], key) ==> AtMost(KeyOf(s[0], key), KeyOf(x, key))
  {
    var rest := Insert(t, s[1..], key);
    forall x | x in rest
      ensures AtMost(KeyOf(s[0], key), KeyOf(x, key))
    {
      assert x in multiset(rest);
      if x == t {
        LessAsymmetric(KeyOf(s[0], key), KeyOf(t, key));
      } else {
        assert x in multiset(s[1..]);
        var m :| 0 <= m < |s[1..]| && s[1..][m] == x;
        assert s[m + 1] == x;
      }
    }
  }

  /** Insertion sort with the source's comparator: one order the engine may produce. */
  function SortBy(s: seq<Tab>, key: SortKey): (r: seq<Tab>)
    ensures ConformingSort(s, r, key)
  {
    if s == [] then []
    else
      var rest := SortBy(s[1..], key);
      InsertKeepsSorted(s[0], rest, key);
      assert s == [s[0]] + s[1..];
      Insert(s[0], rest, key)
  }

  /**
    The order `loadTabs` renders: the snapshot as the provider gave it when
    no settings are passed or no flag is set; otherwise sorted by URL if
    `sortByUrl` and then by title if `sortByTitle`.
   */
  function Order(tabs: seq<Tab>, settings: Option<Settings>): (r: seq<Tab>)
    ensures multiset(r) == multiset(tabs)
    ensures settings.None? ==> r == tabs
    ensures settings.Some? && !settings.value.sortByUrl && !settings.value.sortByTitle ==> r == tabs
    ensures settings.Some? && settings.value.sortByTitle ==> SortedBy(r, ByTitle)
    ensures settings.Some? && settings.value.sortByUrl && !settings.value.sortByTitle ==> SortedBy(r, ByUrl)
  {
    match settings
    case None => tabs
    case Some(s) =>
      var byUrl := if s.sortByUrl then SortBy(tabs, ByUrl) else tabs;
      if s.sortByTitle then SortBy(byUrl, ByTitle) else byUrl
  }

  /** Sorting does not change which identifiers are present. */
  lemma OrderKeepsIds(tabs: seq<Tab>, settings: Option<Settings>)
    ensures IdSet(Order(tabs, settings)) == IdSet(tabs)
  {
    var r := Order(tabs, settings);
    forall x | x in IdSet(tabs) ensures x in IdSet(r) {
      var t :| t in tabs && t.id == x;
      assert t in multiset(tabs);
    }
    forall x | x in IdSet(r) ensures x in IdSet(tabs) {
      var t :| t in r && t.id == x;
      assert t in multiset(r);
    }
  }

  /** Dropping one element of a sorted sequence leaves it sorted. */
  lemma SortedWithout(s: seq<Tab>, j: int, key: SortKey)
    requires 0 <= j < |s| && SortedBy(s, key)
    ensures SortedBy(s[..j] + s[j + 1..], key)
  {
    var d := s[..j] + s[j + 1..];
    forall p, q | 0 <= p < q < |d|
      ensures AtMost(KeyOf(d[p], key), KeyOf(d[q], key))
    {
      var p' := if p < j then p else p + 1;
      var q' := if q < j then q else q + 1;
      assert d[p] == s[p'] && d[q] == s[q'];
    }
  }

  /** Between two tabs of a sorted sequence with the same key, every key is that key. */
  lemma SortedPlateau(s: seq<Tab>, lo: int, hi: int, key: SortKey)
    requires SortedBy(s, key) && 0 <= lo <= hi < |s|
    requires KeyOf(s[lo], key) == KeyOf(s[hi], key)
    ensures forall i :: lo <= i <= hi ==> KeyOf(s[i], key) == KeyOf(s[lo], key)
  {
    forall i | lo < i < hi
      ensures KeyOf(s[i], key) == KeyOf(s[lo], key)
    {
      assert AtMost(KeyOf(s[lo], key), KeyOf(s[i], key));
      assert AtMost(KeyOf(s[i], key), KeyOf(s[hi], key));
      AtMostAntisymmetric(KeyOf(s[i], key), KeyOf(s[lo], key));
    }
  }

  /** Two sorted permutations of each other start with the same key. */
  lemma FirstKeysAgree(a: seq<Tab>, b: seq<Tab>, key: SortKey)
    requires a != [] && b != [] && multiset(a) == multiset(b)
    requires SortedBy(a, key) && SortedBy(b, key)
    ensures KeyOf(a[0], key) == KeyOf(b[0], key)
  {
    assert a[0] in multiset(b);
    var j :| 0 <= j < |b| && b[j] == a[0];
    assert b[0] in multiset(a);
    var m :| 0 <= m < |a| && a[m] == b[0];
    LessIrreflexive(KeyOf(a[0], key));
    LessIrreflexive(KeyOf(b[0], key));
    assert AtMost(KeyOf(a[0], key), KeyOf(a[m], key));
    assert AtMost(KeyOf(b[0], key), KeyOf(b[j], key));
    AtMostAntisymmetric(KeyOf(a[0], key), KeyOf(b[0], key));
  }

  /**
    Two conforming sorts of the same input have the same sequence of keys:
    whatever order the engine picks, it differs from `SortBy` only among tabs
    whose keys are equal.
   */
  lemma {:induction false} ConformingSortsAgreeOnKeys(input: seq<Tab>, a: seq<Tab>, b: seq<Tab>, key: SortKey)
    requires ConformingSort(input, a, key) && ConformingSort(input, b, key)
    ensures |a| == |b|
    ensures forall i :: 0 <= i < |a| ==> KeyOf(a[i], key) == KeyOf(b[i], key)
    decreases |a|
  {
    assert |a| == |multiset(a)| == |multiset(b)| == |b|;
    if a != [] {
      FirstKeysAgree(a, b, key);
      assert a[0] in multiset(b);
      var j :| 0 <= j < |b| && b[j] == a[0];
      SortedPlateau(b, 0, j, key);
      // Take `a[0]` out of both: what is left are two sorted permutations again.
      var b' := b[..j] + b[j + 1..];
      SortedWithout(b, j, key);
      RemoveAt(a, b, j);
      ConformingSortsAgreeOnKeys(a[1..], a[1..], b', key);
      forall i | 0 < i < |a|
        ensures KeyOf(a[i], key) == KeyOf(b[i], key)
      {
        assert a[i] == a[1..][i - 1];
        if i <= j {
          assert b'[i - 1] == b[i - 1];
        } else {
          assert b'[i - 1] == b[i];
        }
      }
    }
  }

  /** Removing the head of `a` from `b` at the place it occurs keeps the multisets equal. */
  lemma RemoveAt(a: seq<Tab>, b: seq<Tab>, j: int)
    requires a != [] && 0 <= j < |b| && b[j] == a[0] && multiset(a) == multiset(b)
    ensures multiset(b[..j] + b[j + 1..]) == multiset(a[1..])
  {
    var rest := b[..j] + b[j + 1..];
    assert b == b[..j] + [b[j]] + b[j + 1..];
    assert multiset(b) == multiset(rest) + multiset{a[0]};
    assert a == [a[0]] + a[1..];
    assert multiset(a) == multiset(a[1..]) + multiset{a[0]};
    assert multiset(rest) == multiset(b) - multiset{a[0]};
    assert multiset(a[1..]) == multiset(a) - multiset{a[0]};
  }
}
