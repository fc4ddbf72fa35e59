/**
  The list handling behind the helm chart search view: the provider-type
  and provider filter lists, the chart filter chain, the ordering by
  display name and the split into pages.
 */
module HelmSearch {
  import opened Wrappers
  import opened Strings
  import opened Sorting
  import opened ChartTypes

  /** `ITEMS_PER_PAGE`. */
  const ItemsPerPage: nat := 6

  // ---------------------------------------------------------------------
  // Filter lists

  /**
    One checkbox of the provider-type picker (`{type, enabled}`) or one chip
    of the provider picker (`{name, enabled}`); `key` is the type or name.
   */
  datatype Entry = Entry(key: string, enabled: bool)

  function KeyOf(e: Entry): string
  {
    e.key
  }

  /** `list.filter((entry) => entry.key !== key)`. */
  function Without(list: seq<Entry>, key: string): seq<Entry>
  {
    Keep(list, (e: Entry) => e.key != key)
  }

  /** The number of entries of `list` whose key is `key`. */
  function CountKey(list: seq<Entry>, key: string): nat
  {
    if |list| == 0 then 0
    else (if list[0].key == key then 1 else 0) + CountKey(list[1..], key)
  }

  /** An entry with key `key` is either enabled or not. */
  lemma {:induction false} CountKeyMultiset(list: seq<Entry>, key: string)
    ensures CountKey(list, key) == multiset(list)[Entry(key, true)] + multiset(list)[Entry(key, false)]
  {
    if |list| > 0 {
      CountKeyMultiset(list[1..], key);
      assert list == [list[0]] + list[1..];
    }
  }

  /** Removing the entries with key `key` shortens the list by their number. */
  lemma {:induction false} WithoutLength(list: seq<Entry>, key: string)
    ensures |Without(list, key)| == |list| - CountKey(list, key)
  {
    if |list| > 0 {
      WithoutLength(list[1..], key);
    }
  }

  /**
    A click on a provider-type checkbox or on a provider chip: drop every
    entry with the clicked key, append `{key, enabled: checked}` and sort the
    copy by key.
   */
  method Toggle(list: seq<Entry>, key: string, checked: bool) returns (updated: seq<Entry>)
    ensures forall i, j :: 0 <= i < j < |updated| ==> LessEq(updated[i].key, updated[j].key)
    ensures multiset(updated) == multiset(Without(list, key)) + multiset{Entry(key, checked)}
    ensures Entry(key, checked) in updated && CountKey(updated, key) == 1
    ensures forall e :: e in updated && e.key == key ==> e.enabled == checked
    ensures forall e: Entry :: e.key != key ==> multiset(updated)[e] == multiset(list)[e]
    ensures |updated| == |list| - CountKey(list, key) + 1
  {
    var pushed := Without(list, key) + [Entry(key, checked)];
    updated := SortedCopy(pushed, KeyOf);
    assert forall i, j :: 0 <= i < j < |updated| ==> LessEq(KeyOf(updated[i]), KeyOf(updated[j]));
    assert multiset(updated) == multiset(Without(list, key)) + multiset{Entry(key, checked)};
    assert Entry(key, checked) in multiset(updated);
    CountKeyMultiset(updated, key);
    WithoutLength(list, key);
    assert |updated| == |multiset(updated)|;
  }

  /**
    The entries the pickers start from, one per key and in the order the keys
    arrive, all with the same `enabled` value.
   */
  method InitEntries(keys: seq<string>, enabled: bool) returns (entries: seq<Entry>)
    ensures |entries| == |keys|
    ensures forall i :: 0 <= i < |keys| ==> entries[i] == Entry(keys[i], enabled)
  {
    entries := [];
    for i := 0 to |keys|
      invariant |entries| == i
      invariant forall j :: 0 <= j < i ==> entries[j] == Entry(keys[j], enabled)
    {
      entries := entries + [Entry(keys[i], enabled)];
    }
  }

  /** `list.filter((entry) => entry.enabled).map((entry) => entry.key)`. */
  function ActiveKeys(list: seq<Entry>): (r: seq<string>)
    ensures |r| <= |list|
    ensures forall k :: k in r <==> Entry(k, true) in list
  {
    if |list| == 0 then []
    else
      assert list == [list[0]] + list[1..];
      (if list[0].enabled then [list[0].key] else []) + ActiveKeys(list[1..])
  }

  /** Provider types start enabled, so every incoming type is active. */
  lemma {:induction false} InitialTypesAllActive(types: seq<string>, entries: seq<Entry>)
    requires |entries| == |types|
    requires forall i :: 0 <= i < |types| ==> entries[i] == Entry(types[i], true)
    ensures ActiveKeys(entries) == types
  {
    if |types| > 0 {
      InitialTypesAllActive(types[1..], entries[1..]);
    }
  }

  /** A list with no enabled entry has no active key. */
  lemma {:induction false} NoneEnabledNoneActive(list: seq<Entry>)
    requires forall i :: 0 <= i < |list| ==> !list[i].enabled
    ensures ActiveKeys(list) == []
  {
    if |list| > 0 {
      NoneEnabledNoneActive(list[1..]);
    }
  }

  /** Providers start disabled, so no provider is selected. */
  lemma InitialProvidersNoneActive(providers: seq<string>, entries: seq<Entry>)
    requires |entries| == |providers|
    requires forall i :: 0 <= i < |providers| ==> entries[i] == Entry(providers[i], false)
    ensures ActiveKeys(entries) == []
  {
    NoneEnabledNoneActive(entries);
  }

  // ---------------------------------------------------------------------
  // The chart filter chain

  /** The chart's provider type is one of the enabled ones. */
  predicate HasActiveProviderType(c: Chart, activeProviderTypes: seq<string>)
  {
    var t := Annotation(c.latest, ProviderTypeAnnotation);
    t.Some? && t.value in activeProviderTypes
  }

  /** `isToBeIncluded`: no provider is selected, or the chart's provider is. */
  predicate IsToBeIncluded(c: Chart, supportProviders: seq<string>)
  {
    var p := Annotation(c.latest, ProviderAnnotation);
    |supportProviders| == 0 || (p.Some? && p.value in supportProviders)
  }

  /** One search term occurs in the lower-cased display name, chart name or description. */
  predicate TermMatches(c: Chart, term: string)
  {
    Contains(Lower(c.displayName), term) ||
    Contains(Lower(c.latest.name), term) ||
    (c.latest.description.Some? && Contains(Lower(c.latest.description.value), term))
  }

  /** Every white-space separated term of the search text matches the chart. */
  predicate MatchesSearch(c: Chart, searchText: string)
  {
    var terms := SplitWhitespace(searchText);
    forall k :: 0 <= k < |terms| ==> TermMatches(c, terms[k])
  }

  /** The three filters together. */
  predicate Passes(c: Chart, activeProviderTypes: seq<string>, activeProviders: seq<string>, searchText: string)
  {
    HasActiveProviderType(c, activeProviderTypes) &&
    IsToBeIncluded(c, activeProviders) &&
    MatchesSearch(c, searchText)
  }

  function ByProviderType(charts: seq<Chart>, activeProviderTypes: seq<string>): seq<Chart>
  {
    Keep(charts, (c: Chart) => HasActiveProviderType(c, activeProviderTypes))
  }

  function ByProvider(charts: seq<Chart>, activeProviders: seq<string>): seq<Chart>
  {
    Keep(charts, (c: Chart) => IsToBeIncluded(c, activeProviders))
  }

  function BySearch(charts: seq<Chart>, searchText: string): seq<Chart>
  {
    Keep(charts, (c: Chart) => MatchesSearch(c, searchText))
  }

  /** The filter chain of `getFilteredCharts`, before sorting. */
  function FilterCharts(charts: seq<Chart>, activeProviderTypes: seq<string>, activeProviders: seq<string>, searchText: string): (r: seq<Chart>)
    ensures forall c :: multiset(r)[c] ==
                        if Passes(c, activeProviderTypes, activeProviders, searchText) then multiset(charts)[c] else 0
  {
    BySearch(ByProvider(ByProviderType(charts, activeProviderTypes), activeProviders), searchText)
  }

  function DisplayNameOf(c: Chart): string
  {
    c.displayName
  }

  /** `ascName`: `localeCompare` of the display names. */
  function AscName(x: Chart, y: Chart): (r: int)
    ensures r <= 0 <==> LessEq(x.displayName, y.displayName)
    ensures r == 0 <==> x.displayName == y.displayName
  {
    Compare(x.displayName, y.displayName)
  }

  /**
    `getFilteredCharts`: the charts that pass the three filters, copied into
    a fresh array and sorted by display name.
   */
  method GetFilteredCharts(helmCharts: seq<Chart>, activeProviderTypes: seq<string>, activeProviders: seq<string>, searchText: string)
    returns (r: seq<Chart>)
    ensures forall i, j :: 0 <= i < j < |r| ==> AscName(r[i], r[j]) <= 0
    ensures forall c :: multiset(r)[c] ==
                        if Passes(c, activeProviderTypes, activeProviders, searchText) then multiset(helmCharts)[c] else 0
    ensures multiset(r) <= multiset(helmCharts)
    ensures forall c :: c in r ==> c in helmCharts && Passes(c, activeProviderTypes, activeProviders, searchText)
  {
    var helmResponse := FilterCharts(helmCharts, activeProviderTypes, activeProviders, searchText);
    r := SortedCopy(helmResponse, DisplayNameOf);
    SortedByName(r);
    FilteredMembers(r, helmCharts, activeProviderTypes, activeProviders, searchText);
  }

  lemma SortedByName(r: seq<Chart>)
    requires SortedBy(r, DisplayNameOf)
    ensures forall i, j :: 0 <= i < j < |r| ==> AscName(r[i], r[j]) <= 0
  {
    forall i, j | 0 <= i < j < |r|
      ensures AscName(r[i], r[j]) <= 0
    {
      assert LessEq(DisplayNameOf(r[i]), DisplayNameOf(r[j]));
    }
  }

  /** Any reordering of the filtered charts holds exactly the charts that pass, as often as the input does. */
  lemma FilteredMembers(r: seq<Chart>, helmCharts: seq<Chart>, activeProviderTypes: seq<string>, activeProviders: seq<string>, searchText: string)
    requires multiset(r) == multiset(FilterCharts(helmCharts, activeProviderTypes, activeProviders, searchText))
    ensures forall c :: multiset(r)[c] ==
                        if Passes(c, activeProviderTypes, activeProviders, searchText) then multiset(helmCharts)[c] else 0
    ensures multiset(r) <= multiset(helmCharts)
    ensures forall c :: c in r ==> c in helmCharts && Passes(c, activeProviderTypes, activeProviders, searchText)
  {
    var filtered := FilterCharts(helmCharts, activeProviderTypes, activeProviders, searchText);
    forall c
      ensures multiset(r)[c] == if Passes(c, activeProviderTypes, activeProviders, searchText) then multiset(helmCharts)[c] else 0
    {
      assert multiset(r)[c] == multiset(filtered)[c];
    }
    SubMultiset(multiset(r), multiset(helmCharts));
    forall c | c in r
      ensures c in helmCharts && Passes(c, activeProviderTypes, activeProviders, searchText)
    {
      assert multiset(r)[c] > 0;
    }
  }

  /** When no provider chip is selected, the provider filter keeps every chart. */
  lemma NoProviderSelectedKeepsAll(charts: seq<Chart>, providerEnabled: seq<Entry>)
    requires forall i :: 0 <= i < |providerEnabled| ==> !providerEnabled[i].enabled
    ensures ByProvider(charts, ActiveKeys(providerEnabled)) == charts
  {
    NoneEnabledNoneActive(providerEnabled);
    ByProviderNoneSelected(charts);
  }

  lemma {:induction false} ByProviderNoneSelected(charts: seq<Chart>)
    ensures ByProvider(charts, []) == charts
  {
    if |charts| > 0 {
      ByProviderNoneSelected(charts[1..]);
      assert charts == [charts[0]] + charts[1..];
    }
  }

  /** A search text of white space alone (the empty text included) keeps every chart. */
  lemma BlankSearchKeepsAll(charts: seq<Chart>, searchText: string)
    requires forall k :: 0 <= k < |searchText| ==> IsWhitespace(searchText[k])
    ensures BySearch(charts, searchText) == charts
  {
    SplitBlank(searchText);
    forall c: Chart
      ensures MatchesSearch(c, searchText)
    {
      ContainsEmpty(Lower(c.displayName));
    }
    KeepAll(charts, (c: Chart) => MatchesSearch(c, searchText));
  }

  /**
    With the filter lists as first set up (every type enabled, no provider
    selected) and an empty search, exactly the charts whose provider type is
    one of the incoming types are listed.
   */
  lemma InitialFilterKeepsKnownTypes(charts: seq<Chart>, types: seq<string>, typeEntries: seq<Entry>,
                                     providers: seq<string>, providerEntries: seq<Entry>, c: Chart)
    requires |typeEntries| == |types|
    requires forall i :: 0 <= i < |types| ==> typeEntries[i] == Entry(types[i], true)
    requires |providerEntries| == |providers|
    requires forall i :: 0 <= i < |providers| ==> providerEntries[i] == Entry(providers[i], false)
    ensures Passes(c, ActiveKeys(typeEntries), ActiveKeys(providerEntries), "") <==>
      ProviderTypeAnnotation in c.latest.annotations && c.latest.annotations[ProviderTypeAnnotation] in types
  {
    InitialTypesAllActive(types, typeEntries);
    InitialProvidersNoneActive(providers, providerEntries);
    SplitBlank("");
    ContainsEmpty(Lower(c.displayName));
  }

  // ---------------------------------------------------------------------
  // Pages

  function Min(a: int, b: int): int
  {
    if a <= b then a else b
  }

  function Max(a: int, b: int): int
  {
    if a <= b then b else a
  }

  /** `Math.floor(n / ITEMS_PER_PAGE) + (n % ITEMS_PER_PAGE > 0.0001 ? 1 : 0)`. */
  function NumPages(n: nat): (r: nat)
    ensures (r - 1) * ItemsPerPage < n <= r * ItemsPerPage
  {
    n / ItemsPerPage + (if n % ItemsPerPage > 0 then 1 else 0)
  }

  /**
    `s.slice(start, end)`: a negative bound counts from the end, bounds are
    clamped to the sequence, and an empty range gives an empty slice.
   */
  function Slice<T>(s: seq<T>, start: int, end: int): (r: seq<T>)
    ensures |r| <= |s|
    ensures 0 <= start ==> forall k :: 0 <= k < |r| ==> start + k < |s| && r[k] == s[start + k]
    ensures 0 <= start && 0 <= end ==> |r| == Max(0, Min(end, |s|) - start)
  {
    var from := if start < 0 then Max(|s| + start, 0) else Min(start, |s|);
    var to := if end < 0 then Max(|s| + end, 0) else Min(end, |s|);
    if from < to then s[from..to] else []
  }

  /** The "to" figure of "Showing items <from> - <to> of <total>". */
  function ShowingTo(currentPage: int, total: nat): int
  {
    Min(currentPage * ItemsPerPage, total)
  }

  /** The "from" figure of "Showing items <from> - <to> of <total>". */
  function ShowingFrom(currentPage: int): int
  {
    (currentPage - 1) * ItemsPerPage + 1
  }

  /** The charts listed on page `currentPage`. */
  function PageItems<T>(items: seq<T>, currentPage: int): (r: seq<T>)
    ensures currentPage >= 1 ==> |r| <= ItemsPerPage
    ensures currentPage >= 1 ==>
      forall k :: 0 <= k < |r| ==>
        (currentPage - 1) * ItemsPerPage + k < |items| && r[k] == items[(currentPage - 1) * ItemsPerPage + k]
  {
    Slice(items, (currentPage - 1) * ItemsPerPage, ShowingTo(currentPage, |items|))
  }

  /**
    On every page from 1 to the page count the figures read
    "<from> - <to> of <total>" with from <= to <= total, and the page lists
    exactly the items from..to (counting from 1).
   */
  lemma ShowingRange<T>(items: seq<T>, currentPage: int)
    requires 1 <= currentPage <= NumPages(|items|)
    ensures 1 <= ShowingFrom(currentPage) <= ShowingTo(currentPage, |items|) <= |items|
    ensures PageItems(items, currentPage) == items[ShowingFrom(currentPage) - 1..ShowingTo(currentPage, |items|)]
    ensures |PageItems(items, currentPage)| == ShowingTo(currentPage, |items|) - ShowingFrom(currentPage) + 1
  {
  }

  /**
    Past the last page nothing is listed and the "from" figure exceeds the
    "to" figure; with no matching chart, page 1 reads "1 - 0 of 0".
   */
  lemma PastLastPage<T>(items: seq<T>, currentPage: int)
    requires currentPage >= 1 && currentPage > NumPages(|items|)
    ensures PageItems(items, currentPage) == []
    ensures ShowingTo(currentPage, |items|) < ShowingFrom(currentPage)
  {
  }

  /** The pages partition the list: item `k` is item `k % 6` of page `k / 6 + 1`. */
  lemma PagesCoverEveryItem<T>(items: seq<T>, k: nat)
    requires k < |items|
    ensures 1 <= k / ItemsPerPage + 1 <= NumPages(|items|)
    ensures k % ItemsPerPage < |PageItems(items, k / ItemsPerPage + 1)|
    ensures PageItems(items, k / ItemsPerPage + 1)[k % ItemsPerPage] == items[k]
  {
    ShowingRange(items, k / ItemsPerPage + 1);
  }
}
