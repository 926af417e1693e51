/** Choosing the endpoints to write configurations for (Program.cs, lines
    65-93): the filter chain over the directory, the "nothing found" exit,
    and the optional stable ordering by load. */
module Selection {
  import opened Linq
  import opened Domain

  /** Line 66: the endpoint offers WireGuard among its technologies. */
  predicate HasWireguard(e: Endpoint) {
    exists i :: 0 <= i < |e.technologies| && e.technologies[i].id == Wireguard
  }

  /** Line 67: some technology of the endpoint, not necessarily WireGuard,
      is online. */
  predicate HasOnlineTechnology(e: Endpoint) {
    exists i :: 0 <= i < |e.technologies| && e.technologies[i].status == Online
  }

  /** Line 71: some group of the endpoint has one of the selected titles
      (ordinal, case-sensitive comparison). */
  predicate InGroups(e: Endpoint, groups: seq<string>) {
    exists i :: 0 <= i < |e.groups| && e.groups[i].title in groups
  }

  /** Line 77: some location of the endpoint is in a selected country. */
  predicate InLocations(e: Endpoint, locations: seq<CountryId>) {
    exists i :: 0 <= i < |e.locations| && e.locations[i].country.id in locations
  }

  function GroupTest(groups: seq<string>): Endpoint -> bool {
    (e: Endpoint) => InGroups(e, groups)
  }

  function LocationTest(locations: seq<CountryId>): Endpoint -> bool {
    (e: Endpoint) => InLocations(e, locations)
  }

  /** Lines 65-79: the two technology filters, then the group filter when
      groups are selected, then the location filter when locations are. */
  function Filtered(endpoints: seq<Endpoint>, groups: seq<string>, locations: seq<CountryId>): seq<Endpoint> {
    var online := Where(Where(endpoints, HasWireguard), HasOnlineTechnology);
    var grouped := if groups != [] then Where(online, GroupTest(groups)) else online;
    if locations != [] then Where(grouped, LocationTest(locations)) else grouped
  }

  /** The single test the chain amounts to; an empty selection list
      imposes nothing. */
  predicate Selected(e: Endpoint, groups: seq<string>, locations: seq<CountryId>) {
    && HasWireguard(e)
    && HasOnlineTechnology(e)
    && (groups == [] || InGroups(e, groups))
    && (locations == [] || InLocations(e, locations))
  }

  function SelectedTest(groups: seq<string>, locations: seq<CountryId>): Endpoint -> bool {
    (e: Endpoint) => Selected(e, groups, locations)
  }

  /** The tests applied up to the group filter. */
  function GroupedTest(groups: seq<string>): Endpoint -> bool {
    (e: Endpoint) => HasWireguard(e) && HasOnlineTechnology(e) && (groups == [] || InGroups(e, groups))
  }

  /** The chain of filters is one filter by `Selected`. */
  lemma FilteredIsOneFilter(endpoints: seq<Endpoint>, groups: seq<string>, locations: seq<CountryId>)
    ensures Filtered(endpoints, groups, locations) == Where(endpoints, SelectedTest(groups, locations))
  {
    var tech := (e: Endpoint) => HasWireguard(e) && HasOnlineTechnology(e);
    var online := Where(Where(endpoints, HasWireguard), HasOnlineTechnology);
    WhereFusedBy(endpoints, HasWireguard, HasOnlineTechnology, tech);
    var grouped := if groups != [] then Where(online, GroupTest(groups)) else online;
    if groups != [] {
      WhereFusedBy(endpoints, tech, GroupTest(groups), GroupedTest(groups));
    } else {
      WhereExtensional(endpoints, tech, GroupedTest(groups));
    }
    assert grouped == Where(endpoints, GroupedTest(groups));
    if locations != [] {
      WhereFusedBy(endpoints, GroupedTest(groups), LocationTest(locations), SelectedTest(groups, locations));
    } else {
      WhereExtensional(endpoints, GroupedTest(groups), SelectedTest(groups, locations));
    }
  }

  /** An endpoint survives the filters exactly when it is in the directory
      and passes every selected test. */
  lemma FilteredMembers(endpoints: seq<Endpoint>, groups: seq<string>, locations: seq<CountryId>)
    ensures forall e :: e in Filtered(endpoints, groups, locations) <==>
      e in endpoints && Selected(e, groups, locations)
  {
    FilteredIsOneFilter(endpoints, groups, locations);
    WhereMembers(endpoints, SelectedTest(groups, locations));
  }

  /** Filtering an already filtered list with the same selection changes
      nothing. */
  lemma FilteredIdempotent(endpoints: seq<Endpoint>, groups: seq<string>, locations: seq<CountryId>)
    ensures Filtered(Filtered(endpoints, groups, locations), groups, locations)
      == Filtered(endpoints, groups, locations)
  {
    var filtered := Filtered(endpoints, groups, locations);
    FilteredIsOneFilter(endpoints, groups, locations);
    FilteredIsOneFilter(filtered, groups, locations);
    WhereIdempotent(endpoints, SelectedTest(groups, locations));
  }

  /** Filtering deletes endpoints but never reorders them. */
  lemma FilteredKeepsOrder(endpoints: seq<Endpoint>, groups: seq<string>, locations: seq<CountryId>)
    ensures IsSubsequence(Filtered(endpoints, groups, locations), endpoints)
  {
    FilteredIsOneFilter(endpoints, groups, locations);
    WhereIsSubsequence(endpoints, SelectedTest(groups, locations));
  }

  /** The two technology tests are independent: an endpoint whose WireGuard
      technology is offline is still selected when another of its
      technologies is online. */
  lemma OfflineWireguardPasses(name: string, hostname: string, load: int)
    ensures var e := Endpoint(name, hostname, load,
        [Technology(Wireguard, Offline, []), Technology(OpenVpnUdp, Online, [])], [], [], []);
      Filtered([e], [], []) == [e]
      && !exists i :: 0 <= i < |e.technologies|
           && e.technologies[i].id == Wireguard && e.technologies[i].status == Online
  {
    var e := Endpoint(name, hostname, load,
      [Technology(Wireguard, Offline, []), Technology(OpenVpnUdp, Online, [])], [], [], []);
    assert e.technologies[0].id == Wireguard;
    assert e.technologies[1].status == Online;
    assert Where([e], HasWireguard) == [e];
  }

  // ---------------------------------------------------------------------
  // OrderBy(e => e.Load): a stable sort on the load.

  predicate SortedByLoad(s: seq<Endpoint>) {
    forall i, j :: 0 <= i < j < |s| ==> s[i].load <= s[j].load
  }

  /** No load in `s` is below `b`. */
  predicate LoadsFrom(s: seq<Endpoint>, b: int) {
    forall i :: 0 <= i < |s| ==> b <= s[i].load
  }

  /** What holds of all loads of `s` holds of its tail; in a sorted `s` the
      tail is sorted and bounded below by the first load. */
  lemma TailLoads(s: seq<Endpoint>)
    requires s != []
    ensures multiset(s) == multiset{s[0]} + multiset(s[1..])
    ensures forall b :: LoadsFrom(s, b) ==> LoadsFrom(s[1..], b)
    ensures SortedByLoad(s) ==> SortedByLoad(s[1..]) && LoadsFrom(s[1..], s[0].load)
  {
    assert s == [s[0]] + s[1..];
  }

  /** Places `x` before the first element whose load is not smaller. */
  function InsertByLoad(x: Endpoint, s: seq<Endpoint>): (r: seq<Endpoint>)
    ensures multiset(r) == multiset(s) + multiset{x}
    ensures forall b :: b <= x.load && LoadsFrom(s, b) ==> LoadsFrom(r, b)
    ensures SortedByLoad(s) ==> SortedByLoad(r)
  {
    if s == [] || x.load <= s[0].load then [x] + s
    else
      TailLoads(s);
      [s[0]] + InsertByLoad(x, s[1..])
  }

  /** The order OrderBy produces: insertion from the back, so that of two
      endpoints with equal load the earlier one stays first. */
  function SortByLoad(s: seq<Endpoint>): (r: seq<Endpoint>)
    ensures SortedByLoad(r)
    ensures multiset(r) == multiset(s)
  {
    if s == [] then []
    else
      assert s == [s[0]] + s[1..];
      InsertByLoad(s[0], SortByLoad(s[1..]))
  }

  function LoadIs(k: int): Endpoint -> bool {
    (e: Endpoint) => e.load == k
  }

  /** The endpoints of load `k`, in their order. */
  function WithLoad(s: seq<Endpoint>, k: int): seq<Endpoint> {
    Where(s, LoadIs(k))
  }

  /** `r` lists, for every load, the same endpoints in the same order as
      `s`: what a stable sort keeps. */
  ghost predicate StableByLoad(r: seq<Endpoint>, s: seq<Endpoint>) {
    forall k :: WithLoad(r, k) == WithLoad(s, k)
  }

  lemma {:induction false} InsertWithLoad(x: Endpoint, s: seq<Endpoint>, k: int)
    requires SortedByLoad(s)
    ensures WithLoad(InsertByLoad(x, s), k)
      == (if x.load == k then [x] else []) + WithLoad(s, k)
  {
    if s != [] && s[0].load < x.load {
      InsertWithLoad(x, s[1..], k);
      assert ([s[0]] + InsertByLoad(x, s[1..]))[1..] == InsertByLoad(x, s[1..]);
      if x.load == k {
        assert s[0].load != k;
      }
    }
  }

  /** The sort is stable. */
  lemma {:induction false} SortByLoadStable(s: seq<Endpoint>)
    ensures StableByLoad(SortByLoad(s), s)
  {
    if s != [] {
      SortByLoadStable(s[1..]);
      forall k ensures WithLoad(SortByLoad(s), k) == WithLoad(s, k) {
        InsertWithLoad(s[0], SortByLoad(s[1..]), k);
      }
    }
  }

  lemma WithLoadOfHead(s: seq<Endpoint>)
    requires s != []
    ensures WithLoad(s, s[0].load) == [s[0]] + WithLoad(s[1..], s[0].load)
  {}

  lemma {:induction false} WithLoadBelowFirst(t: seq<Endpoint>, k: int)
    requires SortedByLoad(t) && t != [] && k < t[0].load
    ensures WithLoad(t, k) == []
  {
    if |t| > 1 {
      WithLoadBelowFirst(t[1..], k);
    }
  }

  /** A sorted, stable arrangement of the endpoints is unique. */
  lemma {:induction false} SortedStableUnique(r: seq<Endpoint>, t: seq<Endpoint>)
    requires SortedByLoad(r) && SortedByLoad(t) && StableByLoad(r, t)
    ensures r == t
    decreases |r| + |t|
  {
    if r == [] && t != [] {
      WithLoadOfHead(t);
    } else if r != [] && t == [] {
      WithLoadOfHead(r);
    } else if r != [] {
      var a, b := r[0].load, t[0].load;
      if a < b {
        WithLoadBelowFirst(t, a);
      } else if b < a {
        WithLoadBelowFirst(r, b);
      } else {
        assert WithLoad(r, a) == [r[0]] + WithLoad(r[1..], a);
        assert WithLoad(t, a) == [t[0]] + WithLoad(t[1..], a);
        assert r[0] == WithLoad(r, a)[0] == WithLoad(t, a)[0] == t[0];
        forall k ensures WithLoad(r[1..], k) == WithLoad(t[1..], k) {
          assert WithLoad(r, k) == WithLoad(t, k);
          if k == a {
            assert WithLoad(r, k)[1..] == WithLoad(r[1..], k);
            assert WithLoad(t, k)[1..] == WithLoad(t[1..], k);
          } else {
            assert WithLoad(r, k) == WithLoad(r[1..], k);
            assert WithLoad(t, k) == WithLoad(t[1..], k);
          }
        }
        SortedStableUnique(r[1..], t[1..]);
        assert r == [r[0]] + r[1..] && t == [t[0]] + t[1..];
      }
    }
  }

  /** OrderBy on the load is characterised by its contract: any sorted,
      stable arrangement of `s` is `SortByLoad(s)`. */
  lemma SortByLoadIsOrderBy(s: seq<Endpoint>, r: seq<Endpoint>)
    requires SortedByLoad(r) && StableByLoad(r, s)
    ensures r == SortByLoad(s)
  {
    SortByLoadStable(s);
    SortedStableUnique(r, SortByLoad(s));
  }

  // ---------------------------------------------------------------------
  // Lines 81-93.

  datatype Selection = NoMatch | Found(endpoints: seq<Endpoint>)

  /** The filtered endpoints, or `NoMatch` when none is left (the exit of
      lines 81-86); sorted by load when least-loaded servers are preferred,
      in directory order otherwise. */
  function Select(endpoints: seq<Endpoint>, groups: seq<string>, locations: seq<CountryId>,
                  preferLeastLoaded: bool): (r: Selection)
    ensures r.NoMatch? <==> forall e :: e in endpoints ==> !Selected(e, groups, locations)
    ensures r.Found? ==> r.endpoints != []
    ensures r.Found? ==> multiset(r.endpoints) == multiset(Filtered(endpoints, groups, locations))
    ensures r.Found? && preferLeastLoaded ==>
      SortedByLoad(r.endpoints) && StableByLoad(r.endpoints, Filtered(endpoints, groups, locations))
    ensures r.Found? && !preferLeastLoaded ==> r.endpoints == Filtered(endpoints, groups, locations)
  {
    var filtered := Filtered(endpoints, groups, locations);
    FilteredMembers(endpoints, groups, locations);
    if filtered == [] then NoMatch
    else
      assert filtered[0] in filtered;
      SortByLoadStable(filtered);
      Found(if preferLeastLoaded then SortByLoad(filtered) else filtered)
  }
}
