/**
 `refresh_site_list`: the values of the site selector are the store's keys,
 sorted ascending.
 */
module SiteListing {
  import opened CredentialStore
  import opened Lexicographic

  /** `sorted(list(data.keys()))`: every key exactly once, in ascending order. */
  method SortedSites(data: Store) returns (sites: seq<string>)
    ensures StrictlySorted(sites)
    ensures forall k :: k in sites <==> k in data
    ensures |sites| == |data|
  {
    var remaining := data.Keys;
    sites := [];
    while remaining != {}
      invariant remaining <= data.Keys
      invariant StrictlySorted(sites)
      invariant forall k :: k in sites <==> k in data && k !in remaining
      invariant |sites| + |remaining| == |data|
      decreases |remaining|
    {
      var k :| k in remaining;
      sites := Insert(sites, k);
      remaining := remaining - {k};
    }
  }

  /** `refresh_site_list`: the listing of what `safe_load` returns. */
  method RefreshSiteList(file: FileRead) returns (sites: seq<string>)
    ensures StrictlySorted(sites)
    ensures forall k :: k in sites <==> k in SafeLoad(file)
    ensures !file.Parsed? ==> sites == []
  {
    sites := SortedSites(SafeLoad(file));
  }
}
