/** The process-wide memo table in front of the network: downloaded bodies
    by URL, holding at most 128 of them. Which entry leaves when the table is
    full is the caching library's business; the model does not fix it. */
module Cache {
  import opened Base

  type Url = string

  /** The `maxsize` the memo table is created with. */
  const MaxSize: nat := 128

  /** What a memoized fetch of `url` returns: the stored body when there is
      one, otherwise what the network answers now. */
  function Fetched(entries: map<Url, Bytes>, url: Url, remote: Url -> Bytes): Bytes
  {
    if url in entries then entries[url] else remote(url)
  }

  /** What one `_get_file(url)` does to the table and to the download log:
      `url` ends up stored with the bytes the call returns; a hit changes
      nothing and downloads nothing; a miss downloads once and evicts at most
      one other URL, and only when the table is full; no other stored body
      changes. */
  ghost predicate GetEffect(before: map<Url, Bytes>, log: seq<Url>, after: map<Url, Bytes>, log': seq<Url>,
                            url: Url, remote: Url -> Bytes)
  {
    && url in after && after[url] == Fetched(before, url, remote)
    && log' == log + (if url in before then [] else [url])
    && (url in before ==> after == before)
    && (url !in before && |before| < MaxSize ==> after == before[url := remote(url)])
    && (forall u :: u in after && u != url ==> u in before && after[u] == before[u])
    && |before.Keys - after.Keys| <= 1
  }

  class ContentCache {
    var entries: map<Url, Bytes>
    /** Every URL that went to the network, in order. */
    ghost var downloads: seq<Url>

    ghost predicate Valid()
      reads this
    {
      |entries| <= MaxSize
    }

    constructor ()
      ensures Valid() && entries == map[] && downloads == []
    {
      entries := map[];
      downloads := [];
    }

    /** `_get_file(url)`; `remote` is what the network serves during this
        call. A hit goes nowhere and changes nothing; a miss downloads once,
        stores the body, and evicts at most one other URL, only when the table
        is full. */
    method Get(url: Url, remote: Url -> Bytes) returns (content: Bytes)
      requires Valid()
      modifies this
      ensures Valid()
      ensures content == Fetched(old(entries), url, remote)
      ensures GetEffect(old(entries), old(downloads), entries, downloads, url, remote)
    {
      if url in entries {
        content := entries[url];
        return;
      }
      content := remote(url);
      downloads := downloads + [url];
      ghost var evicted: set<Url> := {};
      if |entries| >= MaxSize {
        assert entries.Keys != {};
        var victim :| victim in entries;
        assert (entries - {victim}).Keys == entries.Keys - {victim};
        entries := entries - {victim};
        evicted := {victim};
      }
      entries := entries[url := content];
      assert old(entries).Keys - entries.Keys == evicted;
    }
  }

  /** Two fetches of one URL in a row give the same bytes, and the network is
      asked at most once, even when it would answer differently the second
      time. */
  method RepeatedGet(cache: ContentCache, url: Url, remote: Url -> Bytes, later: Url -> Bytes)
    returns (first: Bytes, second: Bytes)
    requires cache.Valid()
    modifies cache
    ensures cache.Valid()
    ensures first == second == Fetched(old(cache.entries), url, remote)
    ensures |cache.downloads| <= |old(cache.downloads)| + 1
  {
    first := cache.Get(url, remote);
    second := cache.Get(url, later);
  }
}
