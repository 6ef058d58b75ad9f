/** The request-level logic of the file browser: building the entries of a
    project listing, reading a member through the shared cache, and serving
    `/{project}/{dist}/{arcname}`. The listing's links and the network are
    inputs; unpacking an archive's bytes into its members is the `unpack`
    parameter. */
module Browser {
  import opened Base
  import opened Artifacts
  import opened Resolve
  import opened Cache

  /** The response `dist_file` sends. */
  datatype Response =
    | Content(body: Bytes)         // 200 with the member's bytes
    | NotFound(message: string)    // 404 with a short message
    | Unhandled(error: ReadError)  // an exception that escapes the handler

  const DistNotFoundMessage: string := "dist file not found"
  const ContentNotFoundMessage: string := "dist content not found"

  /** `_iter_simple_entries` once the listing is parsed into `links`: one
      entry per link, latest link first, each of the class its filename
      selects and carrying `project` unchanged. */
  method IterSimpleEntries(project: string, links: seq<Link>) returns (entries: seq<Entry>)
    ensures |entries| == |links|
    ensures forall i :: 0 <= i < |links| ==> entries[i] == MakeEntry(project, links[|links| - 1 - i])
  {
    entries := [];
    var i := |links|;
    while i > 0
      invariant 0 <= i <= |links|
      invariant |entries| == |links| - i
      invariant forall k :: 0 <= k < |entries| ==> entries[k] == MakeEntry(project, links[|links| - 1 - k])
    {
      i := i - 1;
      var link := links[i];
      var kind := Classify(link.filename);
      entries := entries + [Entry(project, link, kind)];
    }
  }

  /** `next(e for e in entries if e.filename == dist)`: the first entry with
      that filename, if any. */
  method SelectEntry(entries: seq<Entry>, dist: string) returns (r: Option<Entry>)
    ensures r.None? <==> forall i :: 0 <= i < |entries| ==> entries[i].Filename() != dist
    ensures r.Some? ==>
      exists i :: 0 <= i < |entries| && entries[i] == r.value && entries[i].Filename() == dist &&
        forall j :: 0 <= j < i ==> entries[j].Filename() != dist
  {
    var i := 0;
    while i < |entries|
      invariant 0 <= i <= |entries|
      invariant forall j :: 0 <= j < i ==> entries[j].Filename() != dist
    {
      if entries[i].Filename() == dist {
        return Some(entries[i]);
      }
      i := i + 1;
    }
    return None;
  }

  /** `entry.read_file(name)`: a name outside the kind's gate fails before any
      fetch; otherwise the archive comes through the cache and is resolved. */
  method ReadFile(e: Entry, name: string, cache: ContentCache, remote: Url -> Bytes, unpack: Bytes -> Archive)
    returns (r: Result<Bytes, ReadError>)
    requires cache.Valid()
    modifies cache
    ensures cache.Valid()
    ensures r == ReadFromArchive(e, name, unpack(Fetched(old(cache.entries), e.link.url, remote)))
    ensures !PassesGate(e.kind, name) ==> r == Failure(FileNotFound) && unchanged(cache)
    ensures PassesGate(e.kind, name) ==>
      GetEffect(old(cache.entries), old(cache.downloads), cache.entries, cache.downloads, e.link.url, remote)
  {
    if !PassesGate(e.kind, name) {
      return Failure(FileNotFound);
    }
    var content := cache.Get(e.link.url, remote);
    r := ReadFromArchive(e, name, unpack(content));
  }

  /** How `dist_file` answers the outcome of `read_file`. */
  function Respond(r: Result<Bytes, ReadError>): (resp: Response)
    ensures resp.Content? <==> r.Success?
    ensures r.Success? ==> resp.body == r.value
    ensures r == Failure(FileNotFound) <==> resp == NotFound(ContentNotFoundMessage)
    ensures r.Failure? && r.error.KeyError? ==> resp == Unhandled(r.error)
  {
    match r
    case Success(body) => Content(body)
    case Failure(FileNotFound) => NotFound(ContentNotFoundMessage)
    case Failure(error) => Unhandled(error)
  }

  /** `dist_file` once the listing is parsed into `links`: the entry served is
      the one from the LAST link named `dist` (the listing is reversed before
      the search); with none, "dist file not found" and no fetch. */
  method DistFile(project: string, links: seq<Link>, dist: string, arcname: string,
                  cache: ContentCache, remote: Url -> Bytes, unpack: Bytes -> Archive)
    returns (resp: Response)
    requires cache.Valid()
    modifies cache
    ensures cache.Valid()
    ensures (forall j :: 0 <= j < |links| ==> links[j].filename != dist) ==>
      resp == NotFound(DistNotFoundMessage) && unchanged(cache)
    ensures forall j :: IsLastNamed(links, dist, j) ==>
      resp == Respond(ReadFromArchive(MakeEntry(project, links[j]), arcname,
                                      unpack(Fetched(old(cache.entries), links[j].url, remote))))
    ensures forall j :: IsLastNamed(links, dist, j) && !PassesGate(Classify(links[j].filename), arcname) ==>
      unchanged(cache)
    ensures forall j :: IsLastNamed(links, dist, j) && PassesGate(Classify(links[j].filename), arcname) ==>
      GetEffect(old(cache.entries), old(cache.downloads), cache.entries, cache.downloads, links[j].url, remote)
  {
    var entries := IterSimpleEntries(project, links);
    var selected := SelectEntry(entries, dist);
    if selected.None? {
      forall j | 0 <= j < |links| ensures links[j].filename != dist {
        assert entries[|links| - 1 - j].Filename() != dist;
      }
      return NotFound(DistNotFoundMessage);
    }
    ghost var i :| 0 <= i < |entries| && entries[i] == selected.value && entries[i].Filename() == dist &&
      forall j :: 0 <= j < i ==> entries[j].Filename() != dist;
    var content := ReadFile(selected.value, arcname, cache, remote, unpack);
    resp := Respond(content);
    forall j | IsLastNamed(links, dist, j) ensures selected.value == MakeEntry(project, links[j]) {
      FirstEntryIsLastLink(project, links, entries, dist, i, j);
    }
  }

  /** Two requests for one member of one artifact, given the same parsed
      listing both times, get the same response, and the artifact is
      downloaded at most once; only the archive server may answer
      differently the second time (the listing itself is not cached). */
  method RepeatedRequest(project: string, links: seq<Link>, dist: string, arcname: string,
                         cache: ContentCache, remote: Url -> Bytes, later: Url -> Bytes, unpack: Bytes -> Archive)
    returns (first: Response, second: Response)
    requires cache.Valid()
    modifies cache
    ensures cache.Valid()
    ensures first == second
    ensures |cache.downloads| <= |old(cache.downloads)| + 1
  {
    ghost var before, log := cache.entries, cache.downloads;
    first := DistFile(project, links, dist, arcname, cache, remote, unpack);
    ghost var between, log' := cache.entries, cache.downloads;
    second := DistFile(project, links, dist, arcname, cache, later, unpack);
    if k :| 0 <= k < |links| && links[k].filename == dist {
      var j := LastNamed(links, dist, k);
      var url := links[j].url;
      if PassesGate(Classify(links[j].filename), arcname) {
        assert GetEffect(before, log, between, log', url, remote);
        assert GetEffect(between, log', cache.entries, cache.downloads, url, later);
        assert Fetched(between, url, later) == Fetched(before, url, remote);
      }
    }
  }

  /** When some link is named `dist`, one of them is the last. */
  lemma LastNamed(links: seq<Link>, dist: string, k: int) returns (j: int)
    requires 0 <= k < |links| && links[k].filename == dist
    ensures IsLastNamed(links, dist, j)
    decreases |links| - k
  {
    if m :| k < m < |links| && links[m].filename == dist {
      j := LastNamed(links, dist, m);
    } else {
      j := k;
    }
  }

  /** `links[j]` is the last link named `dist`. */
  ghost predicate IsLastNamed(links: seq<Link>, dist: string, j: int)
  {
    0 <= j < |links| && links[j].filename == dist && forall k :: j < k < |links| ==> links[k].filename != dist
  }

  /** In the reversed listing, the first entry named `dist` is built from the
      last link named `dist`. */
  lemma FirstEntryIsLastLink(project: string, links: seq<Link>, entries: seq<Entry>, dist: string, i: int, j: int)
    requires |entries| == |links|
    requires forall k :: 0 <= k < |links| ==> entries[k] == MakeEntry(project, links[|links| - 1 - k])
    requires 0 <= i < |entries| && entries[i].Filename() == dist
    requires forall k :: 0 <= k < i ==> entries[k].Filename() != dist
    requires IsLastNamed(links, dist, j)
    ensures entries[i] == MakeEntry(project, links[j])
  {
    assert entries[i].link == links[|links| - 1 - i];
    assert entries[|links| - 1 - j].link == links[j];
  }
}
