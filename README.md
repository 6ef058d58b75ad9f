# warehouse-filebrowser, modelled in Dafny

The file browser lets a user look inside the release artifacts that a package
index lists for a project. It shows the `METADATA` of a wheel and the
`pyproject.toml`, `setup.cfg` or `setup.py` of a source distribution.

This model covers the rules in `warehousefilebrowser/__init__.py` that decide
three things:

- which kind of archive a listed file is;
- which member of that archive a request reads;
- which response a request for `/{project}/{dist}/{arcname}` gets.

Modules:

- `Base`: the `Option` and `Result` wrappers, plus bytes (`Byte`, `Bytes`).
- `PyStr`: the Python `str` operations the filename arithmetic uses. These are
  `split` and `rsplit` with a maximum split count (each built on a search for
  the separator), `join` and `endswith`. `split` and `rsplit` follow Python's behaviour when the
  separator occurs fewer times than the limit.
- `Artifacts`: the listing's links and the four entry classes. It holds
  suffix classification (`Classify`), the two stem rules and the per-class
  `useful_filenames`.
- `Resolve`: member resolution for each class, as pure functions over an
  unpacked archive. An archive is a map from member name to bytes. This module
  builds the wheel's `<name>-<version>.dist-info/METADATA` path and does the
  tar.gz lookup (exact name, then `stem/name`). It also holds the single
  exact-name lookup of a zip sdist and the always-failing unsupported entry.
  The two exceptions `dist_file` tells apart, `FileNotFoundError` and the zip
  reader's `KeyError`, are modelled as `ReadError`; the other exceptions a
  `read_file` can raise are listed under "Left out".
- `Cache`: the memo table in front of `_get_file`, as a class with a map
  field. It holds at most 128 URLs.
- `Browser`: the listing loop (`IterSimpleEntries`), the `next(...)` search
  (`SelectEntry`), `read_file` through the cache (`ReadFile`) and the handler
  (`DistFile`) with its error mapping (`Respond`).

The network is a function parameter `remote: Url -> Bytes`. It gives what the
server answers during that call. Unpacking archive bytes into members is the
parameter `unpack: Bytes -> Archive`. The project's list of links is an input.

A wheel that lacks the computed `.dist-info/METADATA` member does not give a
404. `Wheel.read_file` calls `zf.open(name)` without catching the zip reader's
`KeyError` (`warehousefilebrowser/__init__.py:74-77`). That error is not a
`FileNotFoundError`, so `dist_file` does not turn it into a 404, and it
escapes the handler. The model returns `KeyError(member)` from `ReadWheel` and
`Unhandled` from `Respond` for this case.

## Model

| member | source | states |
|---|---|---|
| PyStr.IndexOf | warehousefilebrowser/__init__.py:33 | the separator search inside `split` returns the first position of the separator, with no separator before it; without a separator, none is returned |
| PyStr.LastIndexOf | warehousefilebrowser/__init__.py:56 | the separator search inside `rsplit` (lines 56 and 85) returns the last position of the separator, with no separator after it; without a separator, none is returned |
| PyStr.Split | warehousefilebrowser/__init__.py:33 | `split` with limit n returns at least 1 and at most n+1 parts, and the first part is a prefix of the string |
| PyStr.RSplit | warehousefilebrowser/__init__.py:85 | `rsplit` with limit n returns at least 1 and at most n+1 parts, and the first part is a prefix of the string |
| PyStr.SplitJoin | warehousefilebrowser/__init__.py:33 | joining the parts of `split` with the separator gives the string back |
| PyStr.SplitPartsSepFree | warehousefilebrowser/__init__.py:33 | only the last part of `split` can hold a separator, and only when the limit was reached |
| PyStr.SplitAtFirst | warehousefilebrowser/__init__.py:33 | `split` cuts at the first separator: the separator-free head, then the split of the rest with one cut fewer |
| PyStr.RSplitJoin | warehousefilebrowser/__init__.py:56 | joining the parts of `rsplit` with the separator gives the string back |
| PyStr.RSplitPartsSepFree | warehousefilebrowser/__init__.py:85 | only the first part of `rsplit` can hold a separator, and only when the limit was reached |
| PyStr.Join | warehousefilebrowser/__init__.py:33 | `join` starts with the first part and, when there are two parts or more, puts the separator right after it |
| PyStr.EndsWith | warehousefilebrowser/__init__.py:131-135 | `endswith` holds exactly when the string is some head followed by the suffix |
| Artifacts.Classify | warehousefilebrowser/__init__.py:130-138 | the tests run `.whl`, `.tar.gz`, `.zip`, else unsupported; a file is each kind exactly when it has that suffix, and unsupported exactly when it has none of them |
| Artifacts.SuffixesExclusive | warehousefilebrowser/__init__.py:130-138 | no filename ends with two of `.whl`, `.tar.gz` and `.zip`, so the order of the tests does not matter |
| Artifacts.MakeEntry | warehousefilebrowser/__init__.py:131-139 | the entry keeps the project and the link, its class is the one `Classify` picks by suffix, and its stem plus the suffix that chose its class is the filename |
| Artifacts.DefaultStem | warehousefilebrowser/__init__.py:54-56 | the default stem is a prefix of the filename |
| Artifacts.TarGzStem | warehousefilebrowser/__init__.py:83-85 | the tar.gz stem is a prefix of the filename |
| Artifacts.Entry.Stem | warehousefilebrowser/__init__.py:50-56 | an entry's stem (`filename.rsplit(".", 1)[0]`, or `rsplit(".", 2)[0]` for a tar.gz sdist, line 83-85) is a prefix of its filename, `link.filename`; `StemStripsSuffix` shows it is the filename minus exactly the classifying suffix |
| Artifacts.UsefulFilenamesOf | warehousefilebrowser/__init__.py:68-116 | the class attributes `useful_filenames` (lines 68, 81, 100, 116): only an unsupported entry offers nothing, only a wheel offers `METADATA`, and exactly the two sdist classes offer `setup.py`; `PassesGate` shows each gate admits exactly this list |
| Artifacts.DefaultStemCutsLastDot | warehousefilebrowser/__init__.py:54-56 | a filename without a dot is its own stem; otherwise the filename is the stem, a dot and an extension with no dot |
| Artifacts.StemOfDotted | warehousefilebrowser/__init__.py:54-56 | the stem of `p + "." + x`, where `x` has no dot, is `p` |
| Artifacts.TarGzStemIsStemTwice | warehousefilebrowser/__init__.py:83-85 | `rsplit(".", 2)[0]` equals taking the one-segment stem twice, including filenames with one dot or none |
| Artifacts.StripExtension | warehousefilebrowser/__init__.py:54-56 | a filename ending in `.ext`, where `ext` has no dot, has that suffix removed by the default stem |
| Artifacts.StripTarGz | warehousefilebrowser/__init__.py:83-85 | a filename ending in `.tar.gz` has exactly that suffix removed by the tar.gz stem |
| Artifacts.StemStripsSuffix | warehousefilebrowser/__init__.py:54-85 | for wheels, tar.gz sdists and zip sdists, the stem plus the suffix that classified the file is the filename |
| Resolve.MetadataPathOfStandardName | warehousefilebrowser/__init__.py:31-33 | for a wheel named `<name>-<version>-<rest>` whose name and version have no dash, the path is `<name>-<version>.dist-info/METADATA` |
| Resolve.MetadataPathFewDashes | warehousefilebrowser/__init__.py:31-33 | a wheel filename with no dash or one dash is used whole, followed by `.dist-info/METADATA` |
| Resolve.RequestsMetadataPath | warehousefilebrowser/__init__.py:31-33 | `requests-2.31.0-py3-none-any.whl` gives `requests-2.31.0.dist-info/METADATA` |
| Resolve.DistInfoName | warehousefilebrowser/__init__.py:33 | the dist-info name (the first two dash-separated parts joined by a dash) is a prefix of the wheel filename |
| Resolve.FirstTwoPartsArePrefix | warehousefilebrowser/__init__.py:33 | joining the first two parts of `split(sep, 2)` gives a prefix of the string |
| Resolve.FindMetadataInWheel | warehousefilebrowser/__init__.py:31-33 | the METADATA path is a prefix of the wheel filename (its dist-info name) followed by `.dist-info/METADATA` |
| Resolve.FindFileInTgz | warehousefilebrowser/__init__.py:36-42 | the tar.gz lookup returns an archive member that is either the name or `stem/name`; it prefers the exact name; it finds nothing exactly when neither exists |
| Resolve.ReadWheel | warehousefilebrowser/__init__.py:70-77 | any name but `METADATA` is FileNotFound; otherwise the METADATA path is read, and a missing member gives KeyError for that path |
| Resolve.ReadTarGz | warehousefilebrowser/__init__.py:87-96 | it succeeds exactly when the name is a useful filename and the exact member or `stem/name` exists; the exact member wins; every failure is FileNotFound |
| Resolve.ReadZipSdist | warehousefilebrowser/__init__.py:102-112 | it succeeds exactly when the name is a useful filename and that exact member exists, reading it; every failure is FileNotFound |
| Resolve.PassesGate | warehousefilebrowser/__init__.py:67-119 | the gate each class's `read_file` applies before the fetch (`!= "METADATA"`, `not in self.useful_filenames`, always raise) admits exactly the class's `useful_filenames` |
| Resolve.ReadFromArchive | warehousefilebrowser/__init__.py:67-119 | a name outside the kind's gate gives FileNotFound; a success is the bytes of an archive member; only a wheel raises KeyError, and only for a missing member |
| Resolve.TarGzResolution | warehousefilebrowser/__init__.py:87-96 | a tar.gz sdist reads the exact member when there is one, even if `stem/name` also exists; otherwise it reads `stem/name`; otherwise FileNotFound |
| Resolve.ZipSdistExactLookup | warehousefilebrowser/__init__.py:102-112 | a zip sdist reads only the exact member; without it the read is FileNotFound, even if `stem/name` exists |
| Resolve.WheelReadsDistInfo | warehousefilebrowser/__init__.py:70-77 | a standard-named wheel reads `<name>-<version>.dist-info/METADATA`; a missing member gives KeyError, not FileNotFound |
| Resolve.DemoWheelScenario | warehousefilebrowser/__init__.py:67-77 | the wheel `demo-1.0-py3-none-any.whl` is a Wheel; it reads `demo-1.0.dist-info/METADATA` and refuses `setup.py` |
| Resolve.DemoFilename | warehousefilebrowser/__init__.py:31-33 | `demo-1.0-py3-none-any.whl` ends with `.whl` and splits at its dashes into `demo`, `1.0` and `py3-none-any.whl` |
| Resolve.NestedSdistScenario | warehousefilebrowser/__init__.py:80-96 | `foo-1.0.tar.gz` has stem `foo-1.0`; it reads `foo-1.0/setup.py` for `setup.py` when that is the archive's only member |
| Cache.ContentCache.constructor | warehousefilebrowser/__init__.py:24 | the memo table starts empty, and nothing has been downloaded |
| Cache.ContentCache.Get | warehousefilebrowser/__init__.py:24-28 | a hit returns the stored bytes, with no download and no change to the table; a miss downloads once and stores the body; at most one other URL is evicted, only when the table holds 128; stored bodies never change; the table never holds more than 128 |
| Cache.RepeatedGet | warehousefilebrowser/__init__.py:24-28 | two fetches of one URL return identical bytes and download at most once, even when the server would answer differently the second time |
| Browser.IterSimpleEntries | warehousefilebrowser/__init__.py:129-141 | there is one entry per link; entry i is built from link n-1-i, with that link's classified kind and the given project |
| Browser.SelectEntry | warehousefilebrowser/__init__.py:169-175 | it returns the first entry with the requested filename, or none exactly when no entry has that filename |
| Browser.FirstEntryIsLastLink | warehousefilebrowser/__init__.py:129-175 | in the reversed listing, the first entry named `dist` is built from the last link named `dist` |
| Browser.ReadFile | warehousefilebrowser/__init__.py:67-119 | a name outside the gate fails with FileNotFound and leaves the cache untouched; otherwise the archive comes through the cache (the table and the download log change as a cache fetch of the entry's URL does) and is resolved |
| Browser.Respond | warehousefilebrowser/__init__.py:176-180 | a success is the body with the member's bytes; exactly FileNotFound is 404 "dist content not found"; a KeyError escapes the handler as unhandled |
| Browser.DistFile | warehousefilebrowser/__init__.py:163-180 | with no link named `dist`, the answer is 404 "dist file not found" and nothing is fetched; otherwise the answer comes from the last link named `dist`, the cache is untouched when the name fails the gate, and otherwise changes as one cache fetch of that link's URL |
| Browser.RepeatedRequest | warehousefilebrowser/__init__.py:24-28 | two identical requests, given the same parsed listing both times, get the same response and download the artifact at most once; only the archive server may answer differently the second time (the listing fetch is not cached, lines 122-127) |
| Browser.LastNamed | warehousefilebrowser/__init__.py:129-175 | when some link is named `dist`, there is a last link with that name |

## Left out

- Fetching and parsing the listing (`warehousefilebrowser/__init__.py:122-127`) is left out. The HTTP request and `mousebender.simple.parse_archive_links` are network I/O and an external parser, so the parsed links are an input.
- The 400 response to a failed listing query (lines 155-158, 165-168) is left out, because it follows from the listing fetch.
- Unpacking zip and tar bytes (`zipfile`, `tarfile`) is the `unpack` parameter; these are external libraries. An archive becomes a map from member name to bytes. So the model does not cover corrupt archives, duplicate member names, or members that are directories or links.
- The other exceptions `read_file` lets through are not modelled: transport errors from `_get_file` (line 27), `zipfile.BadZipFile` (lines 74, 106), `tarfile.ReadError` (line 92), and the `RuntimeError` from `next(...)` (line 95) when the extracted member is not a regular file. They need the network, the archive libraries or the filesystem, which are parameters or left out here; like the `KeyError`, they would escape `dist_file`.
- Extracting the tar member to a temporary directory and reading it back (lines 91-96) is filesystem I/O. The model returns the resolved member's bytes.
- Cache.ContentCache.Get: the choice of which URL is evicted is left open ("at most one other URL, only when full"). The caching library's least-recently-used order, and how a hit refreshes recency, are internals of `async_lru` and are not part of this model.
- Cache.ContentCache.Get: two concurrent misses on the same URL, and a failed download, are not modelled. Concurrency and transport errors are outside a sequential model.
- Routing, templates, the index redirect and `url_for_content` (lines 58-64, 144-160) are presentation and framework internals. How the framework turns an escaping exception into a response is also outside the model; that case is `Unhandled`.
- `split` and `rsplit` are modelled only for the one-character separators and non-negative limits the code uses.
