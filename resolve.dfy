/** Member resolution: for each entry kind, which member of the unpacked
    archive a requested name reads, and which error is raised otherwise.
    An archive is abstracted as the map from member name to member bytes. */
module Resolve {
  import opened Base
  import opened PyStr
  import opened Artifacts

  type Archive = map<string, Bytes>

  /** The exceptions a `read_file` raises. */
  datatype ReadError =
    | FileNotFound            // FileNotFoundError, which the request handler catches
    | KeyError(member: string) // the zip reader's missing-member error, which nothing catches

  const MetadataSuffix: string := ".dist-info/METADATA"

  /** The first two dash-separated parts of a wheel filename, joined by a dash
      (all of the filename when it has fewer than two dashes). */
  function DistInfoName(wheelFilename: string): (name: string)
    ensures |name| <= |wheelFilename| && wheelFilename[..|name|] == name
  {
    FirstTwoPartsArePrefix(wheelFilename, '-');
    var parts := Split(wheelFilename, '-', 2);
    Join('-', parts[..if |parts| < 2 then |parts| else 2])
  }

  /** Joining the first two parts of `split(sep, 2)` gives a prefix of `s`. */
  lemma FirstTwoPartsArePrefix(s: string, sep: char)
    ensures var parts := Split(s, sep, 2);
      var joined := Join(sep, parts[..if |parts| < 2 then |parts| else 2]);
      |joined| <= |s| && s[..|joined|] == joined
  {
    var found := IndexOf(s, sep);
    if found.Some? {
      var i := found.value;
      var tail := s[i + 1..];
      var q := Split(tail, sep, 1)[0];
      SplitUnfold(s, sep, 2, i);
      var parts := Split(s, sep, 2);
      assert parts[..2] == [s[..i]] + [q];
      JoinCons(sep, s[..i], [q]);
      assert s[..i + 1 + |q|] == s[..i] + [sep] + tail[..|q|];
    }
  }

  /** The member path of a wheel's METADATA file: a prefix of the wheel
      filename followed by `.dist-info/METADATA`. */
  function FindMetadataInWheel(wheelFilename: string): (path: string)
    ensures |path| == |DistInfoName(wheelFilename)| + |MetadataSuffix|
    ensures path[|path| - |MetadataSuffix|..] == MetadataSuffix
    ensures wheelFilename[..|path| - |MetadataSuffix|] == path[..|path| - |MetadataSuffix|]
  {
    DistInfoName(wheelFilename) + MetadataSuffix
  }

  /** For a wheel named `<name>-<version>-<rest>` with dash-free name and
      version, the metadata path is `<name>-<version>.dist-info/METADATA`. */
  lemma MetadataPathOfStandardName(name: string, version: string, rest: string)
    requires '-' !in name && '-' !in version
    ensures FindMetadataInWheel(name + "-" + version + "-" + rest) == name + "-" + version + MetadataSuffix
  {
    var tail := version + ['-'] + rest;
    assert name + "-" + version + "-" + rest == name + ['-'] + tail;
    SplitAtFirst(name, '-', tail, 2);
    SplitAtFirst(version, '-', rest, 1);
    var parts := [name] + ([version] + [rest]);
    assert parts[..2] == [name] + [version];
    JoinCons('-', name, [version]);
  }

  /** A wheel filename with fewer than two dashes gives its whole filename as
      the dist-info name. */
  lemma MetadataPathFewDashes(head: string, tail: string)
    requires '-' !in head && '-' !in tail
    ensures FindMetadataInWheel(head) == head + MetadataSuffix
    ensures FindMetadataInWheel(head + "-" + tail) == head + "-" + tail + MetadataSuffix
  {
    assert IndexOf(head, '-') == None;
    assert Split(head, '-', 2) == [head];
    assert head + "-" + tail == head + ['-'] + tail;
    SplitAtFirst(head, '-', tail, 2);
    assert IndexOf(tail, '-') == None;
    assert Split(tail, '-', 1) == [tail];
    assert ([head] + [tail])[..2] == [head] + [tail];
    JoinCons('-', head, [tail]);
  }

  /** The gzip-tar member lookup: the requested name itself, then the name
      under the stem directory, and nothing else. */
  function FindFileInTgz(archive: Archive, stem: string, arcname: string): (r: Option<string>)
    ensures r.Some? ==> r.value in archive && (r.value == arcname || r.value == stem + "/" + arcname)
    ensures arcname in archive ==> r == Some(arcname)
    ensures r.None? <==> arcname !in archive && stem + "/" + arcname !in archive
  {
    if arcname in archive then Some(arcname)
    else if stem + "/" + arcname in archive then Some(stem + "/" + arcname)
    else None
  }

  /** `Wheel.read_file` once the archive is unpacked. */
  function ReadWheel(wheelFilename: string, name: string, archive: Archive): (r: Result<Bytes, ReadError>)
    ensures name != "METADATA" ==> r == Failure(FileNotFound)
    ensures r.Success? ==> FindMetadataInWheel(wheelFilename) in archive && r.value == archive[FindMetadataInWheel(wheelFilename)]
    ensures name == "METADATA" && r.Failure? ==>
      r.error == KeyError(FindMetadataInWheel(wheelFilename)) && FindMetadataInWheel(wheelFilename) !in archive
  {
    if name != "METADATA" then Failure(FileNotFound)
    else
      var path := FindMetadataInWheel(wheelFilename);
      if path in archive then Success(archive[path]) else Failure(KeyError(path))
  }

  /** `TarGzSdist.read_file` once the archive is unpacked. */
  function ReadTarGz(stem: string, name: string, archive: Archive): (r: Result<Bytes, ReadError>)
    ensures r.Failure? ==> r.error == FileNotFound
    ensures r.Success? <==> name in SdistUsefulFilenames && (name in archive || stem + "/" + name in archive)
    ensures r.Success? && name in archive ==> r.value == archive[name]
    ensures r.Success? && name !in archive ==> r.value == archive[stem + "/" + name]
  {
    if name !in SdistUsefulFilenames then Failure(FileNotFound)
    else match FindFileInTgz(archive, stem, name)
      case None => Failure(FileNotFound)
      case Some(member) => Success(archive[member])
  }

  /** `ZipSdist.read_file` once the archive is unpacked. */
  function ReadZipSdist(name: string, archive: Archive): (r: Result<Bytes, ReadError>)
    ensures r.Failure? ==> r.error == FileNotFound
    ensures r.Success? <==> name in SdistUsefulFilenames && name in archive
    ensures r.Success? ==> r.value == archive[name]
  {
    if name !in SdistUsefulFilenames then Failure(FileNotFound)
    else if name in archive then Success(archive[name])
    else Failure(FileNotFound)
  }

  /** Whether an entry of this kind fetches its archive for `name`, i.e.
      whether the name passes the kind's gate. */
  predicate PassesGate(kind: Kind, name: string): (passes: bool)
    ensures passes <==> name in UsefulFilenamesOf(kind)
  {
    match kind
    case Wheel => name == "METADATA"
    case TarGzSdist => name in SdistUsefulFilenames
    case ZipSdist => name in SdistUsefulFilenames
    case Unsupported => false
  }

  /** The result of `e.read_file(name)` given the unpacked archive. */
  function ReadFromArchive(e: Entry, name: string, archive: Archive): (r: Result<Bytes, ReadError>)
    ensures !PassesGate(e.kind, name) ==> r == Failure(FileNotFound)
    ensures r.Success? ==> r.value in archive.Values
    ensures r.Failure? && r.error.KeyError? ==> e.kind == Wheel && r.error.member !in archive
  {
    match e.kind
    case Wheel => ReadWheel(e.Filename(), name, archive)
    case TarGzSdist => ReadTarGz(e.Stem(), name, archive)
    case ZipSdist => ReadZipSdist(name, archive)
    case Unsupported => Failure(FileNotFound)
  }

  /** A gzip-tar entry reads the exact member when there is one, even if the
      stem-nested member exists too; otherwise the stem-nested member;
      otherwise nothing. */
  lemma TarGzResolution(e: Entry, name: string, archive: Archive)
    requires e.kind == TarGzSdist && name in SdistUsefulFilenames
    ensures name in archive ==> ReadFromArchive(e, name, archive) == Success(archive[name])
    ensures name !in archive && e.Stem() + "/" + name in archive ==>
      ReadFromArchive(e, name, archive) == Success(archive[e.Stem() + "/" + name])
    ensures name !in archive && e.Stem() + "/" + name !in archive ==>
      ReadFromArchive(e, name, archive) == Failure(FileNotFound)
  {
  }

  /** A zip sdist reads only the exact member: with that member absent the
      read fails, whatever else the archive holds. */
  lemma ZipSdistExactLookup(e: Entry, name: string, archive: Archive)
    requires e.kind == ZipSdist && name in SdistUsefulFilenames
    ensures name in archive ==> ReadFromArchive(e, name, archive) == Success(archive[name])
    ensures name !in archive ==> ReadFromArchive(e, name, archive) == Failure(FileNotFound)
  {
  }

  /** A wheel named `<name>-<version>-<rest>` reads its METADATA from
      `<name>-<version>.dist-info/METADATA`, and a missing member is a
      KeyError, not FileNotFound. */
  lemma WheelReadsDistInfo(e: Entry, name: string, version: string, rest: string, archive: Archive)
    requires e.kind == Wheel && e.Filename() == name + "-" + version + "-" + rest
    requires '-' !in name && '-' !in version
    ensures var path := name + "-" + version + MetadataSuffix;
      ReadFromArchive(e, "METADATA", archive) == if path in archive then Success(archive[path]) else Failure(KeyError(path))
  {
    MetadataPathOfStandardName(name, version, rest);
  }

  /** The wheel from the listing of project "demo": its METADATA is read from
      `demo-1.0.dist-info/METADATA`, and "setup.py" is not offered. */
  lemma DemoWheelScenario(e: Entry, metadata: Bytes, archive: Archive)
    requires e.link.filename == "demo-1.0-py3-none-any.whl" && e.kind == Classify(e.link.filename)
    requires "demo-1.0" + MetadataSuffix in archive && archive["demo-1.0" + MetadataSuffix] == metadata
    ensures e.kind == Wheel
    ensures ReadFromArchive(e, "METADATA", archive) == Success(metadata)
    ensures ReadFromArchive(e, "setup.py", archive) == Failure(FileNotFound)
  {
    DemoFilename(e.link.filename);
    WheelReadsDistInfo(e, "demo", "1.0", "py3-none-any.whl", archive);
  }

  /** How the demo wheel's filename splits. */
  lemma DemoFilename(f: string)
    requires f == "demo-1.0-py3-none-any.whl"
    ensures EndsWith(f, ".whl")
    ensures f == "demo" + "-" + "1.0" + "-" + "py3-none-any.whl"
    ensures "demo" + "-" + "1.0" == "demo-1.0"
    ensures '-' !in "demo" && '-' !in "1.0"
  {
    assert f[|f| - 4..] == ".whl";
  }

  /** The metadata path of `requests-2.31.0-py3-none-any.whl`. */
  lemma RequestsMetadataPath(f: string)
    requires f == "requests-2.31.0-py3-none-any.whl"
    ensures FindMetadataInWheel(f) == "requests-2.31.0" + MetadataSuffix
  {
    var name, version, rest := "requests", "2.31.0", "py3-none-any.whl";
    assert f == name + "-" + version + "-" + rest;
    assert name + "-" + version == "requests-2.31.0";
    MetadataPathOfStandardName(name, version, rest);
  }

  /** An sdist `foo-1.0.tar.gz` whose archive holds only `foo-1.0/setup.py`
      reads that member for "setup.py". */
  lemma NestedSdistScenario(e: Entry, content: Bytes, archive: Archive)
    requires e.link.filename == "foo-1.0.tar.gz" && e.kind == Classify(e.link.filename)
    requires archive == map["foo-1.0" + "/" + "setup.py" := content]
    ensures e.kind == TarGzSdist && e.Stem() == "foo-1.0"
    ensures ReadFromArchive(e, "setup.py", archive) == Success(content)
  {
    var f := e.link.filename;
    assert f == "foo-1.0" + ".tar.gz";
    StemStripsSuffix(e);
    assert e.Stem() + ".tar.gz" == "foo-1.0" + ".tar.gz";
    assert e.Stem() == "foo-1.0";
    assert "setup.py" !in archive;
    assert FindFileInTgz(archive, e.Stem(), "setup.py") == Some("foo-1.0" + "/" + "setup.py");
  }
}
