/** Release artifacts of a project: the links the package index lists, the
    archive kind each filename is classified as, and the per-kind facts an
    entry exposes (its stem and the member names it offers to read). */
module Artifacts {
  import opened PyStr

  /** The four entry classes; the kind is decided by the filename alone. */
  datatype Kind = Wheel | TarGzSdist | ZipSdist | Unsupported

  /** One archive link of the simple listing. */
  datatype Link = Link(filename: string, url: string)

  /** One artifact of `project`, tagged with the class it was built as. */
  datatype Entry = Entry(project: string, link: Link, kind: Kind)
  {
    function Filename(): string
    {
      link.filename
    }

    /** The filename without its archive suffix: one dot-segment is removed,
        two for a gzip-compressed tar. `StemStripsSuffix` shows that exactly
        the classifying suffix goes. */
    function Stem(): (stem: string)
      ensures |stem| <= |Filename()| && Filename()[..|stem|] == stem
    {
      if kind == TarGzSdist then TarGzStem(link.filename) else DefaultStem(link.filename)
    }
  }

  /** The suffix tests of the listing loop, in their order. No filename
      carries two of the recognised suffixes, so each kind is chosen exactly
      when its own suffix is present, whatever the order of the tests. */
  function Classify(filename: string): (kind: Kind)
    ensures kind == Wheel <==> EndsWith(filename, ".whl")
    ensures kind == TarGzSdist <==> EndsWith(filename, ".tar.gz")
    ensures kind == ZipSdist <==> EndsWith(filename, ".zip")
    ensures kind == Unsupported <==>
      !EndsWith(filename, ".whl") && !EndsWith(filename, ".tar.gz") && !EndsWith(filename, ".zip")
  {
    SuffixesExclusive(filename);
    if EndsWith(filename, ".whl") then Wheel
    else if EndsWith(filename, ".tar.gz") then TarGzSdist
    else if EndsWith(filename, ".zip") then ZipSdist
    else Unsupported
  }

  /** The entry the listing loop builds for `link`: it keeps the project and
      the link, and its stem is the filename without the suffix that chose
      its class. */
  function MakeEntry(project: string, link: Link): (e: Entry)
    ensures e.project == project && e.link == link
    ensures e.kind == Classify(link.filename)
    ensures e.kind == Wheel ==> e.Stem() + ".whl" == link.filename
    ensures e.kind == TarGzSdist ==> e.Stem() + ".tar.gz" == link.filename
    ensures e.kind == ZipSdist ==> e.Stem() + ".zip" == link.filename
  {
    var e := Entry(project, link, Classify(link.filename));
    StemStripsSuffix(e);
    e
  }

  const SdistUsefulFilenames: seq<string> := ["pyproject.toml", "setup.cfg", "setup.py"]

  /** The member names each kind lists as readable: the wheel offers only its
      METADATA, the sdists their three build files, an unsupported entry
      nothing. */
  function UsefulFilenamesOf(kind: Kind): (names: seq<string>)
    ensures names == [] <==> kind == Unsupported
    ensures "METADATA" in names <==> kind == Wheel
    ensures "setup.py" in names <==> kind == TarGzSdist || kind == ZipSdist
  {
    match kind
    case Wheel => ["METADATA"]
    case TarGzSdist => SdistUsefulFilenames
    case ZipSdist => SdistUsefulFilenames
    case Unsupported => []
  }

  /** `filename.rsplit(".", 1)[0]` */
  function DefaultStem(filename: string): (stem: string)
    ensures |stem| <= |filename| && filename[..|stem|] == stem
  {
    RSplit(filename, '.', 1)[0]
  }

  /** `filename.rsplit(".", 2)[0]` */
  function TarGzStem(filename: string): (stem: string)
    ensures |stem| <= |filename| && filename[..|stem|] == stem
  {
    RSplit(filename, '.', 2)[0]
  }

  /** Two suffixes of one string: the shorter is a suffix of the longer. */
  lemma SuffixOfSuffix(s: string, short: string, long: string)
    requires EndsWith(s, short) && EndsWith(s, long) && |short| <= |long|
    ensures EndsWith(long, short)
  {
    assert long[|long| - |short|..] == s[|s| - |short|..];
  }

  /** No filename carries two of the recognised suffixes. */
  lemma SuffixesExclusive(filename: string)
    ensures !(EndsWith(filename, ".whl") && EndsWith(filename, ".tar.gz"))
    ensures !(EndsWith(filename, ".zip") && EndsWith(filename, ".tar.gz"))
    ensures !(EndsWith(filename, ".whl") && EndsWith(filename, ".zip"))
  {
    if EndsWith(filename, ".tar.gz") {
      if EndsWith(filename, ".whl") {
        SuffixOfSuffix(filename, ".whl", ".tar.gz");
      }
      if EndsWith(filename, ".zip") {
        SuffixOfSuffix(filename, ".zip", ".tar.gz");
      }
    }
  }

  /** The default stem cuts at the last dot: without a dot the filename is
      kept whole, otherwise the stem, a dot and a dot-free extension make up
      the filename. */
  lemma {:induction false} DefaultStemCutsLastDot(filename: string)
    ensures '.' !in filename ==> DefaultStem(filename) == filename
    ensures '.' in filename ==>
      var stem := DefaultStem(filename);
      |stem| < |filename| && filename == stem + "." + filename[|stem| + 1..] && '.' !in filename[|stem| + 1..]
  {
    var found := LastIndexOf(filename, '.');
    if found.Some? {
      var i := found.value;
      assert RSplit(filename, '.', 1) == RSplit(filename[..i], '.', 0) + [filename[i + 1..]];
      assert DefaultStem(filename) == filename[..i];
      assert filename == filename[..i] + "." + filename[i + 1..];
    }
  }

  /** Appending a dot and a dot-free extension is undone by the default stem. */
  lemma StemOfDotted(prefix: string, ext: string)
    requires '.' !in ext
    ensures DefaultStem(prefix + "." + ext) == prefix
  {
    var f := prefix + "." + ext;
    assert f[|prefix|] == '.';
    DefaultStemCutsLastDot(f);
    var stem := DefaultStem(f);
    assert f[..|stem|] == stem;
  }

  /** Removing two dot-segments is removing one segment twice. */
  lemma TarGzStemIsStemTwice(filename: string)
    ensures TarGzStem(filename) == DefaultStem(DefaultStem(filename))
  {
    var found := LastIndexOf(filename, '.');
    if found.Some? {
      var i := found.value;
      assert RSplit(filename, '.', 2) == RSplit(filename[..i], '.', 1) + [filename[i + 1..]];
      assert RSplit(filename, '.', 1) == RSplit(filename[..i], '.', 0) + [filename[i + 1..]];
    }
  }

  /** A filename ending in a dot and a dot-free extension loses exactly that
      suffix to the default stem. */
  lemma StripExtension(filename: string, ext: string)
    requires '.' !in ext && EndsWith(filename, "." + ext)
    ensures DefaultStem(filename) + "." + ext == filename
  {
    var head := filename[..|filename| - |ext| - 1];
    assert filename == head + "." + ext;
    StemOfDotted(head, ext);
  }

  /** A filename ending in `.tar.gz` loses exactly that suffix to the tar.gz
      stem. */
  lemma StripTarGz(filename: string)
    requires EndsWith(filename, ".tar.gz")
    ensures TarGzStem(filename) + ".tar.gz" == filename
  {
    var head := filename[..|filename| - 7];
    assert filename == (head + "." + "tar") + "." + "gz";
    StemOfDotted(head + "." + "tar", "gz");
    StemOfDotted(head, "tar");
    TarGzStemIsStemTwice(filename);
  }

  /** For each supported kind, the stem is the filename with exactly the
      suffix that classified it removed. */
  lemma StemStripsSuffix(e: Entry)
    requires e.kind == Classify(e.Filename())
    ensures e.kind == Wheel ==> e.Stem() + ".whl" == e.Filename()
    ensures e.kind == TarGzSdist ==> e.Stem() + ".tar.gz" == e.Filename()
    ensures e.kind == ZipSdist ==> e.Stem() + ".zip" == e.Filename()
  {
    match e.kind
    case Wheel =>
      assert "." + "whl" == ".whl";
      StripExtension(e.Filename(), "whl");
    case ZipSdist =>
      assert "." + "zip" == ".zip";
      StripExtension(e.Filename(), "zip");
    case TarGzSdist => StripTarGz(e.Filename());
    case Unsupported =>
  }
}
