/** What the packer's constructor and `build` compute without touching the
    vendor tree: the normalised paths, the archive path, the compression
    choice and the bootstrap stub. */
module Settings {
  import opened Wrappers
  import opened PhpStrings

  /** The archive file name used when the caller gives none. */
  const DEFAULT_BASENAME: string := "vendor.phar"

  /** The three fields the constructor sets. */
  datatype Config = Config(workingPath: string, vendorPath: string, baseName: string)

  /** Why construction fails: the two `RuntimeException`s of the path
      setters, and the type error raised when `null` reaches `setBaseName`. */
  datatype ConfigError =
    | WorkingPathNotDirectory(path: string)
    | VendorPathNotDirectory(path: string)
    | NullBaseName

  /** A run of separators only. */
  predicate AllSeparators(s: string) {
    forall i :: 0 <= i < |s| ==> s[i] == '/'
  }

  /** The constructor: strip every trailing separator from the working path,
      check that it and its `vendor` subdirectory are directories (in that
      order), then store the base name. `isDir` holds the path strings for
      which `is_dir` answers true; a caller that omits the base name passes
      `Some(DEFAULT_BASENAME)`. */
  function Configure(workingPath: string, baseName: Option<string>, isDir: set<string>): (r: Result<Config, ConfigError>)
    ensures r.Ok? ==>
      && r.value.workingPath <= workingPath
      && AllSeparators(workingPath[|r.value.workingPath|..])
      && (r.value.workingPath == "" || r.value.workingPath[|r.value.workingPath| - 1] != '/')
    ensures r.Ok? ==> r.value.vendorPath == r.value.workingPath + "/vendor"
    ensures r.Ok? ==> r.value.workingPath in isDir && r.value.vendorPath in isDir
    ensures r.Ok? ==> baseName == Some(r.value.baseName)
    ensures r.Err? && r.error.WorkingPathNotDirectory? ==> r.error.path !in isDir
    ensures r.Err? && r.error.VendorPathNotDirectory? ==>
      && r.error.path !in isDir
      && |r.error.path| >= 7
      && r.error.path[..|r.error.path| - 7] in isDir
      && r.error.path[|r.error.path| - 7..] == "/vendor"
    ensures RTrim(workingPath, '/') !in isDir ==>
      r == Err(WorkingPathNotDirectory(RTrim(workingPath, '/')))
    ensures RTrim(workingPath, '/') in isDir && RTrim(workingPath, '/') + "/vendor" !in isDir ==>
      r == Err(VendorPathNotDirectory(RTrim(workingPath, '/') + "/vendor"))
    ensures r == Err(NullBaseName) <==>
      RTrim(workingPath, '/') in isDir && RTrim(workingPath, '/') + "/vendor" in isDir && baseName.None?
  {
    RTrimSpec(workingPath, '/');
    var working := RTrim(workingPath, '/');
    var vendor := working + "/vendor";
    if working !in isDir then Err(WorkingPathNotDirectory(working))
    else if vendor !in isDir then Err(VendorPathNotDirectory(vendor))
    else if baseName.None? then Err(NullBaseName)
    else Ok(Config(working, vendor, baseName.value))
  }

  /** Construction succeeds exactly when both directories exist and a base
      name is given, and then the stored working path is the normalised one. */
  lemma ConfigureSucceeds(workingPath: string, baseName: Option<string>, isDir: set<string>)
    ensures Configure(workingPath, baseName, isDir).Ok? <==>
      RTrim(workingPath, '/') in isDir && RTrim(workingPath, '/') + "/vendor" in isDir && baseName.Some?
    ensures Configure(workingPath, baseName, isDir).Ok? ==>
      Configure(workingPath, baseName, isDir).value.workingPath == RTrim(workingPath, '/')
  {
  }

  /** Trailing separators make no difference to the configuration. */
  lemma ConfigureIgnoresTrailingSeparators(workingPath: string, baseName: Option<string>, isDir: set<string>)
    ensures Configure(workingPath + "/", baseName, isDir) == Configure(workingPath, baseName, isDir)
  {
    assert (workingPath + "/")[..|workingPath|] == workingPath;
  }

  /** `workingPath/baseName`, the file `build` replaces. */
  function ArchivePath(c: Config): string {
    c.workingPath + "/" + c.baseName
  }

  /** The archive path and the vendor path share the working path as their
      prefix, so they are the same path exactly when the base name is
      `vendor`. */
  lemma ArchiveBesideVendor(c: Config)
    requires c.vendorPath == c.workingPath + "/vendor"
    ensures ArchivePath(c) == c.vendorPath <==> c.baseName == "vendor"
  {
    if ArchivePath(c) == c.vendorPath {
      assert ArchivePath(c)[|c.workingPath| + 1..] == c.baseName;
      assert c.vendorPath[|c.workingPath| + 1..] == "vendor";
    }
  }

  /** Without an explicit base name the archive is `vendor.phar` in the
      normalised working directory. */
  lemma DefaultArchivePath(workingPath: string, isDir: set<string>)
    requires Configure(workingPath, Some(DEFAULT_BASENAME), isDir).Ok?
    ensures ArchivePath(Configure(workingPath, Some(DEFAULT_BASENAME), isDir).value)
      == RTrim(workingPath, '/') + "/vendor.phar"
  {
  }

  /** The fixed text before and after the base name in the bootstrap stub. */
  const STUB_HEAD: string := "<?php\n\\Phar::mapPhar();\nreturn require 'phar://"
  const STUB_TAIL: string := "/autoload.php';\n__HALT_COMPILER();"

  /** The bootstrap stub: map the archive under the alias `baseName`, hand
      over to its `autoload.php`, and stop the interpreter there. */
  function Stub(baseName: string): string {
    STUB_HEAD + baseName + STUB_TAIL
  }

  /** The alias a stub of this shape maps the archive under, if it has the shape. */
  function StubAlias(stub: string): Option<string> {
    if |STUB_HEAD| + |STUB_TAIL| <= |stub|
      && stub[..|STUB_HEAD|] == STUB_HEAD
      && stub[|stub| - |STUB_TAIL|..] == STUB_TAIL
    then Some(stub[|STUB_HEAD|..|stub| - |STUB_TAIL|])
    else None
  }

  /** The base name is embedded verbatim: it is read back out of the stub,
      so distinct base names give distinct stubs. */
  lemma StubAliasRoundTrip(baseName: string)
    ensures StubAlias(Stub(baseName)) == Some(baseName)
  {
  }

  /** The stub's entry point is `autoload.php` inside the archive mapped
      under the base name. */
  lemma StubRequiresAutoload(baseName: string)
    ensures Stub(baseName)[|STUB_HEAD| - 7..|STUB_HEAD| + |baseName| + 13] == "phar://" + baseName + "/autoload.php"
  {
    var stub := Stub(baseName);
    assert STUB_HEAD[|STUB_HEAD| - 7..] == "phar://";
    assert STUB_TAIL[..13] == "/autoload.php";
    assert stub[|STUB_HEAD| - 7..|STUB_HEAD| + |baseName| + 13]
      == STUB_HEAD[|STUB_HEAD| - 7..] + baseName + STUB_TAIL[..13];
  }

  /** The compression `build` applies to every stored file. */
  datatype Compression = Bzip2 | Gzip | Uncompressed

  /** The compression choice of `build`: a forced value picks bzip2 when it
      starts with `bz` and gzip when it starts with `gz`, ignoring case, and
      nothing otherwise; without one, bzip2 if the runtime lists `BZIP2`,
      else gzip if it lists `GZ`, else nothing. */
  function SelectCompression(force: Option<string>, supported: seq<string>): (c: Compression)
    ensures force.Some? ==> (c == Bzip2 <==> HasPrefixCI(force.value, "bz"))
    ensures force.Some? ==> (c == Gzip <==> !HasPrefixCI(force.value, "bz") && HasPrefixCI(force.value, "gz"))
    ensures force.None? ==> (c == Bzip2 <==> "BZIP2" in supported)
    ensures force.None? ==> (c == Gzip <==> "BZIP2" !in supported && "GZ" in supported)
  {
    var forced := if force.Some? then force.value else "";
    StriposAtStart(forced, "bz");
    StriposAtStart(forced, "gz");
    if (force.Some? && Stripos(force.value, "bz") == Some(0)) || (force.None? && "BZIP2" in supported) then Bzip2
    else if (force.Some? && Stripos(force.value, "gz") == Some(0)) || (force.None? && "GZ" in supported) then Gzip
    else Uncompressed
  }

  /** A forced value decides alone: what the runtime supports is not consulted. */
  lemma ForcedIgnoresSupport(force: string, supported: seq<string>, other: seq<string>)
    ensures SelectCompression(Some(force), supported) == SelectCompression(Some(force), other)
  {
  }

  /** Worked cases: `gzip` forces gzip even where bzip2 is available, `none`
      and the empty string force no compression, `BZ2` forces bzip2, and
      automatic detection prefers bzip2. */
  lemma CompressionExamples()
    ensures SelectCompression(Some("gzip"), ["BZIP2", "GZ"]) == Gzip
    ensures SelectCompression(Some("none"), ["BZIP2", "GZ"]) == Uncompressed
    ensures SelectCompression(Some(""), ["BZIP2", "GZ"]) == Uncompressed
    ensures SelectCompression(Some("BZ2"), []) == Bzip2
    ensures SelectCompression(None, ["GZ", "BZIP2"]) == Bzip2
    ensures SelectCompression(None, ["GZ"]) == Gzip
    ensures SelectCompression(None, ["bzip2"]) == Uncompressed
  {
    assert ToLower("gz") == "gz" && ToLower("no") == "no" && ToLower("BZ") == "bz";
    assert "gzip"[..2] == "gz" && "none"[..2] == "no" && "BZ2"[..2] == "BZ";
  }
}
