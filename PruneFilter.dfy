/** The deny-lists and the per-entry decision the vendor walk asks of each
    directory entry: descend into it, delete it, or leave it. */
module PruneFilter {
  import opened Wrappers
  import opened PhpStrings

  /** Exact file names, compared case-sensitively. */
  const DELETE_BASENAMES: seq<string> :=
    ["LICENSE", ".styleci.yml", ".travis.yml", ".gitattributes", "phpunit.xml.dist", "README.rst",
     "CHANGELOG", "CHANGES", "README", "VERSION", ".php_cs.dist", ".php_cs", ".editorconfig",
     "php_cs.xml", "phpunit.xml", "phpcs.xml", ".codecov.yml", "AUTHORS", "Makefile", ".gitignore"]

  /** Directory names; an entry below one of them is deleted whatever it is called. */
  const DELETE_DIRECTORY_NAMES: seq<string> :=
    [".git", "tests", "Tests", "test", "doc", "testing", "test_old", ".svn", ".cvs", ".idea",
     ".DS_Store", ".hg"]

  /** Lower-case extensions. */
  const DELETE_EXTENSIONS: seq<string> := ["md", "gitignore", "markdown", "hprof", "pyc"]

  /** The position of the last dot among the first `k` characters of `name`. */
  function LastDotBefore(name: string, k: nat): (pos: Option<nat>)
    requires k <= |name|
    ensures pos.Some? ==> pos.value < k
  {
    if k == 0 then None
    else if name[k - 1] == '.' then Some(k - 1)
    else LastDotBefore(name, k - 1)
  }

  /** The search finds a dot with no dot after it, or reports that there is none. */
  lemma {:induction false} LastDotBeforeSpec(name: string, k: nat)
    requires k <= |name|
    ensures LastDotBefore(name, k).Some? ==>
      var pos := LastDotBefore(name, k).value;
      pos < k && name[pos] == '.' && forall j :: pos < j < k ==> name[j] != '.'
    ensures LastDotBefore(name, k).None? ==> forall j :: 0 <= j < k ==> name[j] != '.'
  {
    if k > 0 && name[k - 1] != '.' {
      LastDotBeforeSpec(name, k - 1);
    }
  }

  /** `pathinfo($name, PATHINFO_EXTENSION)` for a name without `/`: the text
      after the last dot, and the empty string when there is no dot. */
  function Extension(name: string): string {
    match LastDotBefore(name, |name|)
    case None => ""
    case Some(i) => name[i + 1..]
  }

  /** The extension is the dot-free tail after the last dot, and empty when
      the name has no dot. */
  lemma ExtensionSpec(name: string)
    ensures '.' !in Extension(name)
    ensures |Extension(name)| <= |name| && Extension(name) == name[|name| - |Extension(name)|..]
    ensures '.' in name ==> |Extension(name)| < |name| && name[|name| - |Extension(name)| - 1] == '.'
    ensures '.' !in name ==> Extension(name) == ""
  {
    LastDotBeforeSpec(name, |name|);
  }

  /** The extension of `base.ext` is `ext` whenever `ext` has no dot,
      whatever `base` holds (so `.gitignore` has extension `gitignore`). */
  lemma ExtensionOf(base: string, ext: string)
    requires '.' !in ext
    ensures Extension(base + "." + ext) == ext
  {
    var name := base + "." + ext;
    LastDotBeforeSpec(name, |name|);
    assert name[|base|] == '.';
    assert forall j :: |base| < j < |name| ==> name[j] == ext[j - |base| - 1];
    assert name[|base| + 1..] == ext;
  }

  /** A name without a dot has the empty extension. */
  lemma ExtensionWithoutDot(name: string)
    requires '.' !in name
    ensures Extension(name) == ""
  {
    LastDotBeforeSpec(name, |name|);
  }

  /** The directory-name segments between the vendor root and an entry whose
      containing directory is `path`: strip the vendor prefix, trim the
      separators and split on them. */
  function Dirnames(path: string, vendorPath: string): seq<string> {
    Explode('/', Trim(Substr(path, |vendorPath|), '/'))
  }

  /** The entry's own name is deny-listed, by lower-cased extension or exactly. */
  predicate DeniedLeafName(name: string) {
    ToLower(Extension(name)) in DELETE_EXTENSIONS || name in DELETE_BASENAMES
  }

  /** Some segment of `dirnames` is a deny-listed directory name
      (`count(array_intersect(...)) > 0`). */
  predicate HasDeniedSegment(dirnames: seq<string>) {
    exists i :: 0 <= i < |dirnames| && dirnames[i] in DELETE_DIRECTORY_NAMES
  }

  /** The callback given to the recursive filter iterator. An entry with
      children is accepted so that the walk descends into it; a leaf is
      accepted, and so deleted, when it lies below a deny-listed directory or
      its lower-cased extension or exact name is deny-listed; `.` and `..`
      are never accepted. */
  function Filter(entry: string, path: string, vendorPath: string, hasChildren: bool): (accept: bool)
    ensures hasChildren ==> accept
    ensures !hasChildren && (entry == "." || entry == "..") ==> !accept
  {
    if hasChildren then true
    else if entry != "." && entry != ".." then
      var ext := ToLower(Extension(entry));
      var dirnames := Dirnames(path, vendorPath);
      if HasDeniedSegment(dirnames) then true
      else ext in DELETE_EXTENSIONS || entry in DELETE_BASENAMES
    else false
  }

  /** Names the rule deletes: a case-folded extension, a dot-file whose whole
      name is its extension, an exact name. */
  lemma DeniedNameExamples()
    ensures DeniedLeafName("NOTES.MD") && DeniedLeafName(".gitignore") && DeniedLeafName("LICENSE")
  {
    assert "NOTES.MD" == "NOTES" + "." + "MD";
    ExtensionOf("NOTES", "MD");
    assert ToLower("MD") == "md";
  }

  /** Exact names are case-sensitive, so `license` is kept; directory names
      are not consulted for the entry's own name, so a file named `tests` is
      kept. */
  lemma KeptNameExamples()
    ensures !DeniedLeafName("license") && !DeniedLeafName("tests")
  {
    ExtensionWithoutDot("license");
    ExtensionWithoutDot("tests");
  }
}
