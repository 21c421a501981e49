/** The vendor directory as an in-memory tree: every entry is named by the
    sequence of its path segments below the vendor root, and is a regular
    file or a directory. The specification of the prune pass lives here. */
module FileTree {
  import opened PhpStrings
  import opened PruneFilter

  datatype Node = File(content: seq<bv8>) | Dir

  /** Segments below the vendor root; `[]` is the vendor root itself. */
  type Path = seq<string>

  type Tree = map<Path, Node>

  /** A name a directory listing can hold besides the `.` and `..` self-references. */
  predicate ValidName(s: string) {
    s != "" && '/' !in s && s != "." && s != ".."
  }

  predicate ValidSegments(p: Path) {
    forall i :: 0 <= i < |p| ==> ValidName(p[i])
  }

  function Parent(p: Path): Path
    requires p != []
  {
    p[..|p| - 1]
  }

  function Name(p: Path): string
    requires p != []
  {
    p[|p| - 1]
  }

  predicate IsPrefix(p: Path, q: Path) {
    |p| <= |q| && q[..|p|] == p
  }

  /** Every entry but the root sits in a directory that is itself an entry,
      and every segment is a proper name. */
  ghost predicate WellFormed(t: Tree) {
    && (forall q | q in t && q != [] :: Parent(q) in t && t[Parent(q)].Dir?)
    && (forall q | q in t :: ValidSegments(q))
  }

  /** The path string the directory iterator hands out for the entry `p`
      below a root named `root`: each level appends `/` and the entry's name,
      as `getPath() . '/' . getFilename()` does and as `remove` does when it
      recurses. */
  function Render(root: string, p: Path): string {
    if p == [] then root else Render(root, Parent(p)) + "/" + Name(p)
  }

  /** The rendered path is the root, a separator and the joined segments. */
  lemma {:induction false} RenderIsImplode(root: string, p: Path)
    requires p != []
    ensures Render(root, p) == root + ['/'] + Implode('/', p)
  {
    if |p| == 1 {
      assert Parent(p) == [];
    } else {
      RenderIsImplode(root, Parent(p));
      ImplodeAppend('/', Parent(p), Name(p));
      assert Parent(p) + [Name(p)] == p;
    }
  }

  /** Cutting the vendor path off a rendered path leaves a separator and the
      joined segments. */
  lemma RenderTail(vendorPath: string, p: Path)
    requires p != []
    ensures Substr(Render(vendorPath, p), |vendorPath|) == ['/'] + Implode('/', p)
  {
    RenderIsImplode(vendorPath, p);
    SubstrAfter(vendorPath, '/', Implode('/', p));
  }

  /** The directory names the filter recovers from a rendered containing
      directory are exactly its segments (`['']` at the root). */
  lemma DirnamesOfRender(vendorPath: string, p: Path)
    requires ValidSegments(p)
    ensures Dirnames(Render(vendorPath, p), vendorPath) == if p == [] then [""] else p
  {
    if p == [] {
      assert Substr(vendorPath, |vendorPath|) == "";
      assert Trim("", '/') == "";
    } else {
      var joined := Implode('/', p);
      RenderTail(vendorPath, p);
      ImplodeEnds('/', p);
      assert joined[0] == p[0][0] && joined[0] in p[0];
      assert joined[|joined| - 1] in p[|p| - 1];
      TrimOneLeading('/', joined);
      ExplodeImplode('/', p);
    }
  }

  /** Some directory strictly between the vendor root and the entry has a
      deny-listed name. */
  predicate BelowDeniedDirectory(q: Path) {
    exists i :: 0 <= i < |q| - 1 && q[i] in DELETE_DIRECTORY_NAMES
  }

  /** The filter's verdict on the leaf `q`, asked as the walk asks it. */
  predicate Marked(vendorPath: string, q: Path)
    requires q != []
  {
    Filter(Name(q), Render(vendorPath, Parent(q)), vendorPath, false)
  }

  /** The root's lone empty segment is not a deny-listed directory name. */
  lemma NoDeniedSegmentAtRoot()
    ensures !HasDeniedSegment([""])
  {
  }

  /** A leaf is marked exactly when a directory above it (below the vendor
      root) is deny-listed, or its own name is, whatever the vendor path. */
  lemma MarkedIff(vendorPath: string, q: Path)
    requires q != [] && ValidSegments(q)
    ensures Marked(vendorPath, q) <==> BelowDeniedDirectory(q) || DeniedLeafName(Name(q))
  {
    DirnamesOfRender(vendorPath, Parent(q));
    if Parent(q) == [] {
      NoDeniedSegmentAtRoot();
    } else {
      assert HasDeniedSegment(Parent(q)) <==> BelowDeniedDirectory(q) by {
        if HasDeniedSegment(Parent(q)) {
          var i :| 0 <= i < |Parent(q)| && Parent(q)[i] in DELETE_DIRECTORY_NAMES;
          assert q[i] == Parent(q)[i];
        }
        if BelowDeniedDirectory(q) {
          var i :| 0 <= i < |q| - 1 && q[i] in DELETE_DIRECTORY_NAMES;
          assert Parent(q)[i] == q[i];
        }
      }
    }
  }

  /** The entries at or below `src`. */
  function Subtree(t: Tree, src: Path): set<Path> {
    set q | q in t && IsPrefix(src, q)
  }

  /** The tree once `src` and everything below it are gone. */
  function Without(t: Tree, src: Path): Tree {
    map q | q in t && !IsPrefix(src, q) :: t[q]
  }

  /** The tree once every marked leaf file at or below `dir` is gone. */
  function PrunedBelow(t: Tree, vendorPath: string, dir: Path): Tree {
    map q | q in t && !(IsPrefix(dir, q) && q != [] && t[q].File? && Marked(vendorPath, q)) :: t[q]
  }

  /** The vendor tree after the prune pass: the marked leaf files are gone,
      every directory and every other file is kept unchanged. */
  function Pruned(t: Tree, vendorPath: string): (r: Tree)
    ensures forall q :: q in t && t[q].Dir? ==> q in r
    ensures forall q :: q in r ==> q in t && r[q] == t[q]
    ensures forall q :: q in t && q != [] && t[q].File? ==> (q in r <==> !Marked(vendorPath, q))
  {
    PrunedBelow(t, vendorPath, [])
  }

  /** Every prefix of an entry is an entry, and a directory. */
  lemma {:induction false} PrefixClosed(t: Tree, q: Path, k: nat)
    requires WellFormed(t) && q in t && k < |q|
    ensures q[..k] in t && t[q[..k]].Dir?
    decreases |q| - k
  {
    assert Parent(q) in t;
    if k < |q| - 1 {
      PrefixClosed(t, Parent(q), k);
      assert Parent(q)[..k] == q[..k];
    } else {
      assert q[..k] == Parent(q);
    }
  }

  /** Nothing lies strictly below a missing path or a file. */
  lemma NothingBelowLeaf(t: Tree, src: Path)
    requires WellFormed(t) && (src !in t || t[src].File?)
    ensures Subtree(t, src) <= {src}
  {
    forall q | q in t && IsPrefix(src, q)
      ensures q == src
    {
      if |q| > |src| {
        PrefixClosed(t, q, |src|);
      }
    }
  }

  /** Removing a path that does not exist changes nothing; removing a file
      removes just that file. */
  lemma WithoutLeaf(t: Tree, src: Path)
    requires WellFormed(t) && (src !in t || t[src].File?)
    ensures Without(t, src) == t - {src}
  {
    NothingBelowLeaf(t, src);
    assert forall q :: q in t && IsPrefix(src, q) ==> q in Subtree(t, src);
  }

  /** Removing a whole subtree keeps the tree well formed. */
  lemma WithoutWellFormed(t: Tree, src: Path)
    requires WellFormed(t)
    ensures WellFormed(Without(t, src))
  {
  }

  /** Pruning removes only files, which have nothing below them, so the
      tree stays well formed. */
  lemma PrunedWellFormed(t: Tree, vendorPath: string)
    requires WellFormed(t)
    ensures WellFormed(Pruned(t, vendorPath))
  {
  }

  /** A second prune pass deletes nothing further. */
  lemma PrunedIdempotent(t: Tree, vendorPath: string)
    ensures Pruned(Pruned(t, vendorPath), vendorPath) == Pruned(t, vendorPath)
  {
  }

  /** After pruning, a file survives exactly when no directory above it is
      deny-listed and neither its lower-cased extension nor its exact name is. */
  lemma PrunedSurvivors(t: Tree, vendorPath: string, q: Path)
    requires WellFormed(t) && q in t && q != [] && t[q].File?
    ensures q in Pruned(t, vendorPath) <==> !BelowDeniedDirectory(q) && !DeniedLeafName(Name(q))
  {
    MarkedIff(vendorPath, q);
  }

  /** A deny-listed directory survives the prune pass, but emptied of files:
      only directories remain below it. */
  lemma DeniedDirectoryEmptied(t: Tree, vendorPath: string, d: Path)
    requires WellFormed(t) && d in t && d != [] && t[d].Dir? && Name(d) in DELETE_DIRECTORY_NAMES
    ensures d in Pruned(t, vendorPath)
    ensures forall q :: q in Pruned(t, vendorPath) && IsPrefix(d, q) ==> Pruned(t, vendorPath)[q].Dir?
  {
    var r := Pruned(t, vendorPath);
    forall q | q in r && IsPrefix(d, q)
      ensures r[q].Dir?
    {
      if q != d && t[q].File? {
        assert q[|d| - 1] == d[|d| - 1];
        MarkedIff(vendorPath, q);
      }
    }
  }

  /** The names of the entries directly inside `dir`. */
  function ChildNames(t: Tree, dir: Path): set<string> {
    set q | q in t && |q| == |dir| + 1 && q[..|dir|] == dir :: q[|dir|]
  }

  /** A listed name is an entry of the directory. */
  lemma ChildNamed(t: Tree, dir: Path, c: string)
    requires c in ChildNames(t, dir)
    ensures dir + [c] in t
  {
    var q :| q in t && |q| == |dir| + 1 && q[..|dir|] == dir && q[|dir|] == c;
    assert q == q[..|dir|] + [q[|dir|]];
  }

  /** `q` lies at or below one of the children of `dir` named in `names`. */
  predicate UnderChild(dir: Path, names: set<string>, q: Path) {
    |dir| < |q| && q[..|dir|] == dir && q[|dir|] in names
  }

  /** The tree once the children of `src` named in `names` are removed with
      everything below them. */
  function WithoutChildren(t: Tree, src: Path, names: set<string>): Tree {
    map q | q in t && !UnderChild(src, names, q) :: t[q]
  }

  /** The tree once the marked leaf files below the children of `dir` named
      in `names` are removed. */
  function PrunedChildren(t: Tree, vendorPath: string, dir: Path, names: set<string>): Tree {
    map q | q in t && !(UnderChild(dir, names, q) && t[q].File? && Marked(vendorPath, q)) :: t[q]
  }

  /** Being at or below the child `c` of `dir` is being under the child named `c`. */
  lemma UnderOneChild(dir: Path, c: string, q: Path)
    ensures IsPrefix(dir + [c], q) <==> UnderChild(dir, {c}, q)
  {
  }

  /** Entries below two differently named children of the same directory
      are never prefixes of one another. */
  lemma SiblingsUnrelated(dir: Path, x: Path, y: Path, names: set<string>, c: string)
    requires UnderChild(dir, names, x) && UnderChild(dir, {c}, y) && c !in names
    ensures !IsPrefix(x, y) && !IsPrefix(y, x)
  {
  }

  /** Every entry strictly below a directory is under one of its children. */
  lemma BelowIsUnderChild(t: Tree, dir: Path, q: Path)
    requires WellFormed(t) && q in t && IsPrefix(dir, q) && q != dir
    ensures UnderChild(dir, ChildNames(t, dir), q)
  {
    var child := q[..|dir| + 1];
    if |dir| + 1 < |q| {
      PrefixClosed(t, q, |dir| + 1);
    } else {
      assert child == q;
    }
    assert child[..|dir|] == dir && child[|dir|] == q[|dir|];
  }

  /** A subset is no larger than its superset. */
  lemma {:induction false} SubsetCardinality<T>(a: set<T>, b: set<T>)
    requires a <= b
    ensures |a| <= |b|
    decreases a
  {
    if a != {} {
      var x :| x in a;
      SubsetCardinality(a - {x}, b - {x});
    }
  }

  /** The entries below a child of `src`, in a tree that has lost entries
      since, are fewer than those at or below `src` before: the recursion of
      `remove` and of the directory walk ends. */
  lemma SubtreeShrinks(t: Tree, e: Tree, src: Path, c: string)
    requires src in t && e.Keys <= t.Keys
    ensures |Subtree(e, src + [c])| < |Subtree(t, src)|
  {
    forall q | q in Subtree(e, src + [c])
      ensures q in Subtree(t, src) - {src}
    {
      assert q[..|src|] == (src + [c])[..|src|];
    }
    SubsetCardinality(Subtree(e, src + [c]), Subtree(t, src) - {src});
  }

  /** Directory names are matched as whole segments strictly above the
      entry: `mytests` is not `tests`, and the entry's own name is not looked at. */
  lemma DirectoryExamples()
    ensures BelowDeniedDirectory(["pkg", "tests", "t.ext"])
    ensures !BelowDeniedDirectory(["pkg", "mytests", "t.ext"])
    ensures !BelowDeniedDirectory(["pkg", "tests"])
    ensures !BelowDeniedDirectory(["pkg", ".DS_Store"])
  {
    assert ["pkg", "tests", "t.ext"][1] == "tests";
  }
}
