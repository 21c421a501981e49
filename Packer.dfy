/** The packer object: its configuration fields, the recursive `remove`,
    the prune pass over the vendor tree and the plan `build` hands to the
    archive writer. */
module Packer {
  import opened Wrappers
  import opened PruneFilter
  import opened FileTree
  import opened Settings

  /** No entry in the log is logged before anything at or below it, and no
      entry is logged twice: children go before their directory. */
  ghost predicate PostOrder(log: seq<Path>) {
    forall i, j :: 0 <= i < j < |log| ==> !IsPrefix(log[i], log[j])
  }

  lemma PostOrderAppend(a: seq<Path>, b: seq<Path>)
    requires PostOrder(a) && PostOrder(b)
    requires forall i, j :: 0 <= i < |a| && 0 <= j < |b| ==> !IsPrefix(a[i], b[j])
    ensures PostOrder(a + b)
  {
  }

  /** Removing one more child of `src` (with all below it) advances the
      removal loop, and what goes is exactly what lies under that child. */
  lemma RemoveChildStep(t0: Tree, src: Path, done: set<string>, c: string)
    requires src in t0 && c !in done
    ensures |Subtree(WithoutChildren(t0, src, done), src + [c])| < |Subtree(t0, src)|
    ensures Without(WithoutChildren(t0, src, done), src + [c]) == WithoutChildren(t0, src, done + {c})
  {
    forall q {
      UnderOneChild(src, c, q);
    }
    SubtreeShrinks(t0, WithoutChildren(t0, src, done), src, c);
  }

  /** The deletion log of the removal loop, extended by the log of one more
      child, still lists exactly what lies under the children handled so
      far, in post-order. */
  lemma RemoveLogStep(t0: Tree, src: Path, done: set<string>, c: string, a: seq<Path>, b: seq<Path>)
    requires c !in done
    requires forall q :: q in a <==> q in t0 && UnderChild(src, done, q)
    requires forall q :: q in b <==> q in Subtree(WithoutChildren(t0, src, done), src + [c])
    requires PostOrder(a) && PostOrder(b)
    ensures forall q :: q in a + b <==> q in t0 && UnderChild(src, done + {c}, q)
    ensures PostOrder(a + b)
  {
    forall q {
      UnderOneChild(src, c, q);
    }
    forall i, j | 0 <= i < |a| && 0 <= j < |b|
      ensures !IsPrefix(a[i], b[j])
    {
      assert a[i] in a && b[j] in b;
      SiblingsUnrelated(src, a[i], b[j], done, c);
    }
    PostOrderAppend(a, b);
  }

  /** Logging the directory itself after everything below it keeps the log in post-order. */
  lemma RemoveLogFinish(t0: Tree, src: Path, a: seq<Path>)
    requires WellFormed(t0) && src in t0 && t0[src].Dir?
    requires forall q :: q in a <==> q in t0 && UnderChild(src, ChildNames(t0, src), q)
    requires PostOrder(a)
    ensures forall q :: q in a + [src] <==> q in Subtree(t0, src)
    ensures PostOrder(a + [src])
  {
    RemoveFinish(t0, src);
    forall i, j | 0 <= i < |a| && 0 <= j < 1
      ensures !IsPrefix(a[i], [src][j])
    {
      assert a[i] in a;
    }
    PostOrderAppend(a, [src]);
  }

  /** Once every child of a directory is gone, removing the directory itself
      leaves the tree without the whole subtree. */
  lemma RemoveFinish(t0: Tree, src: Path)
    requires WellFormed(t0) && src in t0 && t0[src].Dir?
    ensures WithoutChildren(t0, src, ChildNames(t0, src)) - {src} == Without(t0, src)
    ensures forall q :: q in Subtree(t0, src) <==> q == src || (q in t0 && UnderChild(src, ChildNames(t0, src), q))
  {
    forall q | q in t0 && IsPrefix(src, q) && q != src
      ensures UnderChild(src, ChildNames(t0, src), q)
    {
      BelowIsUnderChild(t0, src, q);
    }
  }

  /** Walking a subdirectory advances the walk loop over its parent. */
  lemma WalkStep(t0: Tree, vendorPath: string, dir: Path, done: set<string>, c: string)
    requires dir in t0 && c in ChildNames(t0, dir) && c !in done
    ensures dir + [c] in PrunedChildren(t0, vendorPath, dir, done)
    ensures |Subtree(PrunedChildren(t0, vendorPath, dir, done), dir + [c])| < |Subtree(t0, dir)|
    ensures PrunedBelow(PrunedChildren(t0, vendorPath, dir, done), vendorPath, dir + [c])
      == PrunedChildren(t0, vendorPath, dir, done + {c})
  {
    ChildNamed(t0, dir, c);
    forall q {
      UnderOneChild(dir, c, q);
    }
    SubtreeShrinks(t0, PrunedChildren(t0, vendorPath, dir, done), dir, c);
  }

  /** Below a leaf file, pruning removes the file itself exactly when it is marked. */
  lemma PrunedBelowLeaf(t: Tree, vendorPath: string, child: Path)
    requires WellFormed(t) && child in t && child != [] && t[child].File?
    ensures Marked(vendorPath, child) ==> PrunedBelow(t, vendorPath, child) == t - {child}
    ensures !Marked(vendorPath, child) ==> PrunedBelow(t, vendorPath, child) == t
  {
    NothingBelowLeaf(t, child);
    var r := PrunedBelow(t, vendorPath, child);
    forall q | q in t && q != child
      ensures q in r && r[q] == t[q]
    {
      assert IsPrefix(child, q) ==> q in Subtree(t, child);
    }
    if Marked(vendorPath, child) {
      assert r.Keys == t.Keys - {child};
    } else {
      assert r.Keys == t.Keys;
    }
  }

  /** Once every child has been visited, the walk has pruned the whole directory. */
  lemma WalkFinish(t0: Tree, vendorPath: string, dir: Path)
    requires WellFormed(t0) && dir in t0 && t0[dir].Dir?
    ensures PrunedChildren(t0, vendorPath, dir, ChildNames(t0, dir)) == PrunedBelow(t0, vendorPath, dir)
  {
    forall q | q in t0 && IsPrefix(dir, q) && q != dir
      ensures UnderChild(dir, ChildNames(t0, dir), q)
    {
      BelowIsUnderChild(t0, dir, q);
    }
  }

  /** Pruning removes only files, so the tree stays well formed. */
  lemma PrunedBelowWellFormed(t: Tree, vendorPath: string, dir: Path)
    requires WellFormed(t)
    ensures WellFormed(PrunedBelow(t, vendorPath, dir))
  {
  }

  /** What `build` hands to the archive writer once the vendor tree is pruned. */
  datatype BuildPlan = BuildPlan(archivePath: string, compression: Compression, stub: string)

  class Paerius {
    const workingPath: string
    const vendorPath: string
    const baseName: string
    /** The file system below the vendor directory. */
    var entries: Tree

    /** The vendor root is a directory of a well-formed tree. */
    ghost predicate Valid()
      reads this
    {
      WellFormed(entries) && [] in entries && entries[[]].Dir?
    }

    /** The constructor, for arguments it accepts (the others are the
        errors of `Configure`). */
    constructor (workingPath: string, baseName: Option<string>, isDir: set<string>, vendor: Tree)
      requires Configure(workingPath, baseName, isDir).Ok?
      requires WellFormed(vendor) && [] in vendor && vendor[[]].Dir?
      ensures Valid()
      ensures Config(this.workingPath, this.vendorPath, this.baseName) == Configure(workingPath, baseName, isDir).value
      ensures entries == vendor
    {
      var config := Configure(workingPath, baseName, isDir).value;
      this.workingPath := config.workingPath;
      this.vendorPath := config.vendorPath;
      this.baseName := config.baseName;
      entries := vendor;
    }

    /** Delete `src` and everything below it, children before their
        directory; a path that does not exist is left alone. `deleted` lists
        the paths deleted, in the order they go. */
    method Remove(src: Path) returns (ghost deleted: seq<Path>)
      requires WellFormed(entries)
      modifies this
      ensures WellFormed(entries)
      ensures entries == Without(old(entries), src)
      ensures forall q :: q in deleted <==> q in Subtree(old(entries), src)
      ensures PostOrder(deleted)
      decreases |Subtree(entries, src)|, 1
    {
      if src in entries && entries[src].Dir? {
        ghost var t0 := entries;
        deleted := RemoveChildren(src);
        RemoveLogFinish(t0, src, deleted);
        RemoveFinish(t0, src);
        WithoutWellFormed(t0, src);
        entries := entries - {src};
        deleted := deleted + [src];
      } else {
        WithoutLeaf(entries, src);
        NothingBelowLeaf(entries, src);
        deleted := [];
        if src in entries {
          entries := entries - {src};
          deleted := [src];
        }
      }
    }

    /** The listing loop of `remove`: every entry the directory `src` lists
        is removed with everything below it; `src` itself stays. */
    method RemoveChildren(src: Path) returns (ghost deleted: seq<Path>)
      requires WellFormed(entries) && src in entries
      modifies this
      ensures WellFormed(entries)
      ensures entries == WithoutChildren(old(entries), src, ChildNames(old(entries), src))
      ensures forall q :: q in deleted <==> q in old(entries) && UnderChild(src, ChildNames(old(entries), src), q)
      ensures PostOrder(deleted)
      decreases |Subtree(entries, src)|, 0
    {
      ghost var t0 := entries;
      deleted := [];
      var pending := ChildNames(entries, src);
      ghost var done: set<string> := {};
      while pending != {}
        invariant WellFormed(entries)
        invariant pending !! done && pending + done == ChildNames(t0, src)
        invariant entries == WithoutChildren(t0, src, done)
        invariant forall q :: q in deleted <==> q in t0 && UnderChild(src, done, q)
        invariant PostOrder(deleted)
        decreases pending
      {
        var c :| c in pending;
        RemoveChildStep(t0, src, done, c);
        ghost var below := Remove(src + [c]);
        RemoveLogStep(t0, src, done, c, deleted, below);
        deleted := deleted + below;
        pending := pending - {c};
        done := done + {c};
      }
    }

    /** The filtered leaves-only walk of `cleanupVendorDir` below `dir`:
        every entry of `dir` is visited, in whatever order the directory
        lists them. */
    method Walk(dir: Path)
      requires WellFormed(entries) && dir in entries && entries[dir].Dir?
      modifies this
      ensures WellFormed(entries)
      ensures entries == PrunedBelow(old(entries), vendorPath, dir)
      decreases |Subtree(entries, dir)|, 1
    {
      ghost var t0 := entries;
      var pending := ChildNames(entries, dir);
      ghost var done: set<string> := {};
      while pending != {}
        invariant WellFormed(entries)
        invariant pending !! done && pending + done == ChildNames(t0, dir)
        invariant entries == PrunedChildren(t0, vendorPath, dir, done)
        decreases pending
      {
        var c :| c in pending;
        WalkStep(t0, vendorPath, dir, done, c);
        Visit(dir, c);
        pending := pending - {c};
        done := done + {c};
      }
      WalkFinish(t0, vendorPath, dir);
    }

    /** One entry of the walk: the filter is asked with the entry's name,
        its directory's path and whether it has children; a directory is
        entered, a marked leaf file is handed to `remove` under the path
        `getPath() . '/' . getFilename()`. */
    method Visit(dir: Path, c: string)
      requires WellFormed(entries) && dir + [c] in entries
      modifies this
      ensures WellFormed(entries)
      ensures entries == PrunedBelow(old(entries), vendorPath, dir + [c])
      decreases |Subtree(entries, dir + [c])|, 2
    {
      var child := dir + [c];
      var hasChildren := entries[child].Dir?;
      if Filter(c, Render(vendorPath, dir), vendorPath, hasChildren) {
        if hasChildren {
          Walk(child);
        } else {
          PrunedBelowLeaf(entries, vendorPath, child);
          WithoutLeaf(entries, child);
          ghost var deleted := Remove(child);
        }
      } else {
        PrunedBelowLeaf(entries, vendorPath, child);
      }
    }

    /** `cleanupVendorDir`: prune the whole vendor tree. */
    method CleanupVendorDir()
      requires Valid()
      modifies this
      ensures Valid()
      ensures entries == Pruned(old(entries), vendorPath)
    {
      Walk([]);
    }

    /** `build`: prune the vendor tree, then describe the archive to write:
        its path under the working directory, its compression and its stub. */
    method Build(force: Option<string>, supported: seq<string>) returns (plan: BuildPlan)
      requires Valid()
      modifies this
      ensures Valid()
      ensures entries == Pruned(old(entries), vendorPath)
      ensures plan.archivePath == ArchivePath(Config(workingPath, vendorPath, baseName))
      ensures plan.compression == SelectCompression(force, supported)
      ensures plan.stub == Stub(baseName)
    {
      var archivePath := ArchivePath(Config(workingPath, vendorPath, baseName));
      CleanupVendorDir();
      plan := BuildPlan(archivePath, SelectCompression(force, supported), Stub(baseName));
    }
  }
}
