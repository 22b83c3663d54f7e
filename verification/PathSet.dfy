/** The file system as its users see it: a set of paths. A create is a function of
    that set alone, and so is every run of creates. */
module PathSet {
  import opened Options
  import opened FileTree
  import opened FileSystem

  type Path = seq<string>

  /** The paths that resolve. */
  ghost function Resolved(s: Fs): iset<Path> {
    iset path: Path | Walk(s, path).Some?
  }

  // ------------------------------------------------------------ create on path sets

  /** How many components of the path, from k on, resolve one after the other. */
  ghost function Depth(ps: iset<Path>, path: Path, k: nat): (d: nat)
    requires k <= |path|
    ensures k <= d <= |path|
    decreases |path| - k
  {
    if k < |path| && path[..k + 1] in ps then Depth(ps, path, k + 1) else k
  }

  /** The name stored with a path; the root's is empty. */
  function NameOf(path: Path): string {
    if path == [] then "" else path[|path| - 1]
  }

  ghost function Existing(ps: iset<Path>, path: Path): Path {
    path[..Depth(ps, path, 0)]
  }

  /** The result of create. */
  ghost function CreateResult(ps: iset<Path>, path: Path): int {
    if NameOf(path) == NameOf(Existing(ps, path)) then -1 else 0
  }

  /** The paths after create: the last component appears under the longest prefix
      that exists. */
  ghost function CreatePaths(ps: iset<Path>, path: Path): iset<Path> {
    if CreateResult(ps, path) == -1 then ps else ps + iset{Existing(ps, path) + [NameOf(path)]}
  }

  // ------------------------------------------------------------ slots are filled in order

  ghost predicate PackedAt(s: Fs, n: int, j: int) {
    s.Slot(n, j) ==> forall i :: 0 <= i < j ==> s.Slot(n, i)
  }

  /** In every inode the used pointers come first. */
  ghost predicate Packed(s: Fs) {
    forall n, j :: PackedAt(s, n, j)
  }

  lemma AddKeepsPacked(s: Fs, dir: nat, slot: nat, name: string, inode: nat, block: nat)
    requires Inv(s) && Packed(s) && Addable(s, dir, slot, inode, block) && LeastFree(s, dir, slot, inode, block)
    ensures Packed(Add(s, dir, slot, name, inode, block))
  {
    var s' := Add(s, dir, slot, name, inode, block);
    forall n, j
      ensures PackedAt(s', n, j)
    {
      assert PackedAt(s, n, j);
      if s'.Slot(n, j) {
        forall i | 0 <= i < j
          ensures s'.Slot(n, i)
        {
          assert s.Slot(n, i);
        }
      }
    }
  }

  // ------------------------------------------------------------ a second entry of the same name

  /** An existing child of the same name comes first and hides the new entry. */
  lemma {:induction false} ChildHides(s: Fs, dir: nat, slot: nat, name: string, inode: nat, block: nat, j: nat)
    requires Inv(s) && Packed(s) && Addable(s, dir, slot, inode, block) && j <= DIRECT
    requires ChildFrom(s, dir, name, j).Some?
    ensures ChildFrom(Add(s, dir, slot, name, inode, block), dir, name, j) == ChildFrom(s, dir, name, j)
    decreases DIRECT - j
  {
    var i := ChildFound(s, dir, name, j);
    assert PackedAt(s, dir, i);
    MatchFrame(s, dir, slot, name, inode, block, dir, name, j);
    if !Match(s, dir, name, j) {
      ChildHides(s, dir, slot, name, inode, block, j + 1);
    }
  }

  /** Hence no lookup changes. */
  lemma {:induction false} HiddenAdd(s: Fs, dir: nat, slot: nat, name: string, inode: nat, block: nat, path: Path)
    requires Inv(s) && Packed(s) && Addable(s, dir, slot, inode, block) && Child(s, dir, name).Some?
    ensures Walk(Add(s, dir, slot, name, inode, block), path) == Walk(s, path)
    decreases |path|
  {
    if path != [] {
      var front, last := path[..|path| - 1], path[|path| - 1];
      HiddenAdd(s, dir, slot, name, inode, block, front);
      match Walk(s, front) {
        case None =>
        case Some(p) =>
          WalkEnds(s, front, p);
          SameInode(s, dir, slot, name, inode, block, p);
          if InodeOf(s, p) == dir && last == name {
            ChildHides(s, dir, slot, name, inode, block, 0);
          } else {
            ChildFrame(s, dir, slot, name, inode, block, InodeOf(s, p), last, 0);
          }
      }
    }
  }

  lemma SameInode(s: Fs, dir: nat, slot: nat, name: string, inode: nat, block: nat, p: nat)
    requires Addable(s, dir, slot, inode, block) && p in s.usedBlocks
    ensures InodeOf(Add(s, dir, slot, name, inode, block), p) == InodeOf(s, p)
  {
  }

  /** A path that did not resolve is the only one that resolves in addition. */
  lemma NewResolves(s: Fs, dir: nat, slot: nat, name: string, inode: nat, block: nat, parent: Path, at: nat, path: Path)
    requires Inv(s) && Addable(s, dir, slot, inode, block)
    requires Walk(s, parent) == Some(at) && InodeOf(s, at) == dir && Walk(s, parent + [name]) == None
    ensures Walk(Add(s, dir, slot, name, inode, block), path).Some? <==> Walk(s, path).Some? || path == parent + [name]
  {
    var added := parent + [name];
    if path == added {
      NewPathResolves(s, dir, slot, name, inode, block, parent, at);
    } else if added <= path {
      assert path[..|added|] == added;
      NoneStays(s, path, |added|);
      NewPathResolves(s, dir, slot, name, inode, block, parent, at);
      NothingBelow(Add(s, dir, slot, name, inode, block), added, block, path);
    } else {
      WalkFrame(s, dir, slot, name, inode, block, parent, at, path);
    }
  }

  /** Adding an entry adds its path, if it was not there, and no other. */
  lemma AddResolves(s: Fs, dir: nat, slot: nat, name: string, inode: nat, block: nat, parent: Path, at: nat)
    requires Inv(s) && Packed(s) && Addable(s, dir, slot, inode, block)
    requires Walk(s, parent) == Some(at) && InodeOf(s, at) == dir
    ensures Resolved(Add(s, dir, slot, name, inode, block)) == Resolved(s) + iset{parent + [name]}
  {
    var added := parent + [name];
    forall path: Path
      ensures Walk(Add(s, dir, slot, name, inode, block), path).Some? <==> Walk(s, path).Some? || path == added
    {
      if Walk(s, added).Some? {
        assert added[..|added| - 1] == parent;
        HiddenAdd(s, dir, slot, name, inode, block, path);
      } else {
        NewResolves(s, dir, slot, name, inode, block, parent, at, path);
      }
    }
  }

  // ------------------------------------------------------------ refinement

  /** What leads to a path that resolves resolves. */
  lemma PrefixResolves(s: Fs, path: Path, depth: nat, k: nat)
    requires k <= depth <= |path| && Walk(s, path[..depth]).Some?
    ensures path[..k] in Resolved(s)
  {
    assert path[..depth][..k] == path[..k];
    if Walk(s, path[..k]).None? {
      NoneStays(s, path[..depth], k);
    }
  }

  lemma {:induction false} DepthIs(ps: iset<Path>, path: Path, depth: nat, k: nat)
    requires k <= depth <= |path| && (depth < |path| ==> path[..depth + 1] !in ps)
    requires forall i :: k < i <= depth ==> path[..i] in ps
    ensures Depth(ps, path, k) == depth
    decreases depth - k
  {
    if k < depth {
      DepthIs(ps, path, depth, k + 1);
    }
  }

  lemma DeepestIs(s: Fs, path: Path, at: nat, depth: nat)
    requires Deepest(s, path, at, depth)
    ensures Depth(Resolved(s), path, 0) == depth
  {
    forall i | 0 < i <= depth
      ensures path[..i] in Resolved(s)
    {
      PrefixResolves(s, path, depth, i);
    }
    DepthIs(Resolved(s), path, depth, 0);
  }

  /** create on the disk is create on the set of paths: same result, same paths. */
  lemma CreateRefines(s: Fs, s': Fs, path: Path, r: int, at: nat, depth: nat, slot: nat, inode: nat, block: nat)
    requires Inv(s) && Packed(s) && path != [] && Created(s, s', path, r, at, depth, slot, inode, block)
    ensures r == CreateResult(Resolved(s), path)
    ensures Resolved(s') == CreatePaths(Resolved(s), path)
    ensures Inv(s') && Packed(s')
  {
    DeepestIs(s, path, at, depth);
    WalkEnds(s, path[..depth], at);
    if r == 0 {
      var dir, name := InodeOf(s, at), NameOf(path);
      AddResolves(s, dir, slot, name, inode, block, path[..depth], at);
      AddKeepsInv(s, dir, slot, name, inode, block);
      AddKeepsPacked(s, dir, slot, name, inode, block);
    }
  }

  // ------------------------------------------------------------ runs

  ghost predicate Step(s: Fs, path: Path, r: int, s': Fs) {
    path != [] && exists at, depth, slot, inode, block :: Created(s, s', path, r, at, depth, slot, inode, block)
  }

  ghost predicate IsRun(ss: seq<Fs>, paths: seq<Path>, rs: seq<int>) {
    && |ss| == |paths| + 1 && |rs| == |paths|
    && forall i {:trigger paths[i]} :: 0 <= i < |paths| ==> Step(ss[i], paths[i], rs[i], ss[i + 1])
  }

  /** The set of paths after the creates, starting from the root alone. */
  ghost function PathsAfter(paths: seq<Path>): iset<Path> {
    if paths == [] then iset{[]} else CreatePaths(PathsAfter(paths[..|paths| - 1]), paths[|paths| - 1])
  }

  lemma PathsSnoc(paths: seq<Path>, i: nat)
    requires i < |paths|
    ensures PathsAfter(paths[..i + 1]) == CreatePaths(PathsAfter(paths[..i]), paths[i])
  {
    assert paths[..i + 1][..i] == paths[..i];
  }

  lemma FormattedResolves(s: Fs)
    requires NoPointers(s)
    ensures Resolved(s) == iset{[]} && Packed(s)
  {
    forall path: Path | path != []
      ensures Walk(s, path).None?
    {
      EmptyTree(s, path);
    }
  }

  lemma StepOf(ss: seq<Fs>, paths: seq<Path>, rs: seq<int>, i: nat)
    requires IsRun(ss, paths, rs) && i < |paths|
    ensures Step(ss[i], paths[i], rs[i], ss[i + 1])
  {
  }

  lemma {:induction false} RunResolves(ss: seq<Fs>, paths: seq<Path>, rs: seq<int>, i: nat)
    requires IsRun(ss, paths, rs) && Inv(ss[0]) && NoPointers(ss[0]) && i < |ss|
    ensures Inv(ss[i]) && Packed(ss[i]) && Resolved(ss[i]) == PathsAfter(paths[..i])
    decreases i
  {
    if i == 0 {
      FormattedResolves(ss[0]);
    } else {
      RunResolves(ss, paths, rs, i - 1);
      StepOf(ss, paths, rs, i - 1);
      StepRefines(ss[i - 1], paths[i - 1], rs[i - 1], ss[i]);
      PathsSnoc(paths, i - 1);
    }
  }

  /** On every run of creates from a formatted disk, what resolves and what each
      call returns is a function of the paths asked for so far. */
  lemma RunRefines(ss: seq<Fs>, paths: seq<Path>, rs: seq<int>, i: nat)
    requires IsRun(ss, paths, rs) && Inv(ss[0]) && NoPointers(ss[0]) && i < |ss|
    ensures Inv(ss[i]) && Packed(ss[i]) && Resolved(ss[i]) == PathsAfter(paths[..i])
    ensures i < |rs| ==> rs[i] == CreateResult(PathsAfter(paths[..i]), paths[i])
  {
    RunResolves(ss, paths, rs, i);
    if i < |rs| {
      StepOf(ss, paths, rs, i);
      StepRefines(ss[i], paths[i], rs[i], ss[i + 1]);
    }
  }

  lemma StepRefines(s: Fs, path: Path, r: int, s': Fs)
    requires Inv(s) && Packed(s) && Step(s, path, r, s')
    ensures r == CreateResult(Resolved(s), path) && Resolved(s') == CreatePaths(Resolved(s), path)
    ensures Inv(s') && Packed(s')
  {
    var at: nat, depth: nat, slot: nat, inode: nat, block: nat :|
      Created(s, s', path, r, at, depth, slot, inode, block);
    CreateRefines(s, s', path, r, at, depth, slot, inode, block);
  }

  // ------------------------------------------------------------ when create disappoints

  /** Of a path that resolves, all prefixes do. */
  ghost predicate Closed(ps: iset<Path>) {
    forall path: Path, k: nat {:trigger path[..k]} :: k <= |path| && path in ps ==> path[..k] in ps
  }

  lemma ResolvedIsClosed(s: Fs)
    ensures Closed(Resolved(s))
  {
    forall path: Path, k: nat | k <= |path| && path in Resolved(s)
      ensures path[..k] in Resolved(s)
    {
      assert path[..|path|] == path;
      PrefixResolves(s, path, |path|, k);
    }
  }

  lemma {:induction false} DepthFrom(ps: iset<Path>, path: Path, k: nat, m: nat)
    requires Closed(ps) && k <= m <= |path| && path[..m] in ps
    ensures Depth(ps, path, k) >= m
    decreases m - k
  {
    if k < m {
      assert path[..m][..k + 1] == path[..k + 1];
      DepthFrom(ps, path, k + 1, m);
    }
  }

  lemma {:induction false} DepthResolves(ps: iset<Path>, path: Path, k: nat)
    requires k <= |path| && path[..k] in ps
    ensures path[..Depth(ps, path, k)] in ps
    decreases |path| - k
  {
    if k < |path| && path[..k + 1] in ps {
      DepthResolves(ps, path, k + 1);
    }
  }

  /** Under an existing parent, create is refused exactly if the path exists or has
      the name of its own directory. */
  lemma RefusedIff(ps: iset<Path>, path: Path)
    requires Closed(ps) && path != [] && path[..|path| - 1] in ps
    ensures CreateResult(ps, path) == -1 <==> path in ps || NameOf(path) == NameOf(path[..|path| - 1])
  {
    var n := |path| - 1;
    assert path[..n][..0] == path[..0];
    DepthFrom(ps, path, 0, n);
    DepthResolves(ps, path, 0);
    assert path[..n + 1] == path;
    if path in ps {
      DepthFrom(ps, path, 0, n + 1);
    }
  }

  /** A successful create makes its path resolve exactly if the parent did. */
  lemma FoundIff(ps: iset<Path>, path: Path)
    requires Closed(ps) && [] in ps && path != [] && CreateResult(ps, path) == 0
    ensures path in CreatePaths(ps, path) <==> path[..|path| - 1] in ps
  {
    var n, d := |path| - 1, Depth(ps, path, 0);
    assert path[..n + 1] == path && path[..0] == [];
    DepthResolves(ps, path, 0);
    if path[..n] in ps {
      DepthFrom(ps, path, 0, n);
      assert path == path[..n] + [path[n]];
    }
  }

  /** On a formatted disk, create of /a/b succeeds and makes /b; /a/b is not found. */
  lemma MissingParent()
    ensures CreateResult(PathsAfter([]), ["a", "b"]) == 0
    ensures PathsAfter([["a", "b"]]) == iset{[], ["b"]}
  {
    var ps, path := PathsAfter([]), ["a", "b"];
    assert path[..1] == ["a"];
    assert Depth(ps, path, 0) == 0;
    assert Existing(ps, path) + [NameOf(path)] == ["b"];
    var paths: seq<Path> := [path];
    assert paths[..0] == [];
  }

  /** After create of /a, create of /a/a is refused although there is no such path. */
  lemma Namesake()
    ensures PathsAfter([["a"]]) == iset{[], ["a"]}
    ensures CreateResult(PathsAfter([["a"]]), ["a", "a"]) == -1
  {
    var ps, path := PathsAfter([]), ["a"];
    assert path[..1] == ["a"];
    assert Depth(ps, path, 0) == 0;
    assert Existing(ps, path) + [NameOf(path)] == ["a"];
    var paths: seq<Path> := [path];
    assert paths[..0] == [];
    var ps', path' := PathsAfter([["a"]]), ["a", "a"];
    assert path'[..1] == ["a"] && path'[..2] == path';
    assert Depth(ps', path', 1) == 1;
    assert Depth(ps', path', 0) == 1;
  }
}
