/** The directory tree held by inodes and entry blocks, and what adding one entry
    does to lookups. */
module FileTree {
  import opened Options

  const DIRECT := 12

  datatype Inode = Inode(size: int, direct: seq<int>, indirect: int, test: int, flags: int)

  const BLANK := Inode(0, [0, 0, 0, 0, 0, 0, 0, 0, 0, 0, 0, 0], 0, 0, 0)

  /** A disk block, by what was last written to it. */
  datatype Block =
    | Raw
    | Super
    | Bits(bytes: seq<bv8>)
    | Inodes(list: seq<Inode>)
    | Entry(name: string, inode: int)

  /** Inodes, data blocks, and which of them are allocated. A direct pointer is the
      disk address of a data block, base plus its number. */
  datatype Fs = Fs(base: int, inodes: seq<Inode>, data: seq<Block>, usedInodes: set<nat>, usedBlocks: set<nat>) {

    predicate Slot(n: int, j: int) {
      0 <= n < |inodes| && 0 <= j < |inodes[n].direct| && inodes[n].direct[j] != 0
    }

    function Ptr(n: int, j: int): int
      requires Slot(n, j)
    {
      inodes[n].direct[j] - base
    }

    /** A pointer leads to an allocated entry with an allocated inode, not the root. */
    predicate PointsWell(n: int, j: int)
      requires Slot(n, j)
    {
      var k := Ptr(n, j);
      && n in usedInodes
      && 1 <= k < |data| && k in usedBlocks
      && data[k].Entry?
      && 0 < data[k].inode < |inodes| && data[k].inode in usedInodes
    }

    function Target(n: int, j: int): int
      requires Slot(n, j) && PointsWell(n, j)
    {
      data[Ptr(n, j)].inode
    }
  }

  ghost predicate Shaped(s: Fs) {
    && 0 < s.base
    && 0 < |s.inodes| && (forall n :: 0 <= n < |s.inodes| ==> |s.inodes[n].direct| == DIRECT)
    && 0 < |s.data| && s.data[0] == Entry("", 0)
    && 0 in s.usedInodes && 0 in s.usedBlocks
  }

  /** A tree: every inode but the root's is the target of at most one pointer, and
      unallocated inodes are blank. */
  ghost predicate Inv(s: Fs) {
    && Shaped(s)
    && (forall n, j :: s.Slot(n, j) ==> s.PointsWell(n, j))
    && (forall n, j, n', j' :: s.Slot(n, j) && s.Slot(n', j') && s.Target(n, j) == s.Target(n', j') ==>
                                 n == n' && j == j')
    && (forall n :: 0 <= n < |s.inodes| && n !in s.usedInodes ==> s.inodes[n] == BLANK)
  }

  // ------------------------------------------------------------ lookup

  /** Slot j of inode n names the component. */
  predicate Match(s: Fs, n: int, name: string, j: int) {
    s.Slot(n, j) && 0 <= s.Ptr(n, j) < |s.data| && s.data[s.Ptr(n, j)].Entry? && s.data[s.Ptr(n, j)].name == name
  }

  /** The first match among the direct pointers from j on. */
  function ChildFrom(s: Fs, n: int, name: string, j: nat): Option<nat>
    requires j <= DIRECT
    decreases DIRECT - j
  {
    if j == DIRECT then None
    else if Match(s, n, name, j) then Some(s.Ptr(n, j))
    else ChildFrom(s, n, name, j + 1)
  }

  function Child(s: Fs, n: int, name: string): Option<nat> {
    ChildFrom(s, n, name, 0)
  }

  function InodeOf(s: Fs, p: nat): int {
    if p < |s.data| && s.data[p].Entry? then s.data[p].inode else 0
  }

  /** The data block of a path, if every component is found. */
  function Walk(s: Fs, comps: seq<string>): Option<nat> {
    if comps == [] then Some(0)
    else match Walk(s, comps[..|comps| - 1])
      case None => None
      case Some(p) => Child(s, InodeOf(s, p), comps[|comps| - 1])
  }

  /** One more component of a path. */
  lemma WalkSnoc(s: Fs, comps: seq<string>, i: nat, at: nat)
    requires i < |comps| && Walk(s, comps[..i]) == Some(at)
    ensures Walk(s, comps[..i + 1]) == Child(s, InodeOf(s, at), comps[i])
  {
    assert comps[..i + 1][..i] == comps[..i];
  }

  lemma {:induction false} ChildFound(s: Fs, n: int, name: string, j: nat) returns (i: nat)
    requires j <= DIRECT && ChildFrom(s, n, name, j).Some?
    ensures j <= i < DIRECT && Match(s, n, name, i) && ChildFrom(s, n, name, j) == Some(s.Ptr(n, i))
    decreases DIRECT - j
  {
    if Match(s, n, name, j) {
      i := j;
    } else {
      i := ChildFound(s, n, name, j + 1);
    }
  }

  /** What is found is the first pointer that matches. */
  lemma {:induction false} ChildIsFirst(s: Fs, n: int, name: string, j: nat, i: nat)
    requires j <= i < DIRECT && Match(s, n, name, i) && forall m :: j <= m < i ==> !Match(s, n, name, m)
    ensures ChildFrom(s, n, name, j) == Some(s.Ptr(n, i))
    decreases DIRECT - j
  {
    if j < i {
      ChildIsFirst(s, n, name, j + 1, i);
    }
  }

  lemma {:induction false} ChildNone(s: Fs, n: int, name: string, j: nat)
    requires j <= DIRECT && ChildFrom(s, n, name, j).None?
    ensures forall i :: j <= i < DIRECT ==> !Match(s, n, name, i)
    decreases DIRECT - j
  {
    if j < DIRECT {
      ChildNone(s, n, name, j + 1);
    }
  }

  /** A successful walk ends in an allocated entry that carries the last component. */
  lemma WalkEnds(s: Fs, comps: seq<string>, p: nat)
    requires Inv(s) && Walk(s, comps) == Some(p)
    ensures p < |s.data| && p in s.usedBlocks && s.data[p].Entry?
    ensures 0 <= InodeOf(s, p) < |s.inodes| && InodeOf(s, p) in s.usedInodes
    ensures comps == [] ==> p == 0 && InodeOf(s, p) == 0
    ensures comps != [] ==> InodeOf(s, p) != 0 && s.data[p].name == comps[|comps| - 1]
  {
    if comps != [] {
      var q := Walk(s, comps[..|comps| - 1]).value;
      var i := ChildFound(s, InodeOf(s, q), comps[|comps| - 1], 0);
      assert s.PointsWell(InodeOf(s, q), i);
    }
  }

  /** The last step of a walk is one pointer. */
  lemma LastStep(s: Fs, comps: seq<string>, p: nat) returns (q: nat, i: nat)
    requires Inv(s) && comps != [] && Walk(s, comps) == Some(p)
    ensures Walk(s, comps[..|comps| - 1]) == Some(q)
    ensures s.Slot(InodeOf(s, q), i) && s.PointsWell(InodeOf(s, q), i)
    ensures p == s.Ptr(InodeOf(s, q), i) && s.Target(InodeOf(s, q), i) == InodeOf(s, p)
  {
    q := Walk(s, comps[..|comps| - 1]).value;
    i := ChildFound(s, InodeOf(s, q), comps[|comps| - 1], 0);
    assert s.PointsWell(InodeOf(s, q), i);
  }

  /** In a tree only one path leads to an inode. */
  lemma {:induction false} UniquePath(s: Fs, a: seq<string>, b: seq<string>, p: nat, q: nat)
    requires Inv(s) && Walk(s, a) == Some(p) && Walk(s, b) == Some(q) && InodeOf(s, p) == InodeOf(s, q)
    ensures a == b
    decreases |a|
  {
    WalkEnds(s, a, p);
    WalkEnds(s, b, q);
    if a != [] && b != [] {
      var p', i := LastStep(s, a, p);
      var q', j := LastStep(s, b, q);
      UniquePath(s, a[..|a| - 1], b[..|b| - 1], p', q');
      assert a == a[..|a| - 1] + [a[|a| - 1]];
      assert b == b[..|b| - 1] + [b[|b| - 1]];
    }
  }

  // ------------------------------------------------------------ adding an entry

  /** The new entry: a free slot of a directory, a free inode, a free data block. */
  ghost predicate Addable(s: Fs, dir: nat, slot: nat, inode: nat, block: nat) {
    && dir < |s.inodes| && dir in s.usedInodes
    && slot < |s.inodes[dir].direct| && s.inodes[dir].direct[slot] == 0
    && inode < |s.inodes| && inode !in s.usedInodes
    && block < |s.data| && block !in s.usedBlocks
  }

  function Add(s: Fs, dir: nat, slot: nat, name: string, inode: nat, block: nat): Fs
    requires dir < |s.inodes| && slot < |s.inodes[dir].direct| && block < |s.data|
  {
    s.(inodes := s.inodes[dir := s.inodes[dir].(direct := s.inodes[dir].direct[slot := s.base + block])],
       data := s.data[block := Entry(name, inode)],
       usedInodes := s.usedInodes + {inode},
       usedBlocks := s.usedBlocks + {block})
  }

  /** Two inodes that differ at most in one direct pointer. */
  ghost predicate SameButPointer(a: Inode, b: Inode, slot: nat) {
    && b.size == a.size && b.flags == a.flags && b.indirect == a.indirect && b.test == a.test
    && |b.direct| == |a.direct|
    && forall j :: 0 <= j < |a.direct| && j != slot ==> b.direct[j] == a.direct[j]
  }

  /** What adding an entry changes, field by field: one pointer of the directory, one
      data block, and one inode and one block more in use. */
  lemma AddChanges(s: Fs, dir: nat, slot: nat, name: string, inode: nat, block: nat)
    requires Addable(s, dir, slot, inode, block)
    ensures var s' := Add(s, dir, slot, name, inode, block);
            && s'.base == s.base && |s'.inodes| == |s.inodes| && |s'.data| == |s.data|
            && (forall n :: 0 <= n < |s.inodes| && n != dir ==> s'.inodes[n] == s.inodes[n])
            && SameButPointer(s.inodes[dir], s'.inodes[dir], slot)
            && s'.inodes[dir].direct[slot] == s.base + block
            && s'.data[block].Entry? && s'.data[block].name == name && s'.data[block].inode == inode
            && (forall p :: 0 <= p < |s.data| && p != block ==> s'.data[p] == s.data[p])
            && (forall n: nat :: n in s'.usedInodes <==> n in s.usedInodes || n == inode)
            && (forall p: nat :: p in s'.usedBlocks <==> p in s.usedBlocks || p == block)
  {
  }

  lemma AddKeepsInv(s: Fs, dir: nat, slot: nat, name: string, inode: nat, block: nat)
    requires Inv(s) && Addable(s, dir, slot, inode, block)
    ensures Inv(Add(s, dir, slot, name, inode, block))
  {
    var s' := Add(s, dir, slot, name, inode, block);
    forall n, j | s'.Slot(n, j)
      ensures s'.PointsWell(n, j)
      ensures n == dir && j == slot ==> s'.Target(n, j) == inode
      ensures !(n == dir && j == slot) ==> s.Slot(n, j) && s'.Target(n, j) == s.Target(n, j) && s.Target(n, j) != inode
    {
      if !(n == dir && j == slot) {
        assert s.Slot(n, j);
        assert s.PointsWell(n, j);
      }
    }
  }

  /** Only the new name in the directory that received it matches differently. */
  lemma MatchFrame(s: Fs, dir: nat, slot: nat, name: string, inode: nat, block: nat, n: int, c: string, j: int)
    requires Inv(s) && Addable(s, dir, slot, inode, block)
    ensures var s' := Add(s, dir, slot, name, inode, block);
            && (n == dir && j == slot ==> Match(s', n, c, j) == (c == name) && !Match(s, n, c, j)
                                          && s'.Slot(n, j) && s'.Ptr(n, j) == block)
            && (!(n == dir && j == slot) ==> Match(s', n, c, j) == Match(s, n, c, j) && s'.Slot(n, j) == s.Slot(n, j)
                                             && (s.Slot(n, j) ==> s'.Ptr(n, j) == s.Ptr(n, j)))
  {
    var s' := Add(s, dir, slot, name, inode, block);
    if n == dir && j == slot {
      assert s'.data[block] == Entry(name, inode);
    } else if s.Slot(n, j) {
      assert s.PointsWell(n, j);
    }
  }

  lemma {:induction false} ChildFrame(s: Fs, dir: nat, slot: nat, name: string, inode: nat, block: nat,
                                      n: int, c: string, j: nat)
    requires Inv(s) && Addable(s, dir, slot, inode, block) && j <= DIRECT
    requires n != dir || c != name
    ensures ChildFrom(Add(s, dir, slot, name, inode, block), n, c, j) == ChildFrom(s, n, c, j)
    decreases DIRECT - j
  {
    if j < DIRECT {
      MatchFrame(s, dir, slot, name, inode, block, n, c, j);
      ChildFrame(s, dir, slot, name, inode, block, n, c, j + 1);
    }
  }

  lemma {:induction false} NewChild(s: Fs, dir: nat, slot: nat, name: string, inode: nat, block: nat, j: nat)
    requires Inv(s) && Addable(s, dir, slot, inode, block) && j <= slot < DIRECT
    requires ChildFrom(s, dir, name, j) == None
    ensures ChildFrom(Add(s, dir, slot, name, inode, block), dir, name, j) == Some(block)
    decreases DIRECT - j
  {
    MatchFrame(s, dir, slot, name, inode, block, dir, name, j);
    if j < slot {
      NewChild(s, dir, slot, name, inode, block, j + 1);
    }
  }

  /** Every path that does not extend the new one resolves as before. */
  lemma {:induction false} WalkFrame(s: Fs, dir: nat, slot: nat, name: string, inode: nat, block: nat,
                                     parent: seq<string>, at: nat, comps: seq<string>)
    requires Inv(s) && Addable(s, dir, slot, inode, block)
    requires Walk(s, parent) == Some(at) && InodeOf(s, at) == dir
    requires !(parent + [name] <= comps)
    ensures Walk(Add(s, dir, slot, name, inode, block), comps) == Walk(s, comps)
    decreases |comps|
  {
    var s' := Add(s, dir, slot, name, inode, block);
    if comps != [] {
      var front, last := comps[..|comps| - 1], comps[|comps| - 1];
      assert comps == front + [last];
      WalkFrame(s, dir, slot, name, inode, block, parent, at, front);
      match Walk(s, front) {
        case None =>
        case Some(p) =>
          WalkEnds(s, front, p);
          if InodeOf(s, p) == dir && last == name {
            UniquePath(s, front, parent, p, at);
          } else {
            ChildFrame(s, dir, slot, name, inode, block, InodeOf(s, p), last, 0);
          }
      }
    }
  }

  /** The new path leads to the new entry, whose inode is blank. */
  lemma NewPathResolves(s: Fs, dir: nat, slot: nat, name: string, inode: nat, block: nat, parent: seq<string>, at: nat)
    requires Inv(s) && Addable(s, dir, slot, inode, block)
    requires Walk(s, parent) == Some(at) && InodeOf(s, at) == dir && Walk(s, parent + [name]) == None
    ensures var s' := Add(s, dir, slot, name, inode, block);
            && Walk(s', parent + [name]) == Some(block)
            && InodeOf(s', block) == inode && s'.inodes[inode] == BLANK
  {
    var path := parent + [name];
    assert path[..|path| - 1] == parent && path[|path| - 1] == name;
    WalkFrame(s, dir, slot, name, inode, block, parent, at, parent);
    WalkEnds(s, parent, at);
    NewChild(s, dir, slot, name, inode, block, 0);
  }

  /** Adding an entry under an existing directory that has no such child adds one
      leaf to the tree: the new path leads to it, its inode is blank, nothing lies
      below it, every other path and every other entry is as before. */
  lemma AddIsNewLeaf(s: Fs, dir: nat, slot: nat, name: string, inode: nat, block: nat, parent: seq<string>, at: nat)
    requires Inv(s) && Addable(s, dir, slot, inode, block)
    requires Walk(s, parent) == Some(at) && InodeOf(s, at) == dir
    requires Walk(s, parent + [name]) == None
    ensures var s' := Add(s, dir, slot, name, inode, block);
            && Walk(s', parent + [name]) == Some(block)
            && s'.data[block] == Entry(name, inode)
            && s'.inodes[inode] == BLANK
            && (forall comps :: !(parent + [name] <= comps) ==> Walk(s', comps) == Walk(s, comps))
            && (forall comps :: parent + [name] < comps ==> Walk(s', comps) == None)
            && (forall p :: p in s.usedBlocks && p < |s.data| ==> s'.data[p] == s.data[p])
  {
    var s' := Add(s, dir, slot, name, inode, block);
    var path := parent + [name];
    NewPathResolves(s, dir, slot, name, inode, block, parent, at);
    forall comps | !(path <= comps)
      ensures Walk(s', comps) == Walk(s, comps)
    {
      WalkFrame(s, dir, slot, name, inode, block, parent, at, comps);
    }
    forall comps | path < comps
      ensures Walk(s', comps) == None
    {
      NothingBelow(s', path, block, comps);
    }
  }

  /** Below an entry with a blank inode nothing is found. */
  lemma {:induction false} NothingBelow(s: Fs, path: seq<string>, block: nat, comps: seq<string>)
    requires Walk(s, path) == Some(block) && 0 <= InodeOf(s, block) < |s.inodes| && s.inodes[InodeOf(s, block)] == BLANK
    requires path < comps
    ensures Walk(s, comps) == None
    decreases |comps|
  {
    var front := comps[..|comps| - 1];
    if front == path {
      BlankHasNoChild(s, InodeOf(s, block), comps[|comps| - 1], 0);
    } else {
      NothingBelow(s, path, block, front);
    }
  }

  lemma {:induction false} BlankHasNoChild(s: Fs, n: int, name: string, j: nat)
    requires 0 <= n < |s.inodes| && s.inodes[n] == BLANK && j <= DIRECT
    ensures ChildFrom(s, n, name, j) == None
    decreases DIRECT - j
  {
    if j < DIRECT {
      BlankHasNoChild(s, n, name, j + 1);
    }
  }
}
