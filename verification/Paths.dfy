/** Splitting a path into the components between its slashes. */
module Paths {

  const SLASH := '/'

  predicate SlashFree(s: string) {
    forall i :: 0 <= i < |s| ==> s[i] != SLASH
  }

  /** Position of the first slash at or after i, or the length. */
  function NextSlash(s: string, i: nat): (k: nat)
    requires i <= |s|
    ensures i <= k <= |s|
    decreases |s| - i
  {
    if i == |s| || s[i] == SLASH then i else NextSlash(s, i + 1)
  }

  /** Number of slashes at or after i. */
  function SlashesFrom(s: string, i: nat): nat
    requires i <= |s|
    decreases |s| - i
  {
    if i == |s| then 0 else (if s[i] == SLASH then 1 else 0) + SlashesFrom(s, i + 1)
  }

  /** What stands behind each slash, up to the next one, from the slash at i on. */
  function ComponentsAt(s: string, i: nat): seq<string>
    requires i <= |s|
    decreases |s| - i
  {
    if i == |s| then []
    else
      var k := NextSlash(s, i + 1);
      [s[i + 1..k]] + ComponentsAt(s, k)
  }

  function Components(s: string): seq<string> {
    ComponentsAt(s, NextSlash(s, 0))
  }

  /** Each component with a slash in front. */
  function Join(cs: seq<string>): string {
    if cs == [] then "" else [SLASH] + cs[0] + Join(cs[1..])
  }

  lemma {:induction false} NextSlashFinds(s: string, i: nat)
    requires i <= |s|
    ensures var k := NextSlash(s, i); (k < |s| ==> s[k] == SLASH) && forall p :: i <= p < k ==> s[p] != SLASH
    decreases |s| - i
  {
    if i < |s| && s[i] != SLASH {
      NextSlashFinds(s, i + 1);
    }
  }

  lemma {:induction false} NextSlashIs(s: string, i: nat, k: nat)
    requires i <= k <= |s| && (k < |s| ==> s[k] == SLASH)
    requires forall p :: i <= p < k ==> s[p] != SLASH
    ensures NextSlash(s, i) == k
    decreases k - i
  {
    if i < k {
      NextSlashIs(s, i + 1, k);
    }
  }

  lemma {:induction false} NoSlashes(s: string, i: nat, k: nat)
    requires i <= k <= |s| && forall p :: i <= p < k ==> s[p] != SLASH
    ensures SlashesFrom(s, i) == SlashesFrom(s, k)
    decreases k - i
  {
    if i < k {
      NoSlashes(s, i + 1, k);
    }
  }

  // ------------------------------------------------------------ round trips

  lemma {:induction false} JoinFrom(s: string, i: nat)
    requires i <= |s| && (i < |s| ==> s[i] == SLASH)
    ensures Join(ComponentsAt(s, i)) == s[i..]
    ensures |ComponentsAt(s, i)| == SlashesFrom(s, i)
    ensures forall c :: c in ComponentsAt(s, i) ==> SlashFree(c)
    decreases |s| - i
  {
    if i < |s| {
      var k := NextSlash(s, i + 1);
      NextSlashFinds(s, i + 1);
      JoinFrom(s, k);
      NoSlashes(s, i + 1, k);
      JoinStep(s, i, k, ComponentsAt(s, k));
    }
  }

  lemma JoinStep(s: string, i: nat, k: nat, cs: seq<string>)
    requires i < k <= |s| && s[i] == SLASH && Join(cs) == s[k..]
    ensures Join([s[i + 1..k]] + cs) == s[i..]
  {
    var ds := [s[i + 1..k]] + cs;
    assert ds[1..] == cs;
    assert s[i..] == [SLASH] + s[i + 1..k] + s[k..];
  }

  /** A path that starts with a slash is exactly the join of its components; there
      are as many as slashes, and none contains one. */
  lemma PathRoundTrip(path: string)
    requires path != "" && path[0] == SLASH
    ensures Join(Components(path)) == path
    ensures |Components(path)| == SlashesFrom(path, 0) && |Components(path)| > 0
    ensures forall c :: c in Components(path) ==> SlashFree(c)
  {
    JoinFrom(path, 0);
    assert path[0..] == path;
  }

  /** Any path: characters before the first slash are ignored. */
  lemma ComponentsCount(path: string)
    ensures |Components(path)| == SlashesFrom(path, 0)
    ensures Join(Components(path)) == path[NextSlash(path, 0)..]
  {
    NextSlashFinds(path, 0);
    NoSlashes(path, 0, NextSlash(path, 0));
    JoinFrom(path, NextSlash(path, 0));
  }

  lemma {:induction false} NextSlashShift(a: string, b: string, i: nat)
    requires i <= |b|
    ensures NextSlash(a + b, |a| + i) == |a| + NextSlash(b, i)
  {
    NextSlashFinds(b, i);
    NextSlashIs(a + b, |a| + i, |a| + NextSlash(b, i));
  }

  lemma {:induction false} ComponentsShift(a: string, b: string, i: nat)
    requires i <= |b|
    ensures ComponentsAt(a + b, |a| + i) == ComponentsAt(b, i)
    decreases |b| - i
  {
    if i < |b| {
      var k := NextSlash(b, i + 1);
      NextSlashShift(a, b, i + 1);
      ComponentsShift(a, b, k);
      SliceShift(a, b, i + 1, k);
      assert ComponentsAt(b, i) == [b[i + 1..k]] + ComponentsAt(b, k);
    }
  }

  lemma SliceShift(a: string, b: string, i: nat, k: nat)
    requires i <= k <= |b|
    ensures (a + b)[|a| + i..|a| + k] == b[i..k]
  {
  }

  /** Slash-free names come back from their join. */
  lemma {:induction false} ComponentsOfJoin(cs: seq<string>)
    requires forall c :: c in cs ==> SlashFree(c)
    ensures Components(Join(cs)) == cs
  {
    if cs != [] {
      var c, b := cs[0], Join(cs[1..]);
      ComponentsOfJoin(cs[1..]);
      FrontComponent(c, b);
      assert Join(cs) == [SLASH] + c + b;
      assert cs == [c] + cs[1..];
    }
  }

  lemma FrontComponent(c: string, b: string)
    requires SlashFree(c) && (b != "" ==> b[0] == SLASH)
    ensures Components([SLASH] + c + b) == [c] + Components(b)
  {
    var a := [SLASH] + c;
    var s := a + b;
    forall p | 0 < p < |a|
      ensures s[p] != SLASH
    {
      assert s[p] == c[p - 1];
    }
    NextSlashIs(s, 0, 0);
    NextSlashIs(b, 0, 0);
    assert b != "" ==> s[|a|] == b[0];
    ComponentStep(s, 0, |a|);
    assert s[1..|a|] == c;
    ComponentsShift(a, b, 0);
  }

  // ------------------------------------------------------------ the code

  method GetNumDirs(path: string) returns (count: nat)
    ensures count == |Components(path)|
  {
    count := CountLoop(path);
    ComponentsCount(path);
  }

  /** The counting loop shared by get_num_dirs and parsePath. */
  method CountLoop(path: string) returns (count: nat)
    ensures count == SlashesFrom(path, 0)
  {
    count := 0;
    for i := 0 to |path|
      invariant count + SlashesFrom(path, i) == SlashesFrom(path, 0)
    {
      if path[i] == SLASH {
        count := count + 1;
      }
    }
  }

  /** The first j indices are the slashes before n, each followed by the next. */
  ghost predicate Indexed(path: string, indices: seq<int>, j: nat, n: nat) {
    && n <= |path| && j <= |indices|
    && (forall k :: 0 <= k < j ==> 0 <= indices[k] < n && path[indices[k]] == SLASH)
    && (j == 0 ==> forall p :: 0 <= p < n ==> path[p] != SLASH)
    && (j > 0 ==> forall p :: 0 <= p < indices[0] ==> path[p] != SLASH)
    && (j > 0 ==> forall p :: indices[j - 1] < p < n ==> path[p] != SLASH)
    && (forall k :: 0 < k < j ==> Follows(path, indices, k))
  }

  /** Index k is the first slash after index k - 1. */
  ghost predicate Follows(path: string, indices: seq<int>, k: nat)
    requires 0 < k < |indices|
  {
    indices[k - 1] < indices[k] && forall p :: indices[k - 1] < p < indices[k] && 0 <= p < |path| ==> path[p] != SLASH
  }

  method ParsePath(path: string) returns (strings: seq<string>)
    ensures strings == Components(path)
  {
    var count := CountLoop(path);
    var indices := SlashIndices(path, count);
    strings := [];
    for i := 0 to count
      invariant Split(path, indices[..], count)
      invariant 0 <= indices[i] <= |path|
      invariant strings + ComponentsAt(path, indices[i]) == Components(path)
    {
      var at, size := indices[i], indices[i + 1] - indices[i];
      Piece(path, indices[..], count, i, at, size);
      strings := strings + [path[at + 1..at + 1 + (size - 1)]];
    }
  }

  /** The second loop of parsePath: where the slashes are, and the length. */
  method SlashIndices(path: string, count: nat) returns (indices: array<int>)
    requires count == SlashesFrom(path, 0)
    ensures fresh(indices) && Split(path, indices[..], count) && indices[0] == NextSlash(path, 0)
  {
    indices := new int[count + 1](i => 0);
    var j := 0;
    for i := 0 to |path|
      invariant j + SlashesFrom(path, i) == count
      invariant Indexed(path, indices[..], j, i)
    {
      if path[i] == SLASH {
        ghost var before := indices[..];
        indices[j] := i;
        j := j + 1;
        IndexedStep(path, before, indices[..], j - 1, i);
      }
    }
    ghost var slashes := indices[..];
    indices[count] := |path|;
    IndexedEnd(path, slashes, indices[..], count);
  }

  lemma IndexedStep(path: string, before: seq<int>, after: seq<int>, j: nat, i: nat)
    requires i < |path| && j < |before| && Indexed(path, before, j, i) && path[i] == SLASH && after == before[j := i]
    ensures Indexed(path, after, j + 1, i + 1)
  {
    forall k | 0 < k < j + 1
      ensures Follows(path, after, k)
    {
      if k < j {
        assert Follows(path, before, k);
      }
    }
  }

  /** All indices, with the length of the path as the last one. */
  ghost predicate Split(path: string, indices: seq<int>, count: nat) {
    && count + 1 == |indices|
    && indices[count] == |path|
    && (forall k :: 0 <= k < count ==> 0 <= indices[k] < |path| && path[indices[k]] == SLASH)
    && (forall k :: 0 < k <= count ==> Follows(path, indices, k))
  }

  lemma IndexedEnd(path: string, before: seq<int>, after: seq<int>, count: nat)
    requires count + 1 == |before| && Indexed(path, before, count, |path|) && after == before[count := |path|]
    ensures Split(path, after, count)
    ensures 0 <= after[0] <= |path| && NextSlash(path, 0) == after[0]
  {
    forall k | 0 < k <= count
      ensures Follows(path, after, k)
    {
      if k < count {
        assert Follows(path, before, k);
      }
    }
    NextSlashIs(path, 0, after[0]);
  }

  lemma Between(path: string, indices: seq<int>, count: nat, i: nat, a: int, b: int)
    requires Split(path, indices, count) && i < count && a == indices[i] && b == indices[i + 1]
    ensures 0 <= a < b <= |path| && (b < |path| ==> path[b] == SLASH)
    ensures forall p :: a < p < b ==> path[p] != SLASH
  {
    assert Follows(path, indices, i + 1);
    if i + 1 < count {
      assert indices[i + 1] < |path|;
    }
  }

  /** One string of parsePath is the next component. */
  lemma Piece(path: string, indices: seq<int>, count: nat, i: nat, at: int, size: int)
    requires Split(path, indices, count) && i < count && at == indices[i] && size == indices[i + 1] - indices[i]
    ensures 0 <= at < at + size <= |path|
    ensures ComponentsAt(path, at) == [path[at + 1..at + 1 + (size - 1)]] + ComponentsAt(path, at + size)
  {
    Between(path, indices, count, i, at, at + size);
    ComponentStep(path, at, at + size);
  }

  lemma ComponentStep(s: string, a: nat, b: nat)
    requires a < b <= |s| && (b < |s| ==> s[b] == SLASH)
    requires forall p :: a < p < b ==> s[p] != SLASH
    ensures ComponentsAt(s, a) == [s[a + 1..b]] + ComponentsAt(s, b)
  {
    NextSlashIs(s, a + 1, b);
  }
}
