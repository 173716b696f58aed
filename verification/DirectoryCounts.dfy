/** internal/archive/directories.go, second half: ancestor roll-ups of live mail per directory and the
    sorted leaf index with prefix sums. */
module DirectoryCounts {
  import opened Prelude
  import opened Text
  import opened IdPath
  import opened Directories

  type Counts = map<string, uint64>

  /** One live leaf directory; `accumulated` counts every message up to and including it. */
  datatype DirectoryCount = DirectoryCount(path: string, count: uint64, accumulated: uint64)
  datatype DirectoryIndex = DirectoryIndex(leaves: seq<DirectoryCount>, total: uint64)

  datatype IndexError =
    | InvalidCount | FanoutExceeded | ExceedsAllocated | MissingAncestors | DescendantMismatch

  // ---------------------------------------------------------------- ancestors

  /** `dir` is the directory `leaf` itself or one of its ancestors. */
  predicate Covers(dir: string, leaf: string) { dir <= leaf && |dir| % 4 == 1 }

  lemma {:induction false} CoversStep(path: string, depth: nat, prefix: nat)
    requires depth < 10
    ensures Covers(path, DirPath(depth, prefix)) <==>
              path == DirPath(depth, prefix) || (prefix > 0 && Covers(path, DirPath(depth, prefix / 1024)))
  {
    DirPathShape(depth, prefix);
    var whole := DirPath(depth, prefix);
    if prefix == 0 {
      if Covers(path, whole) { assert path == whole[..|path|]; }
    } else {
      DirPathShape(depth, prefix / 1024);
      var front := DirPath(depth, prefix / 1024);
      assert whole[..|front|] == front;
      if Covers(path, whole) && |path| < |whole| {
        assert path == whole[..|path|] == front[..|path|];
      }
      if Covers(path, front) { assert path == front[..|path|] == whole[..|path|]; }
    }
  }

  lemma {:induction false} CoveredIsDirectory(path: string, depth: nat, prefix: nat)
    requires IsDirPath(DirPath(depth, prefix), depth, prefix) && Covers(path, DirPath(depth, prefix))
    ensures IsDirectory(path)
  {
    CoversStep(path, depth, prefix);
    if path == DirPath(depth, prefix) {
      assert IsDirPath(path, depth, prefix);
    } else {
      assert NumDigits(prefix / 1024) == NumDigits(prefix) - 1;
      CoveredIsDirectory(path, depth, prefix / 1024);
    }
  }

  lemma {:induction false} AncestorIsDirectory(path: string, leaf: string)
    requires IsLeafPath(leaf) && Covers(path, leaf)
    ensures IsDirectory(path)
  {
    var p: nat :| p <= MAX_PREFIX && leaf == LeafPath(p);
    SixDigits(p);
    CoveredIsDirectory(path, 1 + NumDigits(p), p);
  }

  /** No leaf directory is an ancestor of another one. */
  lemma {:induction false} LeavesAreApart(a: string, b: string)
    requires IsLeafPath(a) && IsLeafPath(b) && Covers(a, b)
    ensures a == b
  {
    var p: nat :| p <= MAX_PREFIX && a == LeafPath(p);
    var q: nat :| q <= MAX_PREFIX && b == LeafPath(q);
    SixDigits(p);
    SixDigits(q);
    DirPathShape(1 + NumDigits(p), p);
    DirPathShape(1 + NumDigits(q), q);
    assert a[0] == b[0];
    DigitOrder(1 + NumDigits(p), 1 + NumDigits(q));
    DigitOrder(1 + NumDigits(q), 1 + NumDigits(p));
    assert |a| == |b|;
  }

  lemma {:induction false} LeafCoversItself(path: string)
    requires IsLeafPath(path)
    ensures Covers(path, path)
  {
    var p: nat :| p <= MAX_PREFIX && path == LeafPath(p);
    SixDigits(p);
    DirPathShape(1 + NumDigits(p), p);
  }

  // ---------------------------------------------------------------- inner directories

  function Scale(prefix: nat, n: nat): nat { if n == 0 then prefix else Scale(prefix, n - 1) * 1024 }

  /** Every ancestor of a leaf is its prefix less its last digits. */
  lemma {:induction false} AncestorScale(depth: nat, prefix: nat, p: nat) returns (n: nat)
    requires 1 <= depth <= 7 && NumDigits(prefix) < depth && NumDigits(p) < depth
    requires Covers(DirPath(depth, prefix), DirPath(depth, p))
    ensures NumDigits(p) == NumDigits(prefix) + n && Scale(prefix, n) <= p
  {
    CoversStep(DirPath(depth, prefix), depth, p);
    if DirPath(depth, prefix) == DirPath(depth, p) {
      DirPathInjective(depth, prefix, depth, p);
      n := 0;
    } else {
      n := AncestorScale(depth, prefix, p / 1024);
      n := n + 1;
    }
  }

  lemma {:induction false} ScaleCovered(depth: nat, prefix: nat, n: nat)
    requires 1 <= depth <= 7 && prefix > 0
    ensures NumDigits(Scale(prefix, n)) == NumDigits(prefix) + n && Scale(prefix, n) > 0
    ensures Covers(DirPath(depth, prefix), DirPath(depth, Scale(prefix, n)))
  {
    if n == 0 {
      DirPathShape(depth, prefix);
    } else {
      ScaleCovered(depth, prefix, n - 1);
      assert Scale(prefix, n) / 1024 == Scale(prefix, n - 1);
      CoversStep(DirPath(depth, prefix), depth, Scale(prefix, n));
    }
  }

  /** The leaf directory is at or below this one, and some 64-bit ID lives in it. */
  ghost predicate HasLeaf(path: string, p: nat) { p <= MAX_PREFIX && Covers(path, LeafPath(p)) }

  /** An accepted directory has a leaf of 64-bit IDs below it exactly when its least one is not too large. */
  lemma {:induction false} InnerHasLeaf(path: string, depth: nat, prefix: nat)
    requires IsDirPath(path, depth, prefix)
    ensures (exists p :: HasLeaf(path, p)) <==> Scale(prefix, depth - 1 - NumDigits(prefix)) <= MAX_PREFIX
  {
    if p :| HasLeaf(path, p) {
      SixDigits(p);
      SameDepth(depth, prefix, 1 + NumDigits(p), p);
      var n := AncestorScale(depth, prefix, p);
    }
    if Scale(prefix, depth - 1 - NumDigits(prefix)) <= MAX_PREFIX {
      var p := LeastLeaf(depth, prefix);
      assert HasLeaf(path, p);
    }
  }

  /** "7/010" is accepted, but no 64-bit ID lives below it. */
  lemma {:induction false} EmptyInnerDirectory()
    ensures DirPath(7, 16) == "7/010" && IsDirectory("7/010") && forall p :: !HasLeaf("7/010", p)
  {
    DepthChar(7);
    assert NumDigits(16 / 1024) == 0 && DirPath(7, 0) == FormatUint(7, 10) == "7";
    assert FmtDigit(16) == "010";
    assert DirPath(7, 16) == DirPath(7, 0) + "/" + FmtDigit(16);
    assert IsDirPath("7/010", 7, 16);
    assert Scale(16, 5) == 16 * 1024 * 1024 * 1024 * 1024 * 1024;
    InnerHasLeaf("7/010", 7, 16);
  }

  lemma {:induction false} SameDepth(depth: nat, prefix: nat, other: nat, p: nat)
    requires 1 <= depth <= 7 && 1 <= other <= 7 && Covers(DirPath(depth, prefix), DirPath(other, p))
    ensures depth == other
  {
    DirPathShape(depth, prefix);
    DirPathShape(other, p);
    assert DirPath(depth, prefix)[0] == DirPath(other, p)[0];
    DigitOrder(depth, other);
    DigitOrder(other, depth);
  }

  lemma {:induction false} LeastLeaf(depth: nat, prefix: nat) returns (p: nat)
    requires 1 <= depth <= 7 && NumDigits(prefix) < depth
    requires Scale(prefix, depth - 1 - NumDigits(prefix)) <= MAX_PREFIX
    ensures p <= MAX_PREFIX && Covers(DirPath(depth, prefix), LeafPath(p))
  {
    if prefix > 0 {
      p := Scale(prefix, depth - 1 - NumDigits(prefix));
      ScaleCovered(depth, prefix, depth - 1 - NumDigits(prefix));
    } else if depth == 1 {
      p := 0;
      DirPathShape(1, 0);
    } else {
      p := Scale(1, depth - 2);
      ScaleCovered(depth, 1, depth - 2);
      FirstDigits(depth - 2);
      RootCovers(depth, p);
    }
  }

  lemma {:induction false} FirstDigits(n: nat)
    requires n <= 5
    ensures NumDigits(1) == 1 && Scale(1, n) <= MAX_PREFIX
  {
    assert NumDigits(1 / 1024) == 0;
    assert Scale(1, 5) == 1024 * 1024 * 1024 * 1024 * 1024;
    if n < 5 { ScaleGrows(n, 5); }
  }

  lemma {:induction false} ScaleGrows(m: nat, n: nat)
    requires m <= n
    ensures Scale(1, m) <= Scale(1, n)
  {
    if m < n { ScaleGrows(m, n - 1); }
  }

  lemma {:induction false} RootCovers(depth: nat, p: nat)
    requires 1 <= depth <= 7
    ensures Covers(DirPath(depth, 0), DirPath(depth, p))
    decreases p
  {
    if p == 0 {
      DirPathShape(depth, 0);
    } else {
      RootCovers(depth, p / 1024);
      CoversStep(DirPath(depth, 0), depth, p);
    }
  }

  // ---------------------------------------------------------------- count maps

  function Get(counts: Counts, path: string): nat { if path in counts then counts[path] else 0 }

  ghost predicate Positive(counts: Counts) { forall path :: path in counts ==> counts[path] > 0 }

  lemma {:induction false} SameCounts(a: Counts, b: Counts)
    requires Positive(a) && Positive(b) && forall path :: Get(a, path) == Get(b, path)
    ensures a == b
  {
    forall path ensures path in a <==> path in b { assert Get(a, path) == Get(b, path); }
    forall path | path in a ensures a[path] == b[path] { assert Get(a, path) == Get(b, path); }
  }

  function Share(path: string, leaf: string, amount: nat): nat { if Covers(path, leaf) then amount else 0 }

  /** The walk towards the root, now at `at`, has still to visit `p`. */
  ghost predicate Pending(p: string, at: string) { at != "." && Covers(p, at) }

  lemma {:induction false} WalkStep(depth: nat, prefix: nat)
    requires depth < 10
    ensures var at := DirPath(depth, prefix);
      && Pending(at, at) && !Pending(at, Dir(at))
      && forall p :: p != at ==> (Pending(p, at) <==> Pending(p, Dir(at)))
  {
    ParentIsShorter(depth, prefix);
    forall p ensures Covers(p, DirPath(depth, prefix)) <==>
                       p == DirPath(depth, prefix) || (prefix > 0 && Covers(p, DirPath(depth, prefix / 1024))) {
      CoversStep(p, depth, prefix);
    }
  }

  /** directoryCounts.add, and the roll-up loop of buildDirectoryIndex, which adds a whole leaf at once. */
  method Raise(counts: Counts, path: string, amount: uint64, ghost depth: nat, ghost prefix: nat)
    returns (raised: Counts)
    requires depth < 10 && path == DirPath(depth, prefix) && amount > 0 && Positive(counts)
    requires forall p :: Covers(p, path) ==> Get(counts, p) + amount <= MAX64
    ensures Positive(raised)
    ensures forall p :: Get(raised, p) == Get(counts, p) + Share(p, path, amount)
  {
    raised := counts;
    var at := path;
    ghost var left := prefix;
    ParentIsShorter(depth, prefix);
    while at != "."
      invariant at != "." ==> at == DirPath(depth, left)
      invariant Positive(raised)
      invariant forall p :: Pending(p, at) ==> Covers(p, path)
      invariant forall p :: Get(raised, p) == Get(counts, p) + (if Pending(p, at) then 0 else Share(p, path, amount))
      decreases if at == "." then 0 else 1 + left
    {
      WalkStep(depth, left);
      ParentIsShorter(depth, left);
      raised := raised[at := Get(raised, at) + amount];
      at := Dir(at);
      left := left / 1024;
    }
  }

  lemma {:induction false} ParentIsShorter(depth: nat, prefix: nat)
    requires depth < 10
    ensures DirPath(depth, prefix) != "."
    ensures Dir(DirPath(depth, prefix)) == if prefix > 0 then DirPath(depth, prefix / 1024) else "."
    ensures prefix > 0 ==> !Covers(DirPath(depth, prefix), DirPath(depth, prefix / 1024))
  {
    DirOfDirPath(depth, prefix);
    DirPathShape(depth, prefix);
    DirPathShape(depth, prefix / 1024);
    DigitRoundTrip(depth);
  }

  /** directoryCounts.remove: fails exactly when some ancestor has nothing left to give up. */
  method Remove(counts: Counts, path: string, ghost depth: nat, ghost prefix: nat) returns (lowered: Option<Counts>)
    requires depth < 10 && path == DirPath(depth, prefix) && Positive(counts)
    ensures lowered.Some? <==> forall p :: Covers(p, path) ==> p in counts
    ensures lowered.Some? ==> Positive(lowered.value)
    ensures lowered.Some? ==> forall p :: Get(lowered.value, p) == Get(counts, p) - Share(p, path, 1)
  {
    var rest := counts;
    var at := path;
    ghost var left := prefix;
    ParentIsShorter(depth, prefix);
    while at != "."
      invariant at != "." ==> at == DirPath(depth, left)
      invariant Positive(rest)
      invariant forall p :: Pending(p, at) ==> Covers(p, path)
      invariant forall p :: Covers(p, path) && !Pending(p, at) ==> p in counts
      invariant forall p :: Get(rest, p) == Get(counts, p) - (if Pending(p, at) then 0 else Share(p, path, 1))
      decreases if at == "." then 0 else 1 + left
    {
      WalkStep(depth, left);
      ParentIsShorter(depth, left);
      var count := Get(rest, at);
      if count == 0 {
        assert Get(counts, at) == 0;
        return None;
      }
      rest := Lower(rest, at);
      at := Dir(at);
      left := left / 1024;
    }
    lowered := Some(rest);
  }

  /** Take one away; a directory whose count reaches zero disappears. */
  function Lower(counts: Counts, path: string): (lower: Counts)
    requires Positive(counts) && path in counts
    ensures Positive(lower)
    ensures forall p :: Get(lower, p) == Get(counts, p) - (if p == path then 1 else 0)
  {
    if counts[path] == 1 then counts - {path} else counts[path := counts[path] - 1]
  }

  // ---------------------------------------------------------------- what a correct index is

  ghost function Weight(leaves: seq<DirectoryCount>, path: string): nat {
    if leaves == [] then 0
    else
      var last := leaves[|leaves| - 1];
      Weight(leaves[..|leaves| - 1], path) + Share(path, last.path, last.count)
  }

  ghost function Total(leaves: seq<DirectoryCount>): nat {
    if leaves == [] then 0 else Total(leaves[..|leaves| - 1]) + leaves[|leaves| - 1].count
  }

  /** Every directory's count is the number of messages at or below it, and empty directories are absent. */
  ghost predicate RollUp(counts: Counts, leaves: seq<DirectoryCount>) {
    Positive(counts) && forall path :: Get(counts, path) == Weight(leaves, path)
  }

  predicate WithinFanout(path: string, count: nat) { count <= 1024 && (path == "1" ==> count < 1024) }

  predicate ByPath(a: DirectoryCount, b: DirectoryCount) { Less(a.path, b.path) }

  /** Distinct leaf directories in path order, each holding between one message and its fanout. */
  ghost predicate LeafList(leaves: seq<DirectoryCount>) {
    && Ascending(ByPath, leaves)
    && forall leaf :: leaf in leaves ==>
         IsLeafPath(leaf.path) && leaf.count > 0 && WithinFanout(leaf.path, leaf.count)
  }

  ghost predicate PrefixSums(leaves: seq<DirectoryCount>) {
    forall i :: 0 <= i < |leaves| ==> leaves[i].accumulated == Total(leaves[..i + 1])
  }

  /** `index` is the rank index of `counts`: an exact roll-up of at most `lastID` messages. */
  ghost predicate IndexFor(index: DirectoryIndex, counts: Counts, lastID: nat) {
    && LeafList(index.leaves) && PrefixSums(index.leaves) && RollUp(counts, index.leaves)
    && index.total == Total(index.leaves) <= lastID
  }

  // ---------------------------------------------------------------- facts about indexes

  ghost predicate SameShares(a: seq<DirectoryCount>, b: seq<DirectoryCount>) {
    |a| == |b| && forall i :: 0 <= i < |a| ==> a[i].path == b[i].path && a[i].count == b[i].count
  }

  lemma {:induction false} SameWeight(a: seq<DirectoryCount>, b: seq<DirectoryCount>, path: string)
    requires SameShares(a, b)
    ensures Weight(a, path) == Weight(b, path) && Total(a) == Total(b)
  {
    if a != [] { SameWeight(a[..|a| - 1], b[..|b| - 1], path); }
  }

  lemma {:induction false} TotalMonotone(leaves: seq<DirectoryCount>, k: nat)
    requires k <= |leaves|
    ensures Total(leaves[..k]) <= Total(leaves)
    decreases |leaves| - k
  {
    if k == |leaves| {
      assert leaves[..k] == leaves;
    } else {
      assert leaves[..k + 1][..k] == leaves[..k];
      TotalMonotone(leaves, k + 1);
    }
  }

  lemma {:induction false} WeightAtMostTotal(leaves: seq<DirectoryCount>, path: string)
    ensures Weight(leaves, path) <= Total(leaves)
  {
    if leaves != [] { WeightAtMostTotal(leaves[..|leaves| - 1], path); }
  }

  lemma {:induction false} WeightWitness(leaves: seq<DirectoryCount>, path: string) returns (i: nat)
    requires Weight(leaves, path) > 0
    ensures i < |leaves| && Covers(path, leaves[i].path)
  {
    var n := |leaves| - 1;
    if Covers(path, leaves[n].path) { i := n; } else { i := WeightWitness(leaves[..n], path); }
  }

  lemma {:induction false} FrontOfLeafList(leaves: seq<DirectoryCount>)
    requires LeafList(leaves) && leaves != []
    ensures LeafList(leaves[..|leaves| - 1])
    ensures forall leaf :: leaf in leaves[..|leaves| - 1] ==> leaf.path != leaves[|leaves| - 1].path
  {
    var front := leaves[..|leaves| - 1];
    forall leaf | leaf in front ensures leaf in leaves && leaf.path != leaves[|leaves| - 1].path {
      var i :| 0 <= i < |front| && front[i] == leaf;
      assert ByPath(leaves[i], leaves[|leaves| - 1]);
      LessTrichotomy(leaves[i].path, leaves[|leaves| - 1].path);
    }
  }

  /** At a leaf directory the roll-up is that leaf's own count. */
  lemma {:induction false} LeafWeight(leaves: seq<DirectoryCount>, path: string)
    requires LeafList(leaves) && IsLeafPath(path)
    ensures Weight(leaves, path) > 0 <==> exists leaf :: leaf in leaves && leaf.path == path
    ensures forall leaf :: leaf in leaves && leaf.path == path ==> Weight(leaves, path) == leaf.count
  {
    if leaves != [] {
      var front, last := leaves[..|leaves| - 1], leaves[|leaves| - 1];
      assert last in leaves && forall leaf :: leaf in leaves <==> leaf in front || leaf == last;
      FrontOfLeafList(leaves);
      LeafWeight(front, path);
      if Covers(path, last.path) { LeavesAreApart(path, last.path); }
      else if path == last.path { LeafCoversItself(path); }
    }
  }

  ghost function Paths(leaves: seq<DirectoryCount>): (paths: seq<string>)
    ensures |paths| == |leaves| && forall i :: 0 <= i < |paths| ==> paths[i] == leaves[i].path
  {
    seq(|leaves|, i requires 0 <= i < |leaves| => leaves[i].path)
  }

  /** Two leaf lists with the same roll-up list the same leaves with the same counts. */
  lemma {:induction false} LeafListUnique(a: seq<DirectoryCount>, b: seq<DirectoryCount>)
    requires LeafList(a) && LeafList(b)
    requires forall path :: IsLeafPath(path) ==> Weight(a, path) == Weight(b, path)
    ensures SameShares(a, b)
  {
    LessIsOrder();
    forall path ensures path in Paths(a) <==> path in Paths(b) {
      if path in Paths(a) { PathTransfers(a, b, path); }
      if path in Paths(b) { PathTransfers(b, a, path); }
    }
    assert Ascending(Less, Paths(a)) by {
      forall i, j | 0 <= i < j < |a| ensures Less(Paths(a)[i], Paths(a)[j]) { assert ByPath(a[i], a[j]); }
    }
    assert Ascending(Less, Paths(b)) by {
      forall i, j | 0 <= i < j < |b| ensures Less(Paths(b)[i], Paths(b)[j]) { assert ByPath(b[i], b[j]); }
    }
    AscendingUnique(Less, Paths(a), Paths(b));
    forall i | 0 <= i < |a| ensures a[i].path == b[i].path && a[i].count == b[i].count {
      assert Paths(a)[i] == Paths(b)[i];
      assert a[i] in a && b[i] in b;
      LeafWeight(a, a[i].path);
      LeafWeight(b, a[i].path);
    }
  }

  lemma {:induction false} PathTransfers(a: seq<DirectoryCount>, b: seq<DirectoryCount>, path: string)
    requires LeafList(a) && LeafList(b) && path in Paths(a)
    requires forall p :: IsLeafPath(p) ==> Weight(a, p) == Weight(b, p)
    ensures path in Paths(b)
  {
    var i :| 0 <= i < |a| && Paths(a)[i] == path;
    assert a[i] in a && a[i].path == path;
    LeafWeight(a, path);
    LeafWeight(b, path);
    var leaf :| leaf in b && leaf.path == path;
    var j :| 0 <= j < |b| && b[j] == leaf;
    assert Paths(b)[j] == path;
  }

  /** The counts determine the index. */
  lemma {:induction false} IndexUnique(a: DirectoryIndex, b: DirectoryIndex, counts: Counts, m: nat, n: nat)
    requires IndexFor(a, counts, m) && IndexFor(b, counts, n)
    ensures a == b
  {
    forall path ensures Weight(a.leaves, path) == Weight(b.leaves, path) {
      assert Get(counts, path) == Weight(a.leaves, path);
    }
    LeafListUnique(a.leaves, b.leaves);
    forall i | 0 <= i < |a.leaves| ensures a.leaves[i] == b.leaves[i] {
      SameWeight(a.leaves[..i + 1], b.leaves[..i + 1], "");
    }
    SameWeight(a.leaves, b.leaves, "");
  }

  // ---------------------------------------------------------------- building the index

  /** The per-entry tests of buildDirectoryIndex. */
  ghost predicate EntryOk(counts: Counts, path: string)
    requires path in counts
  {
    IsDirectory(path) && counts[path] > 0 && (IsLeafPath(path) ==> WithinFanout(path, counts[path]))
  }

  ghost predicate EntryError(counts: Counts) { exists path :: path in counts && !EntryOk(counts, path) }

  /** `leaves` lists exactly the leaf directories among the given keys, with nothing accumulated yet. */
  ghost predicate CollectedFrom(leaves: seq<DirectoryCount>, counts: Counts, keys: set<string>)
    requires keys <= counts.Keys
  {
    && (forall leaf :: leaf in leaves ==>
          leaf.path in keys && IsLeafPath(leaf.path) && leaf == DirectoryCount(leaf.path, counts[leaf.path], 0))
    && (forall path :: path in keys && IsLeafPath(path) ==> DirectoryCount(path, counts[path], 0) in leaves)
  }

  /** First loop of buildDirectoryIndex: visit the map in any order, then sort the leaves by path. */
  method CollectLeaves(counts: Counts) returns (r: Result<seq<DirectoryCount>, IndexError>)
    ensures r.Err? ==> EntryError(counts)
    ensures r.Ok? ==> !EntryError(counts) && CollectedFrom(r.value, counts, counts.Keys) && LeafList(r.value)
  {
    var todo := counts.Keys;
    var leaves: seq<DirectoryCount> := [];
    while todo != {}
      invariant todo <= counts.Keys
      invariant forall path :: path in counts.Keys - todo ==> EntryOk(counts, path)
      invariant CollectedFrom(leaves, counts, counts.Keys - todo)
      invariant forall i, j :: 0 <= i < j < |leaves| ==> leaves[i] != leaves[j]
      decreases |todo|
    {
      var path :| path in todo;
      var leaf := ValidDirectory(path);
      if leaf.None? || counts[path] == 0 {
        assert !EntryOk(counts, path);
        return Err(InvalidCount);
      }
      if leaf.value {
        if counts[path] > 1024 || (path == "1" && counts[path] == 1024) {
          assert !EntryOk(counts, path);
          return Err(FanoutExceeded);
        }
        leaves := leaves + [DirectoryCount(path, counts[path], 0)];
      }
      todo := todo - {path};
    }
    ByPathOrder(leaves, counts);
    SortDistinct(ByPath, leaves);
    r := Ok(Sort(ByPath, leaves));
  }

  lemma {:induction false} ByPathOrder(leaves: seq<DirectoryCount>, counts: Counts)
    requires forall leaf :: leaf in leaves ==>
               leaf.path in counts && leaf == DirectoryCount(leaf.path, counts[leaf.path], 0)
    ensures PartialOrder(ByPath) && TotalOn(ByPath, leaves)
  {
    LessIsOrder();
  }

  /** Second loop: prefix sums and the expected ancestor counts, refusing more mail than allocated IDs. */
  method AccumulateLeaves(collected: seq<DirectoryCount>, lastID: uint64)
    returns (r: Result<(DirectoryIndex, Counts), IndexError>)
    requires LeafList(collected)
    ensures r.Ok? <==> Total(collected) <= lastID
    ensures r.Ok? ==> var (index, expected) := r.value;
      && SameShares(index.leaves, collected) && PrefixSums(index.leaves) && LeafList(index.leaves)
      && index.total == Total(index.leaves) <= lastID && RollUp(expected, index.leaves)
  {
    var leaves := collected;
    var total: uint64 := 0;
    var expected: Counts := map[];
    var i := 0;
    while i < |leaves|
      invariant 0 <= i <= |leaves|
      invariant SameShares(leaves, collected)
      invariant PrefixSums(leaves[..i])
      invariant total == Total(leaves[..i]) <= lastID
      invariant RollUp(expected, leaves[..i])
    {
      TotalNext(leaves, i);
      TotalMonotone(leaves, i + 1);
      SameWeight(leaves, collected, "");
      if leaves[i].count > lastID - total { return Err(ExceedsAllocated); }
      total := total + leaves[i].count;
      expected := RollUpLeaf(expected, leaves, i, collected[i], lastID);
      ghost var before := leaves;
      leaves := SetAccumulated(leaves, i, total);
      RollUpTransfers(expected, before[..i + 1], leaves[..i + 1]);
      i := i + 1;
    }
    assert leaves[..i] == leaves;
    SameWeight(leaves, collected, "");
    LeafListTransfers(collected, leaves);
    r := Ok((DirectoryIndex(leaves, total), expected));
  }

  /** Store the running total in the leaf at position i. */
  function SetAccumulated(leaves: seq<DirectoryCount>, i: nat, total: uint64): (r: seq<DirectoryCount>)
    requires i < |leaves| && PrefixSums(leaves[..i]) && total == Total(leaves[..i]) + leaves[i].count
    ensures SameShares(r, leaves) && PrefixSums(r[..i + 1]) && Total(r[..i + 1]) == total
  {
    var r := leaves[i := leaves[i].(accumulated := total)];
    assert r[..i] == leaves[..i];
    PrefixSumsNext(r, i, total);
    r
  }

  lemma {:induction false} RollUpTransfers(counts: Counts, a: seq<DirectoryCount>, b: seq<DirectoryCount>)
    requires RollUp(counts, a) && SameShares(a, b)
    ensures RollUp(counts, b)
  {
    forall path ensures Get(counts, path) == Weight(b, path) { SameWeight(a, b, path); }
  }

  lemma {:induction false} TotalNext(leaves: seq<DirectoryCount>, i: nat)
    requires i < |leaves|
    ensures Total(leaves[..i + 1]) == Total(leaves[..i]) + leaves[i].count
  {
    assert leaves[..i + 1][..i] == leaves[..i];
  }

  lemma {:induction false} PrefixSumsNext(leaves: seq<DirectoryCount>, i: nat, total: nat)
    requires i < |leaves| && PrefixSums(leaves[..i])
    requires leaves[i].accumulated == total == Total(leaves[..i]) + leaves[i].count
    ensures PrefixSums(leaves[..i + 1]) && total == Total(leaves[..i + 1])
  {
    var more := leaves[..i + 1];
    TotalNext(leaves, i);
    forall j | 0 <= j < |more| ensures more[j].accumulated == Total(more[..j + 1]) {
      if j < i {
        assert more[..j + 1] == leaves[..i][..j + 1];
        assert leaves[..i][j].accumulated == Total(leaves[..i][..j + 1]);
      } else {
        assert more[..j + 1] == more;
      }
    }
  }

  lemma {:induction false} LeafListTransfers(a: seq<DirectoryCount>, b: seq<DirectoryCount>)
    requires LeafList(a) && SameShares(a, b)
    ensures LeafList(b)
  {
    forall i, j | 0 <= i < j < |b| ensures ByPath(b[i], b[j]) { assert ByPath(a[i], a[j]); }
    forall leaf | leaf in b ensures IsLeafPath(leaf.path) && leaf.count > 0 && WithinFanout(leaf.path, leaf.count) {
      var i :| 0 <= i < |b| && b[i] == leaf;
      assert a[i] in a;
    }
  }

  /** The inner loop of the second loop, for the leaf at position i. */
  method RollUpLeaf(expected: Counts, leaves: seq<DirectoryCount>, i: nat, ghost leaf: DirectoryCount, lastID: uint64)
    returns (r: Counts)
    requires i < |leaves| && RollUp(expected, leaves[..i])
    requires leaves[i].path == leaf.path && leaves[i].count == leaf.count > 0 && IsLeafPath(leaf.path)
    requires Total(leaves[..i]) + leaf.count <= lastID
    ensures RollUp(r, leaves[..i + 1])
  {
    ghost var p: nat :| p <= MAX_PREFIX && leaf.path == LeafPath(p);
    SixDigits(p);
    forall path ensures Get(expected, path) + leaf.count <= MAX64 { WeightAtMostTotal(leaves[..i], path); }
    r := Raise(expected, leaves[i].path, leaves[i].count, 1 + NumDigits(p), p);
    assert leaves[..i + 1][..i] == leaves[..i];
  }

  lemma {:induction false} SubsetOfEqualSize<T>(a: set<T>, b: set<T>)
    requires a <= b && |a| == |b|
    ensures a == b
  {
    assert |b - a| == 0;
  }

  /** Last loop: same number of directories, and every expected count present. */
  method CheckExpected(expected: Counts, counts: Counts) returns (error: Option<IndexError>)
    requires Positive(expected)
    ensures error.None? <==> expected == counts
  {
    if |expected| != |counts| { return Some(MissingAncestors); }
    var todo := expected.Keys;
    while todo != {}
      invariant todo <= expected.Keys
      invariant forall path :: path in expected.Keys - todo ==> Get(counts, path) == expected[path]
      decreases |todo|
    {
      var path :| path in todo;
      if Get(counts, path) != expected[path] { return Some(DescendantMismatch); }
      todo := todo - {path};
    }
    assert forall path :: path in expected ==> Get(counts, path) == expected[path];
    assert |expected.Keys| == |counts.Keys|;
    SubsetOfEqualSize(expected.Keys, counts.Keys);
    error := None;
  }

  /** buildDirectoryIndex succeeds exactly when some index fits the counts, and returns that index. */
  method BuildDirectoryIndex(counts: Counts, lastID: uint64) returns (r: Result<DirectoryIndex, IndexError>)
    ensures r.Ok? ==> IndexFor(r.value, counts, lastID)
    ensures r.Err? ==> forall index :: !IndexFor(index, counts, lastID)
  {
    forall index | IndexFor(index, counts, lastID) ensures !EntryError(counts) {
      IndexedEntries(index, counts, lastID);
    }
    var collected := CollectLeaves(counts);
    if collected.Err? { return Err(collected.error); }
    forall index | IndexFor(index, counts, lastID)
      ensures Total(collected.value) <= lastID && SameShares(index.leaves, collected.value)
    {
      IndexedLeaves(index, counts, lastID, collected.value);
    }
    var summed := AccumulateLeaves(collected.value, lastID);
    if summed.Err? { return Err(summed.error); }
    var (index, expected) := summed.value;
    forall other ensures IndexFor(other, counts, lastID) ==> expected == counts {
      if IndexFor(other, counts, lastID) {
        ExpectedMatches(other, index, expected, counts, lastID, collected.value);
      }
    }
    var mismatch := CheckExpected(expected, counts);
    if mismatch.Some? { return Err(mismatch.value); }
    r := Ok(index);
  }

  lemma {:induction false} IndexedEntries(index: DirectoryIndex, counts: Counts, lastID: nat)
    requires IndexFor(index, counts, lastID)
    ensures !EntryError(counts)
  {
    forall path | path in counts ensures EntryOk(counts, path) {
      assert Get(counts, path) == Weight(index.leaves, path) > 0;
      var i := WeightWitness(index.leaves, path);
      var leaf := index.leaves[i];
      assert leaf in index.leaves;
      AncestorIsDirectory(path, leaf.path);
      if IsLeafPath(path) { LeafWeight(index.leaves, path); }
    }
  }

  lemma {:induction false} IndexedLeaves(index: DirectoryIndex, counts: Counts, lastID: nat,
                                         collected: seq<DirectoryCount>)
    requires IndexFor(index, counts, lastID)
    requires LeafList(collected) && CollectedFrom(collected, counts, counts.Keys)
    ensures SameShares(index.leaves, collected) && Total(collected) <= lastID
  {
    forall path | IsLeafPath(path) ensures Weight(index.leaves, path) == Weight(collected, path) {
      assert Get(counts, path) == Weight(index.leaves, path);
      LeafWeight(collected, path);
      if path in counts { assert DirectoryCount(path, counts[path], 0) in collected; }
    }
    LeafListUnique(index.leaves, collected);
    SameWeight(index.leaves, collected, "");
  }

  lemma {:induction false} ExpectedMatches(other: DirectoryIndex, index: DirectoryIndex, expected: Counts,
                                           counts: Counts, lastID: nat,
                        collected: seq<DirectoryCount>)
    requires IndexFor(other, counts, lastID) && RollUp(expected, index.leaves)
    requires SameShares(other.leaves, collected) && SameShares(index.leaves, collected)
    ensures expected == counts
  {
    forall path ensures Get(expected, path) == Get(counts, path) {
      SameWeight(other.leaves, collected, path);
      SameWeight(index.leaves, collected, path);
    }
    SameCounts(expected, counts);
  }

  // ---------------------------------------------------------------- rank and select

  /** selectLeaf: the leaf holding the message of the given rank, and its position inside that leaf. */
  method SelectLeaf(index: DirectoryIndex, number: uint64) returns (r: Option<(DirectoryCount, uint64)>)
    requires PrefixSums(index.leaves) && index.total == Total(index.leaves)
    ensures r.Some? <==> 1 <= number <= index.total
    ensures r.Some? ==> var (leaf, offset) := r.value;
      && leaf in index.leaves && offset < leaf.count
      && number - 1 == leaf.accumulated - leaf.count + offset
  {
    if number == 0 || number > index.total { return None; }
    var leaves := index.leaves;
    AccumulatedMonotone(leaves);
    if leaves != [] { AccumulatedAt(leaves, |leaves| - 1); }
    var reached := (i: nat) requires i < |leaves| => leaves[i].accumulated >= number;
    assert leaves != [] && reached(|leaves| - 1);
    var position := Search(|leaves|, reached);
    AccumulatedAt(leaves, position);
    assert reached(position) && (position > 0 ==> !reached(position - 1));
    assert leaves[position].accumulated - leaves[position].count < number <= leaves[position].accumulated;
    r := Some((leaves[position], number - (leaves[position].accumulated - leaves[position].count) - 1));
  }

  lemma {:induction false} AccumulatedMonotone(leaves: seq<DirectoryCount>)
    requires PrefixSums(leaves)
    ensures forall i, j :: 0 <= i <= j < |leaves| ==> leaves[i].accumulated <= leaves[j].accumulated
  {
    forall i, j | 0 <= i <= j < |leaves| ensures leaves[i].accumulated <= leaves[j].accumulated {
      assert leaves[..j + 1][..i + 1] == leaves[..i + 1];
      TotalMonotone(leaves[..j + 1], i + 1);
    }
  }

  /** A leaf's messages lie between the sums before and after it. */
  lemma {:induction false} AccumulatedAt(leaves: seq<DirectoryCount>, i: nat)
    requires PrefixSums(leaves) && i < |leaves|
    ensures leaves[i].accumulated - leaves[i].count == if i == 0 then 0 else leaves[i - 1].accumulated
    ensures leaves[i].accumulated <= Total(leaves)
    ensures i == |leaves| - 1 ==> leaves[i].accumulated == Total(leaves)
  {
    TotalNext(leaves, i);
    TotalMonotone(leaves, i + 1);
    if i > 0 { assert leaves[i - 1].accumulated == Total(leaves[..i - 1 + 1]); }
    if i == |leaves| - 1 { assert leaves[..i + 1] == leaves; }
  }
}
