/** Run-length counting of an ordered list of leaf directories: the combinatorial core of the rank index,
    free of any path syntax. */
module Tally {
  import opened Prelude
  import opened Text
  import opened DirectoryCounts

  /** Equal keys are adjacent and distinct keys ascend. */
  ghost predicate Grouped(keys: seq<string>) {
    |keys| <= 1 || (Grouped(keys[..|keys| - 1]) && NotAfter(keys[|keys| - 2], keys[|keys| - 1]))
  }

  ghost predicate NotAfter(a: string, b: string) { a == b || Less(a, b) }

  lemma {:induction false} GroupedOrder(keys: seq<string>, k: nat)
    requires Grouped(keys) && k < |keys|
    ensures NotAfter(keys[k], keys[|keys| - 1])
  {
    var n := |keys| - 1;
    if k < n {
      GroupedOrder(keys[..n], k);
      if Less(keys[k], keys[n - 1]) && Less(keys[n - 1], keys[n]) { LessTransitive(keys[k], keys[n - 1], keys[n]); }
    }
  }

  /** Count one more key, the `total`-th of all: the last entry grows or a new one follows. */
  ghost function Grow(front: seq<DirectoryCount>, key: string, total: uint64): (leaves: seq<DirectoryCount>)
    requires Total(front) == total - 1
    ensures leaves != [] && |leaves| <= |front| + 1
    ensures Total(leaves) == total
    ensures var last := leaves[|leaves| - 1];
            last.path == key && last.count > 0 && last.accumulated == total
    ensures if front != [] && front[|front| - 1].path == key
            then |leaves| == |front| && leaves[|leaves| - 1].count == front[|front| - 1].count + 1
            else |leaves| == |front| + 1 && leaves[|leaves| - 1].count == 1
    ensures leaves[..|leaves| - 1] == front[..|leaves| - 1]
  {
    if front != [] && front[|front| - 1].path == key then
      var kept, last := front[..|front| - 1], front[|front| - 1];
      var leaves := kept + [DirectoryCount(key, last.count + 1, total)];
      assert leaves[..|leaves| - 1] == kept;
      leaves
    else
      var leaves := front + [DirectoryCount(key, 1, total)];
      assert leaves[..|leaves| - 1] == front;
      leaves
  }

  /** One entry per distinct key, in order of first appearance. */
  ghost function Count(keys: seq<string>): (leaves: seq<DirectoryCount>)
    requires |keys| <= MAX64
    ensures Total(leaves) == |keys|
    ensures keys != [] ==> leaves != [] && leaves[|leaves| - 1].path == keys[|keys| - 1]
                           && leaves[|leaves| - 1].accumulated == |keys|
  {
    if keys == [] then [] else Grow(Count(keys[..|keys| - 1]), keys[|keys| - 1], |keys|)
  }

  ghost function KeyWeight(keys: seq<string>, path: string): nat {
    if keys == [] then 0 else KeyWeight(keys[..|keys| - 1], path) + Share(path, keys[|keys| - 1], 1)
  }

  lemma {:induction false} GrowWeight(front: seq<DirectoryCount>, key: string, total: uint64, path: string)
    requires Total(front) == total - 1
    ensures Weight(Grow(front, key, total), path) == Weight(front, path) + Share(path, key, 1)
  {
    var whole := Grow(front, key, total);
    if |whole| == |front| + 1 { assert front[..|front|] == front; }
  }

  lemma {:induction false} CountWeight(keys: seq<string>, path: string)
    requires |keys| <= MAX64
    ensures Weight(Count(keys), path) == KeyWeight(keys, path)
  {
    if keys != [] {
      CountWeight(keys[..|keys| - 1], path);
      GrowWeight(Count(keys[..|keys| - 1]), keys[|keys| - 1], |keys|, path);
    }
  }

  lemma {:induction false} CountPrefixSums(keys: seq<string>)
    requires |keys| <= MAX64
    ensures PrefixSums(Count(keys))
  {
    if keys != [] {
      CountPrefixSums(keys[..|keys| - 1]);
      PrefixSumsGrow(Count(keys[..|keys| - 1]), Count(keys));
    }
  }

  lemma {:induction false} PrefixSumsGrow(front: seq<DirectoryCount>, whole: seq<DirectoryCount>)
    requires PrefixSums(front) && 0 < |whole| <= |front| + 1
    requires var n := |whole| - 1; whole[..n] == front[..n] && whole[n].accumulated == Total(whole)
    ensures PrefixSums(whole)
  {
    var n := |whole| - 1;
    forall i | 0 <= i < |whole| ensures whole[i].accumulated == Total(whole[..i + 1]) {
      if i < n {
        assert whole[..i + 1] == whole[..n][..i + 1] == front[..i + 1];
        assert whole[i] == whole[..n][i] == front[i];
      } else {
        assert whole[..i + 1] == whole;
      }
    }
  }

  ghost predicate Ascends(leaves: seq<DirectoryCount>) {
    forall i, j :: 0 <= i < j < |leaves| ==> Less(leaves[i].path, leaves[j].path)
  }

  lemma {:induction false} CountAscends(keys: seq<string>)
    requires Grouped(keys) && |keys| <= MAX64
    ensures Ascends(Count(keys))
  {
    if keys != [] {
      var n := |keys| - 1;
      var front := Count(keys[..n]);
      CountAscends(keys[..n]);
      GrowAscends(front, keys[n], |keys|);
    }
  }

  lemma {:induction false} GrowAscends(front: seq<DirectoryCount>, key: string, total: uint64)
    requires Ascends(front) && Total(front) == total - 1
    requires front != [] ==> front[|front| - 1].path == key || Less(front[|front| - 1].path, key)
    ensures Ascends(Grow(front, key, total))
  {
    var whole := Grow(front, key, total);
    var n := |whole| - 1;
    forall i, j | 0 <= i < j < |whole| ensures Less(whole[i].path, whole[j].path) {
      assert whole[i] == whole[..n][i] == front[..n][i] == front[i];
      if j < n {
        assert whole[j] == whole[..n][j] == front[..n][j] == front[j];
      } else if |whole| == |front| {
        assert Less(front[i].path, front[n].path);
      } else if i < |front| - 1 {
        LessTransitive(front[i].path, front[|front| - 1].path, key);
      }
    }
  }

  /** `leaf` owns position k exactly when k lies between its prefix sums. */
  ghost predicate OwnsAt(leaf: DirectoryCount, keys: seq<string>, k: nat)
    requires k < |keys|
  {
    leaf.path == keys[k] <==> leaf.accumulated - leaf.count <= k < leaf.accumulated
  }

  /** The entries cut the list into consecutive runs. */
  lemma {:induction false} CountOwns(keys: seq<string>, i: nat, k: nat)
    requires Grouped(keys) && |keys| <= MAX64 && i < |Count(keys)| && k < |keys|
    ensures OwnsAt(Count(keys)[i], keys, k)
  {
    var n := |keys| - 1;
    if k == n {
      OwnsLast(keys, i);
    } else {
      if i < |Count(keys[..n])| { CountOwns(keys[..n], i, k); }
      OwnsEarlier(keys, i, k);
    }
  }

  lemma {:induction false} OwnsLast(keys: seq<string>, i: nat)
    requires Grouped(keys) && |keys| <= MAX64 && i < |Count(keys)| && keys != []
    ensures OwnsAt(Count(keys)[i], keys, |keys| - 1)
  {
    CountAscends(keys);
    CountPrefixSums(keys);
    LastOwner(Count(keys), keys, i);
  }

  lemma {:induction false} OwnsEarlier(keys: seq<string>, i: nat, k: nat)
    requires Grouped(keys) && |keys| <= MAX64 && i < |Count(keys)| && k < |keys| - 1
    requires var front := keys[..|keys| - 1]; i < |Count(front)| ==> OwnsAt(Count(front)[i], front, k)
    ensures OwnsAt(Count(keys)[i], keys, k)
  {
    var front := keys[..|keys| - 1];
    assert front[k] == keys[k];
    if i >= |Count(front)| { NotYetSeen(keys, k); }
    GrowOwns(Count(front), keys, i, k);
  }

  lemma {:induction false} GrowOwns(front: seq<DirectoryCount>, keys: seq<string>, i: nat, k: nat)
    requires k < |keys| - 1 < MAX64 && Total(front) == |keys| - 1
    requires front != [] ==> front[|front| - 1].accumulated == |keys| - 1
    requires i < |Grow(front, keys[|keys| - 1], |keys|)|
    requires if i < |front| then OwnsAt(front[i], keys, k) else keys[k] != keys[|keys| - 1]
    ensures OwnsAt(Grow(front, keys[|keys| - 1], |keys|)[i], keys, k)
  {
    var whole := Grow(front, keys[|keys| - 1], |keys|);
    var n := |whole| - 1;
    if i < n { assert whole[i] == whole[..n][i] == front[..n][i] == front[i]; }
  }

  /** A key that opens a new entry has not been seen before. */
  lemma {:induction false} NotYetSeen(keys: seq<string>, k: nat)
    requires Grouped(keys) && k < |keys| - 1 < MAX64
    requires |Count(keys)| > |Count(keys[..|keys| - 1])|
    ensures keys[k] != keys[|keys| - 1]
  {
    var n := |keys| - 1;
    assert keys[n - 1] != keys[n];
    LessTrichotomy(keys[n - 1], keys[n]);
    GroupedOrder(keys[..n], k);
    if Less(keys[k], keys[n - 1]) { LessTransitive(keys[k], keys[n - 1], keys[n]); }
    LessTrichotomy(keys[k], keys[n]);
  }

  /** The last position belongs to the last entry alone. */
  lemma {:induction false} LastOwner(leaves: seq<DirectoryCount>, keys: seq<string>, i: nat)
    requires Ascends(leaves) && PrefixSums(leaves) && keys != [] && i < |leaves| && Total(leaves) == |keys|
    requires leaves[|leaves| - 1].path == keys[|keys| - 1] && leaves[|leaves| - 1].count > 0
    ensures OwnsAt(leaves[i], keys, |keys| - 1)
  {
    var last := |leaves| - 1;
    AccumulatedAt(leaves, last);
    if i < last {
      LessTrichotomy(leaves[i].path, leaves[last].path);
      AccumulatedMonotone(leaves);
      assert leaves[i].accumulated <= leaves[last - 1].accumulated;
    }
  }

  /** Every key has its entry. */
  lemma {:induction false} CountCovers(keys: seq<string>, k: nat)
    requires |keys| <= MAX64 && k < |keys|
    ensures exists i :: 0 <= i < |Count(keys)| && Count(keys)[i].path == keys[k]
  {
    var whole := Count(keys);
    var n := |whole| - 1;
    if k == |keys| - 1 {
      assert whole[n].path == keys[k];
    } else {
      var front := Count(keys[..|keys| - 1]);
      CountCovers(keys[..|keys| - 1], k);
      var i :| 0 <= i < |front| && front[i].path == keys[k];
      if i < n {
        assert whole[i] == whole[..n][i] == front[..n][i] == front[i];
      } else {
        assert whole[n].path == keys[k];
      }
    }
  }
}
