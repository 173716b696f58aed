/** The simple thing the archive must agree with: one commit's live mail as a sequence in ID order.
    Histograms, octet totals and the rank index of directories.go are all read off that sequence here. */
module LiveMail {
  import opened Prelude
  import opened Text
  import opened IdPath
  import opened Directories
  import opened DirectoryCounts
  import opened Tally

  predicate ById(a: Message, b: Message) { a.id < b.id }

  /** Strictly increasing non-zero IDs. */
  ghost predicate IdList(live: seq<Message>) {
    Ascending(ById, live) && forall m :: m in live ==> m.id > 0
  }

  /** ... each stored under its own path. */
  ghost predicate LiveList(live: seq<Message>) {
    IdList(live) && forall m :: m in live ==> IsMessage(m)
  }

  ghost predicate AllocatedBy(live: seq<Message>, lastID: nat) { forall m :: m in live ==> m.id <= lastID }

  ghost function CountUnder(live: seq<Message>, path: string): nat {
    if live == [] then 0
    else CountUnder(live[..|live| - 1], path) + Share(path, LeafOf(live[|live| - 1].id), 1)
  }

  ghost function Octets(live: seq<Message>): nat {
    if live == [] then 0 else Octets(live[..|live| - 1]) + live[|live| - 1].size
  }

  /** `counts` is the ancestor histogram of the live messages. */
  ghost predicate Histogram(counts: Counts, live: seq<Message>) {
    Positive(counts) && forall path :: Get(counts, path) == CountUnder(live, path)
  }

  lemma {:induction false} Snoc(live: seq<Message>, m: Message, path: string)
    ensures CountUnder(live + [m], path) == CountUnder(live, path) + Share(path, LeafOf(m.id), 1)
    ensures Octets(live + [m]) == Octets(live) + m.size
  {
    assert (live + [m])[..|live|] == live;
  }

  lemma {:induction false} FrontOfIdList(live: seq<Message>)
    requires IdList(live) && live != []
    ensures IdList(live[..|live| - 1])
    ensures forall m :: m in live[..|live| - 1] ==> m in live && m.id < live[|live| - 1].id
  {
    var front := live[..|live| - 1];
    forall m | m in front ensures m in live && m.id < live[|live| - 1].id {
      var i :| 0 <= i < |front| && front[i] == m;
      assert ById(live[i], live[|live| - 1]);
    }
  }

  lemma {:induction false} FrontIsIdList(live: seq<Message>)
    requires IdList(live) && live != []
    ensures IdList(live[..|live| - 1])
  {
    FrontOfIdList(live);
  }

  /** IDs start at one, so there are never more live messages than the largest ID. */
  lemma {:induction false} CountBelowLastID(live: seq<Message>)
    requires IdList(live)
    ensures live != [] ==> |live| <= live[|live| - 1].id
  {
    if live != [] {
      assert live[|live| - 1] in live;
      FrontOfIdList(live);
      CountBelowLastID(live[..|live| - 1]);
      if |live| > 1 { assert live[|live| - 2] in live[..|live| - 1]; }
    }
  }

  // ---------------------------------------------------------------- the index read off the live list

  /** The leaf directory of every message. */
  ghost function Keys(live: seq<Message>): (keys: seq<string>)
    ensures |keys| == |live|
  {
    if live == [] then [] else Keys(live[..|live| - 1]) + [LeafOf(live[|live| - 1].id)]
  }

  /** The rank index of a live list: one entry per leaf directory, counting its messages. */
  ghost function Table(live: seq<Message>): (leaves: seq<DirectoryCount>)
    requires |live| <= MAX64
    ensures Total(leaves) == |live|
  {
    Count(Keys(live))
  }

  lemma {:induction false} KeyAt(live: seq<Message>, k: nat)
    requires k < |live|
    ensures Keys(live)[k] == LeafOf(live[k].id)
  {
    if k < |live| - 1 { KeyAt(live[..|live| - 1], k); }
  }

  lemma {:induction false} KeysAreGrouped(live: seq<Message>)
    requires IdList(live)
    ensures Grouped(Keys(live))
  {
    var n := |live| - 1;
    if n >= 1 {
      FrontIsIdList(live);
      KeysAreGrouped(live[..n]);
      KeyAt(live, n - 1);
      KeyAt(live, n);
      assert ById(live[n - 1], live[n]);
      LeafOrderIsIdOrder(live[n - 1].id, live[n].id);
      GroupedSnoc(Keys(live[..n]), LeafOf(live[n].id));
    }
  }

  lemma {:induction false} GroupedSnoc(keys: seq<string>, key: string)
    requires Grouped(keys) && keys != [] && NotAfter(keys[|keys| - 1], key)
    ensures Grouped(keys + [key])
  {
    assert (keys + [key])[..|keys|] == keys;
  }

  lemma {:induction false} KeysWeight(live: seq<Message>, path: string)
    ensures KeyWeight(Keys(live), path) == CountUnder(live, path)
  {
    if live != [] {
      KeysWeight(live[..|live| - 1], path);
      var keys := Keys(live);
      assert keys[..|keys| - 1] == Keys(live[..|live| - 1]);
    }
  }

  /** Leaf i of the index owns exactly the messages between its prefix sums. */
  lemma {:induction false} LeafOwnsRun(live: seq<Message>, i: nat, k: nat)
    requires IdList(live) && |live| <= MAX64 && i < |Table(live)| && k < |live|
    ensures var leaf := Table(live)[i];
            leaf.path == LeafOf(live[k].id) <==> leaf.accumulated - leaf.count <= k < leaf.accumulated
  {
    KeysAreGrouped(live);
    CountOwns(Keys(live), i, k);
    KeyAt(live, k);
  }

  // ---------------------------------------------------------------- fanout

  lemma {:induction false} IdsSpread(live: seq<Message>, a: nat, b: nat)
    requires IdList(live) && a <= b < |live|
    ensures live[b].id - live[a].id >= b - a
    decreases b
  {
    if a < b {
      IdsSpread(live, a, b - 1);
      assert ById(live[b - 1], live[b]);
    }
  }

  lemma {:induction false} SameBlock(a: nat, b: nat, gap: int)
    requires a / 1024 == b / 1024 && b - a >= gap
    ensures gap <= 1023
    ensures a > 0 && a / 1024 == 0 ==> gap <= 1022
  {
  }

  lemma {:induction false} OnlyPrefixZeroIsOne(id: uint64)
    ensures LeafOf(id) == "1" ==> id / 1024 == 0
  {
    DepthChar(1);
    assert DirPath(1, 0) == FormatUint(1, 10) == "1";
    assert LeafPath(0) == "1";
    LeafOrderIsIdOrder(id, 0);
  }

  lemma {:induction false} LeafOfIsLeaf(id: uint64)
    ensures IsLeafPath(LeafOf(id))
  {
    DigitBounds(id);
    assert LeafOf(id) == LeafPath(id / 1024);
  }

  /** A run of one leaf is no longer than the number of non-zero IDs the leaf can hold. */
  lemma {:induction false} RunWithinFanout(live: seq<Message>, a: nat, b: nat, path: string)
    requires IdList(live) && a < b <= |live|
    requires LeafOf(live[a].id) == path && LeafOf(live[b - 1].id) == path
    ensures WithinFanout(path, b - a) && IsLeafPath(path)
  {
    assert live[a] in live;
    IdsSpread(live, a, b - 1);
    LeafOrderIsIdOrder(live[a].id, live[b - 1].id);
    SameBlock(live[a].id, live[b - 1].id, b - 1 - a);
    OnlyPrefixZeroIsOne(live[a].id);
    LeafOfIsLeaf(live[a].id);
  }

  /** So many different messages can be in this leaf directory. */
  ghost predicate Fills(live: seq<Message>, path: string, count: nat) {
    IdList(live) && |live| == count && forall m :: m in live ==> LeafOf(m.id) == path
  }

  /** The bound on a leaf's count is its capacity: so many messages and no more can be there. */
  lemma {:induction false} FanoutIsCapacity(path: string, count: nat)
    requires IsLeafPath(path) && count > 0
    ensures WithinFanout(path, count) <==> exists live :: Fills(live, path, count)
  {
    if exists live :: Fills(live, path, count) {
      var live :| Fills(live, path, count);
      assert live[0] in live && live[count - 1] in live;
      RunWithinFanout(live, 0, count, path);
    }
    if WithinFanout(path, count) {
      var p: nat :| p <= MAX_PREFIX && path == LeafPath(p);
      FilledLeaf(p, count);
    }
  }

  lemma {:induction false} FilledLeaf(p: nat, count: nat)
    requires p <= MAX_PREFIX && 0 < count <= 1024 && (p == 0 ==> count < 1024 || LeafPath(p) != "1")
    ensures exists live :: Fills(live, LeafPath(p), count)
  {
    var first := p * 1024 + if p == 0 then 1 else 0;
    if p == 0 { assert LeafPath(0) == DirPath(1, 0) == FormatUint(1, 10); DepthChar(1); }
    var live := seq(count, i requires 0 <= i < count => Message(first + i, 0, ""));
    forall m | m in live ensures m.id > 0 && LeafOf(m.id) == LeafPath(p) {
      var i :| 0 <= i < count && live[i] == m;
      assert m.id == first + i && m.id / 1024 == p;
    }
    forall i, j | 0 <= i < j < count ensures ById(live[i], live[j]) { }
    assert Fills(live, LeafPath(p), count);
  }

  lemma {:induction false} TableBounds(live: seq<Message>, i: nat)
    requires |live| <= MAX64 && i < |Table(live)|
    ensures 0 < Table(live)[i].count <= Table(live)[i].accumulated <= |live|
  {
    CountPositive(Keys(live), i);
    CountPrefixSums(Keys(live));
    AccumulatedAt(Table(live), i);
  }

  /** The positions from `a` up to `b` are those of the messages in directory `path`. */
  ghost predicate IsRun(live: seq<Message>, path: string, a: nat, b: nat) {
    a < b <= |live| && forall k :: 0 <= k < |live| ==> (LeafOf(live[k].id) == path <==> a <= k < b)
  }

  lemma {:induction false} TableRun(live: seq<Message>, i: nat)
    requires IdList(live) && |live| <= MAX64 && i < |Table(live)|
    ensures var leaf := Table(live)[i];
            leaf.count <= leaf.accumulated && IsRun(live, leaf.path, leaf.accumulated - leaf.count, leaf.accumulated)
  {
    TableBounds(live, i);
    var leaf := Table(live)[i];
    forall k | 0 <= k < |live|
      ensures LeafOf(live[k].id) == leaf.path <==> leaf.accumulated - leaf.count <= k < leaf.accumulated
    {
      LeafOwnsRun(live, i, k);
    }
  }

  lemma {:induction false} TableEntry(live: seq<Message>, i: nat)
    requires IdList(live) && |live| <= MAX64 && i < |Table(live)|
    ensures var leaf := Table(live)[i];
            IsLeafPath(leaf.path) && leaf.count > 0 && WithinFanout(leaf.path, leaf.count)
  {
    TableRun(live, i);
    var leaf := Table(live)[i];
    RunWithinFanout(live, leaf.accumulated - leaf.count, leaf.accumulated, leaf.path);
  }

  /** The table is a sorted list of leaf directories within their fanout. */
  lemma {:induction false} TableIsLeafList(live: seq<Message>)
    requires IdList(live) && |live| <= MAX64
    ensures LeafList(Table(live)) && PrefixSums(Table(live))
  {
    KeysAreGrouped(live);
    CountAscends(Keys(live));
    CountPrefixSums(Keys(live));
    var leaves := Table(live);
    forall i, j | 0 <= i < j < |leaves| ensures ByPath(leaves[i], leaves[j]) {
      assert Less(leaves[i].path, leaves[j].path);
    }
    forall leaf | leaf in leaves
      ensures IsLeafPath(leaf.path) && leaf.count > 0 && WithinFanout(leaf.path, leaf.count)
    {
      var i :| 0 <= i < |leaves| && leaves[i] == leaf;
      TableEntry(live, i);
    }
  }

  lemma {:induction false} CountPositive(keys: seq<string>, i: nat)
    requires |keys| <= MAX64 && i < |Count(keys)|
    ensures Count(keys)[i].count > 0
  {
    var whole := Count(keys);
    var n := |whole| - 1;
    if i < n {
      var front := Count(keys[..|keys| - 1]);
      assert whole[i] == whole[..n][i] == front[..n][i] == front[i];
      CountPositive(keys[..|keys| - 1], i);
    }
  }

  /** The histogram of a live list always has an index, and it is the table of that list. */
  lemma {:induction false} TableIsIndex(live: seq<Message>, counts: Counts, lastID: uint64)
    requires IdList(live) && AllocatedBy(live, lastID) && Histogram(counts, live)
    ensures |live| <= lastID
    ensures IndexFor(DirectoryIndex(Table(live), |live|), counts, lastID)
  {
    CountBelowLastID(live);
    assert live != [] ==> live[|live| - 1] in live;
    TableIsLeafList(live);
    forall path ensures Get(counts, path) == Weight(Table(live), path) {
      CountWeight(Keys(live), path);
      KeysWeight(live, path);
    }
  }

  // ---------------------------------------------------------------- removing mail

  ghost function Without(live: seq<Message>, gone: set<uint64>): seq<Message> {
    if live == [] then []
    else
      var front, last := Without(live[..|live| - 1], gone), live[|live| - 1];
      if last.id in gone then front else front + [last]
  }

  lemma {:induction false} WithoutMembers(live: seq<Message>, gone: set<uint64>)
    ensures forall m :: m in Without(live, gone) <==> m in live && m.id !in gone
  {
    if live != [] {
      var front, last := live[..|live| - 1], live[|live| - 1];
      WithoutMembers(front, gone);
      assert forall m :: m in live <==> m in front || m == last;
    }
  }

  lemma {:induction false} WithoutIsLiveList(live: seq<Message>, gone: set<uint64>)
    requires LiveList(live)
    ensures LiveList(Without(live, gone))
  {
    if live != [] {
      FrontOfIdList(live);
      var front := live[..|live| - 1];
      WithoutIsLiveList(front, gone);
      WithoutMembers(front, gone);
      WithoutMembers(live, gone);
      var rest := Without(front, gone);
      forall i | 0 <= i < |rest| ensures rest[i].id < live[|live| - 1].id { assert rest[i] in front; }
      assert forall m :: m in Without(live, gone) ==> m in live;
    }
  }

  lemma {:induction false} WithoutNothing(live: seq<Message>, gone: set<uint64>)
    requires forall m :: m in live ==> m.id !in gone
    ensures Without(live, gone) == live
  {
    if live != [] {
      assert live[|live| - 1] in live;
      WithoutNothing(live[..|live| - 1], gone);
    }
  }

  lemma {:induction false} WithoutLast(live: seq<Message>, gone: set<uint64>, path: string)
    requires live != []
    ensures var front, last := live[..|live| - 1], live[|live| - 1];
      && CountUnder(Without(live, gone), path) ==
           CountUnder(Without(front, gone), path) + (if last.id in gone then 0 else Share(path, LeafOf(last.id), 1))
      && Octets(Without(live, gone)) == Octets(Without(front, gone)) + (if last.id in gone then 0 else last.size)
  {
    Snoc(Without(live[..|live| - 1], gone), live[|live| - 1], path);
  }

  /** Taking one more message away lowers its ancestors by one and the octets by its size. */
  lemma {:induction false} WithoutOneMore(live: seq<Message>, gone: set<uint64>, m: Message, path: string)
    requires IdList(live) && m in live && m.id !in gone
    ensures CountUnder(Without(live, gone), path)
            == CountUnder(Without(live, gone + {m.id}), path) + Share(path, LeafOf(m.id), 1)
    ensures Octets(Without(live, gone)) == Octets(Without(live, gone + {m.id})) + m.size
  {
    var front, last := live[..|live| - 1], live[|live| - 1];
    FrontOfIdList(live);
    WithoutLast(live, gone, path);
    WithoutLast(live, gone + {m.id}, path);
    if last == m {
      SameWithout(front, gone, gone + {m.id});
    } else {
      assert m in front && last.id != m.id;
      WithoutOneMore(front, gone, m, path);
    }
  }

  lemma {:induction false} WithoutIsNoLonger(live: seq<Message>, gone: set<uint64>)
    ensures |Without(live, gone)| <= |live|
  {
    if live != [] { WithoutIsNoLonger(live[..|live| - 1], gone); }
  }

  /** Removing a message that is there makes the list shorter. */
  lemma {:induction false} WithoutIsShorter(live: seq<Message>, gone: set<uint64>, m: Message)
    requires m in live && m.id in gone
    ensures |Without(live, gone)| < |live|
  {
    var front, last := live[..|live| - 1], live[|live| - 1];
    WithoutIsNoLonger(front, gone);
    if last.id !in gone { WithoutIsShorter(front, gone, m); }
  }

  lemma {:induction false} SameWithout(live: seq<Message>, a: set<uint64>, b: set<uint64>)
    requires forall m :: m in live ==> (m.id in a <==> m.id in b)
    ensures Without(live, a) == Without(live, b)
  {
    if live != [] {
      assert live[|live| - 1] in live;
      SameWithout(live[..|live| - 1], a, b);
    }
  }

  /** In an ID list an ID names one message. */
  lemma {:induction false} OneMessagePerId(live: seq<Message>, a: Message, b: Message)
    requires IdList(live) && a in live && b in live && a.id == b.id
    ensures a == b
  {
    forall p, q | 0 <= p < q < |live| ensures live[p].id < live[q].id { assert ById(live[p], live[q]); }
    var i :| 0 <= i < |live| && live[i] == a;
    var j :| 0 <= j < |live| && live[j] == b;
  }

  lemma {:induction false} CountAtMostLength(live: seq<Message>, path: string)
    ensures CountUnder(live, path) <= |live|
  {
    if live != [] { CountAtMostLength(live[..|live| - 1], path); }
  }

  ghost function IdsOf(messages: seq<Message>): set<uint64> {
    if messages == [] then {} else IdsOf(messages[..|messages| - 1]) + {messages[|messages| - 1].id}
  }

  lemma {:induction false} IdsOfMembers(messages: seq<Message>)
    ensures forall id :: id in IdsOf(messages) <==> exists m :: m in messages && m.id == id
  {
    if messages != [] {
      var front, last := messages[..|messages| - 1], messages[|messages| - 1];
      IdsOfMembers(front);
      assert forall m :: m in messages <==> m in front || m == last;
    }
  }
}
