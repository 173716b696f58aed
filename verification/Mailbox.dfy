/** internal/archive/mailbox.go, the readers: Lookup, messageByID, ListAt and OpenMessage against one snapshot,
    each proved to be a view of the live list of the snapshot's commit. */
module Mailbox {
  import opened Prelude
  import opened Text
  import opened IdPath
  import opened DirectoryCounts
  import opened Tally
  import opened LiveMail
  import opened Tree
  import opened Commits

  datatype Snapshot = Snapshot(lastID: uint64, totalOctets: uint64, messageCount: uint64,
                               index: Option<DirectoryIndex>, commit: nat)

  datatype Row = Row(number: nat, id: uint64, size: uint64)

  /** The index came out of buildDirectoryIndex. */
  ghost predicate WellFormed(snapshot: Snapshot) {
    snapshot.index.Some? ==>
      var index := snapshot.index.value;
      LeafList(index.leaves) && PrefixSums(index.leaves) && index.total == Total(index.leaves)
  }

  /** The snapshot's numbers are those of the commit it is pinned to. */
  ghost predicate Describes(snapshot: Snapshot, c: Commit) {
    && snapshot.index.Some? && IndexFor(snapshot.index.value, c.state.directories, c.state.lastID)
    && snapshot.messageCount == snapshot.index.value.total
    && snapshot.lastID == c.state.lastID && snapshot.totalOctets == c.state.totalOctets
  }

  /** A coherent commit whose snapshot this is. */
  ghost predicate Pinned(snapshot: Snapshot, c: Commit, live: seq<Message>) {
    Describes(snapshot, c) && Coherent(c, live)
  }

  lemma {:induction false} PinnedIndex(snapshot: Snapshot, c: Commit, live: seq<Message>)
    requires Pinned(snapshot, c, live)
    ensures |live| <= MAX64 && snapshot.index == Some(DirectoryIndex(Table(live), |live|))
    ensures snapshot.messageCount == |live| && snapshot.totalOctets == Octets(live)
  {
    TableIsIndex(live, c.state.directories, c.state.lastID);
    IndexUnique(snapshot.index.value, DirectoryIndex(Table(live), |live|), c.state.directories,
                c.state.lastID, c.state.lastID);
  }

  /** The numbers of one commit do not describe another that shows more or fewer messages. */
  lemma {:induction false} StaleIndex(snapshot: Snapshot, c: Commit, live: seq<Message>, next: Commit,
                                      rest: seq<Message>,
                                      head: nat)
    requires Pinned(snapshot, c, live) && Coherent(next, rest) && |rest| != |live|
    ensures !Describes(snapshot.(commit := head), next)
  {
    PinnedIndex(snapshot, c, live);
    if Describes(snapshot.(commit := head), next) { PinnedIndex(snapshot.(commit := head), next, rest); }
  }

  lemma {:induction false} OnlyListing(r: Result<seq<Message>, ReadError>, listing: seq<Message>,
                                       paths: set<string>, path: string)
    requires r.Ok? ==> IsListing(r.value, paths, path)
    requires r.Err? ==> forall messages :: !IsListing(messages, paths, path)
    requires IsListing(listing, paths, path)
    ensures r == Ok(listing)
  {
    if r.Ok? { ListingUnique(r.value, listing, paths, path); }
  }

  /** `run` is what a leaf directory of this tree lists, as many messages as the index says. */
  ghost predicate Lists(paths: set<string>, leaf: DirectoryCount, run: seq<Message>) {
    IsListing(run, paths, leaf.path) && |run| == leaf.count
  }

  /** Read one leaf directory and insist that it holds as many messages as the index says. */
  method ReadLeaf(paths: set<string>, leaf: DirectoryCount, ghost run: seq<Message>)
    returns (r: Result<seq<Message>, ReadError>)
    ensures r.Ok? ==> |r.value| == leaf.count && Ascending(ById, r.value)
    ensures Lists(paths, leaf, run) ==> r == Ok(run)
  {
    var messages := Directory(paths, leaf.path);
    if Lists(paths, leaf, run) { OnlyListing(messages, run, paths, leaf.path); }
    if messages.Err? { return messages; }
    if |messages.value| != leaf.count { return Err(CountMismatch); }
    r := messages;
  }

  /** `run` is the stretch of the live list between the prefix sums of `leaf`. */
  ghost predicate Stretch(run: seq<Message>, live: seq<Message>, leaf: DirectoryCount) {
    leaf.count <= leaf.accumulated <= |live| && run == live[leaf.accumulated - leaf.count..leaf.accumulated]
  }

  lemma {:induction false} PinnedEntry(snapshot: Snapshot, c: Commit, live: seq<Message>, i: nat)
    returns (leaf: DirectoryCount)
    requires Pinned(snapshot, c, live) && i < |snapshot.index.value.leaves|
    ensures leaf == snapshot.index.value.leaves[i]
    ensures |live| <= MAX64 && i < |Table(live)| && Table(live)[i] == leaf
  {
    PinnedIndex(snapshot, c, live);
    leaf := snapshot.index.value.leaves[i];
  }

  lemma {:induction false} PinnedLeaf(snapshot: Snapshot, c: Commit, live: seq<Message>, i: nat)
    returns (run: seq<Message>)
    requires Pinned(snapshot, c, live) && i < |snapshot.index.value.leaves|
    ensures Stretch(run, live, snapshot.index.value.leaves[i])
    ensures Lists(c.tree.Keys, snapshot.index.value.leaves[i], run)
  {
    var leaf := PinnedEntry(snapshot, c, live, i);
    run := LeafRun(c, live, i, leaf);
  }

  lemma {:induction false} LeafRun(c: Commit, live: seq<Message>, i: nat, leaf: DirectoryCount)
    returns (run: seq<Message>)
    requires Coherent(c, live) && |live| <= MAX64 && i < |Table(live)| && Table(live)[i] == leaf
    ensures Stretch(run, live, leaf) && Lists(c.tree.Keys, leaf, run)
  {
    run := LeafListing(c, live, i, leaf);
  }

  /** Lookup: message number k of a snapshot is the k-th smallest live ID of its commit. */
  method Lookup(c: Commit, snapshot: Snapshot, number: uint64, ghost live: seq<Message>)
    returns (r: Result<Message, ReadError>)
    requires WellFormed(snapshot)
    ensures Pinned(snapshot, c, live) ==>
              r == if 1 <= number <= |live| then Ok(live[number - 1]) else Err(NoSuchMessage)
  {
    if Pinned(snapshot, c, live) { PinnedIndex(snapshot, c, live); }
    if snapshot.index.None? { return Err(NoSuchMessage); }
    var selected := SelectLeaf(snapshot.index.value, number);
    if selected.None? { return Err(NoSuchMessage); }
    var (leaf, offset) := selected.value;
    r := LookupInLeaf(c, snapshot, leaf, offset, number, live);
  }

  /** The second level of Lookup. */
  method LookupInLeaf(c: Commit, snapshot: Snapshot, leaf: DirectoryCount, offset: uint64,
                      ghost number: nat, ghost live: seq<Message>)
    returns (r: Result<Message, ReadError>)
    requires snapshot.index.Some? && leaf in snapshot.index.value.leaves && offset < leaf.count
    requires number - 1 == leaf.accumulated - leaf.count + offset
    ensures Pinned(snapshot, c, live) ==> 1 <= number <= |live| && r == Ok(live[number - 1])
  {
    ghost var run := [];
    if Pinned(snapshot, c, live) {
      ghost var i :| 0 <= i < |snapshot.index.value.leaves| && snapshot.index.value.leaves[i] == leaf;
      run := PinnedLeaf(snapshot, c, live, i);
      RunIndex(live, leaf, run, offset, number);
    }
    var messages := ReadLeaf(c.tree.Keys, leaf, run);
    if messages.Err? { return Err(messages.error); }
    r := Ok(messages.value[offset]);
  }

  lemma {:induction false} RunIndex(live: seq<Message>, leaf: DirectoryCount, run: seq<Message>, offset: nat,
                                    number: nat)
    requires Stretch(run, live, leaf) && offset < leaf.count
    requires number - 1 == leaf.accumulated - leaf.count + offset
    ensures 1 <= number <= |live| && run[offset] == live[number - 1]
  {
  }

  /** Position of a leaf directory in the sorted index, if it is there. */
  method FindLeaf(leaves: seq<DirectoryCount>, path: string) returns (position: nat)
    requires Ascending(ByPath, leaves)
    ensures position <= |leaves|
    ensures position < |leaves| && leaves[position].path == path
            <==> exists i :: 0 <= i < |leaves| && leaves[i].path == path
  {
    var reached := (i: nat) requires i < |leaves| => !Less(leaves[i].path, path);
    forall i, j | 0 <= i <= j < |leaves| && reached(i) ensures reached(j) { SearchMonotone(leaves, path, i, j); }
    position := Search(|leaves|, reached);
    forall i | 0 <= i < |leaves| && leaves[i].path == path ensures i == position {
      LessTrichotomy(path, path);
      assert reached(i);
      assert position < |leaves| && reached(position);
      LessTrichotomy(leaves[position].path, path);
    }
  }

  lemma {:induction false} SearchMonotone(leaves: seq<DirectoryCount>, path: string, i: nat, j: nat)
    requires Ascending(ByPath, leaves) && i <= j < |leaves| && !Less(leaves[i].path, path)
    ensures !Less(leaves[j].path, path)
  {
    if i < j {
      assert ByPath(leaves[i], leaves[j]);
      if Less(leaves[j].path, path) { LessTransitive(leaves[i].path, leaves[j].path, path); }
    }
  }

  /** Position of an ID in an ID-ordered listing, |messages| or a neighbour when absent. */
  method FindId(messages: seq<Message>, id: uint64) returns (position: nat)
    requires Ascending(ById, messages)
    ensures position <= |messages|
    ensures position < |messages| && messages[position].id == id
            <==> exists i :: 0 <= i < |messages| && messages[i].id == id
  {
    var reached := (i: nat) requires i < |messages| => messages[i].id >= id;
    forall i, j | 0 <= i <= j < |messages| && reached(i) ensures reached(j) {
      if i < j { assert ById(messages[i], messages[j]); }
    }
    position := Search(|messages|, reached);
    forall i | 0 <= i < |messages| && messages[i].id == id ensures i == position {
      assert reached(i);
      assert position < |messages| && reached(position);
    }
  }

  lemma {:induction false} LiveIdHasLeaf(live: seq<Message>, m: Message)
    requires IdList(live) && |live| <= MAX64 && m in live
    ensures exists i :: 0 <= i < |Table(live)| && Table(live)[i].path == LeafOf(m.id)
  {
    var k :| 0 <= k < |live| && live[k] == m;
    KeyAt(live, k);
    CountCovers(Keys(live), k);
    var i :| 0 <= i < |Count(Keys(live))| && Count(Keys(live))[i].path == Keys(live)[k];
    assert Table(live)[i].path == LeafOf(m.id);
  }

  /** messageByID finds an ID exactly when it is live in the snapshot's commit. */
  method MessageById(c: Commit, snapshot: Snapshot, id: uint64, ghost live: seq<Message>)
    returns (r: Result<Message, ReadError>)
    requires WellFormed(snapshot)
    ensures Pinned(snapshot, c, live) ==>
              if exists m :: m in live && m.id == id then r.Ok? && r.value in live && r.value.id == id
              else r == Err(NoSuchMessage)
  {
    if Pinned(snapshot, c, live) { PinnedIndex(snapshot, c, live); }
    if snapshot.index.None? || id == 0 || id > snapshot.lastID { return Err(NoSuchMessage); }
    var leaves := snapshot.index.value.leaves;
    var position := FindLeaf(leaves, LeafOf(id));
    if position == |leaves| || leaves[position].path != LeafOf(id) {
      if Pinned(snapshot, c, live) {
        forall m | m in live && m.id == id ensures false { LiveIdHasLeaf(live, m); }
      }
      return Err(NoSuchMessage);
    }
    r := MessageInLeaf(c, snapshot, position, id, live);
  }

  /** The second level of messageByID. */
  method MessageInLeaf(c: Commit, snapshot: Snapshot, position: nat, id: uint64, ghost live: seq<Message>)
    returns (r: Result<Message, ReadError>)
    requires snapshot.index.Some? && position < |snapshot.index.value.leaves|
    requires snapshot.index.value.leaves[position].path == LeafOf(id)
    ensures Pinned(snapshot, c, live) ==>
              if exists m :: m in live && m.id == id then r.Ok? && r.value in live && r.value.id == id
              else r == Err(NoSuchMessage)
  {
    var leaf := snapshot.index.value.leaves[position];
    ghost var run := [];
    if Pinned(snapshot, c, live) {
      PinnedIndex(snapshot, c, live);
      run := PinnedLeaf(snapshot, c, live, position);
      IdInRun(live, position, leaf, run, id);
    }
    var messages := ReadLeaf(c.tree.Keys, leaf, run);
    if messages.Err? { return Err(messages.error); }
    var found := FindId(messages.value, id);
    if found == |messages.value| || messages.value[found].id != id { return Err(NoSuchMessage); }
    assert messages.value[found] in messages.value;
    r := Ok(messages.value[found]);
  }

  lemma {:induction false} IdInRun(live: seq<Message>, i: nat, leaf: DirectoryCount, run: seq<Message>, id: uint64)
    requires IdList(live) && |live| <= MAX64 && i < |Table(live)| && Table(live)[i] == leaf && leaf.path == LeafOf(id)
    requires Stretch(run, live, leaf)
    ensures (exists m :: m in live && m.id == id) <==> exists k :: 0 <= k < |run| && run[k].id == id
    ensures forall m :: m in run ==> m in live
  {
    TableRun(live, i);
    if m :| m in live && m.id == id {
      var k :| 0 <= k < |live| && live[k] == m;
      assert run[k - (leaf.accumulated - leaf.count)].id == id;
    }
    if k :| 0 <= k < |run| && run[k].id == id { assert run[k] in live; }
  }

  // ---------------------------------------------------------------- enumeration

  function RowOf(k: nat, m: Message): Row { Row(k + 1, m.id, m.size) }

  /** The rows number the first messages of the list consecutively from one. */
  ghost predicate RowsMatch(rows: seq<Row>, live: seq<Message>) {
    |rows| <= |live| && forall k :: 0 <= k < |rows| ==> rows[k] == RowOf(k, live[k])
  }

  /** The rows are the whole list. */
  ghost predicate ListsEverything(rows: seq<Row>, live: seq<Message>) { RowsMatch(rows, live) && |rows| == |live| }

  /** The inner loop of ListAt. */
  method ListLeaf(messages: seq<Message>, before: nat, lastID: uint64) returns (rows: seq<Row>, ok: bool)
    ensures ok <==> AllocatedBy(messages, lastID)
    ensures ok ==> |rows| == |messages| && forall j :: 0 <= j < |rows| ==> rows[j] == RowOf(before + j, messages[j])
  {
    rows := [];
    var j := 0;
    while j < |messages|
      invariant 0 <= j <= |messages| && |rows| == j
      invariant forall i :: 0 <= i < j ==> rows[i] == RowOf(before + i, messages[i])
      invariant AllocatedBy(messages[..j], lastID)
    {
      if messages[j].id > lastID {
        assert messages[j] in messages;
        return rows, false;
      }
      rows := rows + [Row(before + j + 1, messages[j].id, messages[j].size)];
      j := j + 1;
    }
    assert messages[..j] == messages;
    ok := true;
  }

  ghost function SumBefore(leaves: seq<DirectoryCount>, i: nat): nat
    requires i <= |leaves|
  {
    if i == 0 then 0 else leaves[i - 1].accumulated
  }

  /** Leaf i lists the live messages between the prefix sums before and after it. */
  ghost predicate PartAt(paths: set<string>, leaves: seq<DirectoryCount>, live: seq<Message>, i: nat)
    requires i < |leaves|
  {
    var a, b := SumBefore(leaves, i), leaves[i].accumulated;
    a <= b <= |live| && Lists(paths, leaves[i], live[a..b])
  }

  /** The leaves partition the live list. */
  ghost predicate Partition(paths: set<string>, leaves: seq<DirectoryCount>, live: seq<Message>) {
    SumBefore(leaves, |leaves|) == |live| && forall i :: 0 <= i < |leaves| ==> PartAt(paths, leaves, live, i)
  }

  /** ListAt visits every live message once, in ID order, numbered from one. */
  method ListAt(c: Commit, snapshot: Snapshot, ghost live: seq<Message>)
    returns (rows: seq<Row>, error: Option<ReadError>)
    requires WellFormed(snapshot)
    ensures Pinned(snapshot, c, live) ==> error.None? && ListsEverything(rows, live)
  {
    if snapshot.index.None? { return [], Some(NoSuchMessage); }
    if Pinned(snapshot, c, live) { PinnedPartition(snapshot, c, live); }
    rows, error := ListLeaves(c.tree.Keys, snapshot.index.value.leaves, snapshot.lastID, live);
  }

  lemma {:induction false} PinnedPartition(snapshot: Snapshot, c: Commit, live: seq<Message>)
    requires Pinned(snapshot, c, live)
    ensures Partition(c.tree.Keys, snapshot.index.value.leaves, live) && AllocatedBy(live, snapshot.lastID)
  {
    var leaves := snapshot.index.value.leaves;
    PinnedSums(snapshot, c, live);
    forall i | 0 <= i < |leaves| ensures PartAt(c.tree.Keys, leaves, live, i) { PinnedPart(snapshot, c, live, i); }
  }

  lemma {:induction false} PinnedSums(snapshot: Snapshot, c: Commit, live: seq<Message>)
    requires Pinned(snapshot, c, live)
    ensures PrefixSums(snapshot.index.value.leaves)
    ensures SumBefore(snapshot.index.value.leaves, |snapshot.index.value.leaves|) == |live|
  {
    PinnedIndex(snapshot, c, live);
    var leaves := snapshot.index.value.leaves;
    if leaves != [] { AccumulatedAt(leaves, |leaves| - 1); }
  }

  lemma {:induction false} PinnedPart(snapshot: Snapshot, c: Commit, live: seq<Message>, i: nat)
    requires Pinned(snapshot, c, live) && i < |snapshot.index.value.leaves|
    ensures PartAt(c.tree.Keys, snapshot.index.value.leaves, live, i)
  {
    var run := PinnedLeaf(snapshot, c, live, i);
    PinnedSums(snapshot, c, live);
    AccumulatedAt(snapshot.index.value.leaves, i);
  }

  /** One round of the outer loop of ListAt. */
  method ListNext(paths: set<string>, leaves: seq<DirectoryCount>, i: nat, before: seq<Row>, lastID: uint64,
                  ghost live: seq<Message>)
    returns (rows: seq<Row>, error: Option<ReadError>)
    requires i < |leaves|
    ensures PartAt(paths, leaves, live, i) && AllocatedBy(live, lastID)
            && RowsMatch(before, live) && |before| == SumBefore(leaves, i)
            ==> error.None? && RowsMatch(rows, live) && |rows| == leaves[i].accumulated
  {
    ghost var run := if PartAt(paths, leaves, live, i) then live[SumBefore(leaves, i)..leaves[i].accumulated] else [];
    var messages := ReadLeaf(paths, leaves[i], run);
    if messages.Err? { return before, Some(messages.error); }
    var more, ok := ListLeaf(messages.value, |before|, lastID);
    if !ok { return before + more, Some(CorruptDirectory); }
    rows, error := before + more, None;
  }

  /** The two nested loops of ListAt. */
  method ListLeaves(paths: set<string>, leaves: seq<DirectoryCount>, lastID: uint64, ghost live: seq<Message>)
    returns (rows: seq<Row>, error: Option<ReadError>)
    ensures Partition(paths, leaves, live) && AllocatedBy(live, lastID) ==> error.None? && ListsEverything(rows, live)
  {
    rows := [];
    ghost var parted := Partition(paths, leaves, live) && AllocatedBy(live, lastID);
    var i := 0;
    while i < |leaves|
      invariant 0 <= i <= |leaves|
      invariant parted ==> RowsMatch(rows, live) && |rows| == SumBefore(leaves, i)
    {
      if parted { assert PartAt(paths, leaves, live, i); }
      var failed;
      rows, failed := ListNext(paths, leaves, i, rows, lastID, live);
      if failed.Some? { return rows, failed; }
      i := i + 1;
    }
    error := None;
  }

  // ---------------------------------------------------------------- content

  /** OpenMessage returns the octets of exactly the messages live in the snapshot's commit. */
  method OpenMessage(c: Commit, snapshot: Snapshot, message: Message, ghost live: seq<Message>)
    returns (r: Result<Bytes, ReadError>)
    ensures Pinned(snapshot, c, live) && message in live ==> message.path in c.tree && r == Ok(c.tree[message.path])
    ensures Pinned(snapshot, c, live) && message !in live ==> r == Err(NoSuchMessage)
  {
    var parsed := MessageFromPath(message.path);
    if Pinned(snapshot, c, live) { StoredIsLive(c, live, message, parsed); }
    if parsed.None? || parsed.value != message || message.id > snapshot.lastID { return Err(NoSuchMessage); }
    if message.path !in c.tree { return Err(NoSuchMessage); }
    var content := c.tree[message.path];
    if |content| != message.size { return Err(SizeMismatch); }
    r := Ok(content);
  }

  lemma {:induction false} StoredIsLive(c: Commit, live: seq<Message>, message: Message, parsed: Option<Message>)
    requires Coherent(c, live)
    requires parsed.Some? ==> IsMessage(parsed.value) && parsed.value.path == message.path
    requires parsed.None? ==> forall x: Message :: IsMessage(x) ==> x.path != message.path
    ensures message in live ==> parsed == Some(message) && message.id <= c.state.lastID
                                && message.path in c.tree && |c.tree[message.path]| == message.size
    ensures parsed == Some(message) && message.path in c.tree ==> message in live
  {
    NamesMember(live, message.path);
    if message in live {
      assert IsMessage(message);
      MessagePathInjective(message.id, message.size, parsed.value.id, parsed.value.size);
    }
    if parsed == Some(message) && message.path in c.tree {
      var n :| n in live && n.path == message.path;
      MessagePathInjective(message.id, message.size, n.id, n.size);
    }
  }

  // ---------------------------------------------------------------- the views agree

  /** A message number and an ID asked of one snapshot: Lookup, messageByID and ListAt tell one story. */
  method CompareViews(c: Commit, snapshot: Snapshot, number: uint64, id: uint64, ghost live: seq<Message>)
    returns (rows: seq<Row>, byNumber: Result<Message, ReadError>, byId: Result<Message, ReadError>)
    requires Pinned(snapshot, c, live) && WellFormed(snapshot)
    ensures forall i, j :: 0 <= i < j < |rows| ==> rows[i].id < rows[j].id
    ensures |rows| == snapshot.messageCount
    ensures byNumber.Ok? <==> 1 <= number <= |rows|
    ensures byNumber.Ok? ==> rows[number - 1] == Row(number, byNumber.value.id, byNumber.value.size)
    ensures byId.Ok? <==> exists k :: 0 <= k < |rows| && rows[k].id == id
    ensures byId.Ok? ==> exists k :: 0 <= k < |rows| && rows[k] == Row(k + 1, id, byId.value.size)
  {
    PinnedIndex(snapshot, c, live);
    var error;
    rows, error := ListAt(c, snapshot, live);
    byNumber := Lookup(c, snapshot, number, live);
    byId := MessageById(c, snapshot, id, live);
    RowsOfMessages(rows, live, id);
    if byId.Ok? {
      ghost var k :| 0 <= k < |live| && live[k] == byId.value;
      assert rows[k] == RowOf(k, live[k]);
    }
  }

  lemma {:induction false} RowsOfMessages(rows: seq<Row>, live: seq<Message>, id: uint64)
    requires IdList(live) && ListsEverything(rows, live)
    ensures forall i, j :: 0 <= i < j < |rows| ==> rows[i].id < rows[j].id
    ensures (exists m :: m in live && m.id == id) <==> exists k :: 0 <= k < |rows| && rows[k].id == id
  {
    forall i, j | 0 <= i < j < |rows| ensures rows[i].id < rows[j].id {
      assert rows[i] == RowOf(i, live[i]) && rows[j] == RowOf(j, live[j]) && ById(live[i], live[j]);
    }
    if m :| m in live && m.id == id {
      var k :| 0 <= k < |live| && live[k] == m;
      assert rows[k] == RowOf(k, live[k]);
    }
    if k :| 0 <= k < |rows| && rows[k].id == id {
      assert rows[k] == RowOf(k, live[k]) && live[k] in live;
    }
  }

  /** A snapshot reads the same forever: in every later history its commit is still there with the same tree and live
      list, so every reader above answers as before; and what HEAD still has of its mail is that same mail. */
  lemma {:induction false} SnapshotForever(snapshot: Snapshot, commits: seq<Commit>, lives: seq<seq<Message>>,
                                           later: seq<Commit>, laterLives: seq<seq<Message>>)
    requires History(commits, lives) && History(later, laterLives) && commits <= later && lives <= laterLives
    requires snapshot.commit < |commits| && Pinned(snapshot, commits[snapshot.commit], lives[snapshot.commit])
    ensures snapshot.commit < |later| && Pinned(snapshot, later[snapshot.commit], lives[snapshot.commit])
    ensures forall m :: m in laterLives[|later| - 1] && m.id <= snapshot.lastID ==>
              m in lives[snapshot.commit] && SameOctets(later[snapshot.commit].tree, later[|later| - 1].tree, m.path)
  {
    var k := snapshot.commit;
    assert later[k] == commits[k] && laterLives[k] == lives[k];
    forall m | m in laterLives[|later| - 1] && m.id <= snapshot.lastID
      ensures m in lives[k] && SameOctets(later[k].tree, later[|later| - 1].tree, m.path)
    {
      OldMailOnlyShrinks(later, laterLives, k, |later| - 1, m);
    }
  }

  // ---------------------------------------------------------------- what a deletion removes

  ghost predicate ValidIds(ids: seq<uint64>, lastID: uint64) { forall id :: id in ids ==> 0 < id <= lastID }

  /** The messages are those of the live list with these IDs. */
  ghost predicate Resolved(messages: seq<Message>, ids: seq<uint64>, live: seq<Message>) {
    && Ascending(ById, messages)
    && forall m :: m in messages <==> m in live && m.id in ids
  }

  /** The lookup loop of DeleteAs over sorted IDs: repeated and absent ones are skipped, unallocated ones an error. */
  method Resolve(c: Commit, snapshot: Snapshot, ids: seq<uint64>, ghost live: seq<Message>)
    returns (r: Result<seq<Message>, ReadError>)
    requires WellFormed(snapshot)
    requires forall i, j :: 0 <= i < j < |ids| ==> ids[i] <= ids[j]
    ensures !ValidIds(ids, snapshot.lastID) ==> r.Err?
    ensures Pinned(snapshot, c, live) ==>
              if ValidIds(ids, snapshot.lastID) then r.Ok? && Resolved(r.value, ids, live) else r == Err(NoSuchMessage)
  {
    var messages: seq<Message> := [];
    var previous: uint64 := 0;
    var i := 0;
    while i < |ids|
      invariant 0 <= i <= |ids|
      invariant ValidIds(ids[..i], snapshot.lastID)
      invariant previous == if i == 0 then 0 else ids[i - 1]
      invariant Pinned(snapshot, c, live) ==> Resolved(messages, ids[..i], live)
    {
      var id := ids[i];
      assert id in ids && ids[..i + 1] == ids[..i] + [id];
      if id == 0 || id > snapshot.lastID { return Err(NoSuchMessage); }
      ValidIdsNext(ids[..i], id, snapshot.lastID);
      if id == previous {
        RepeatedId(ids, i, id);
      } else {
        previous := id;
        var found := MessageById(c, snapshot, id, live);
        if found.Err? && found.error != NoSuchMessage { return Err(found.error); }
        if Pinned(snapshot, c, live) { ResolvedNext(messages, ids, i, found, live); }
        if found.Ok? { messages := messages + [found.value]; }
      }
      i := i + 1;
    }
    assert ids[..i] == ids;
    r := Ok(messages);
  }

  lemma {:induction false} ValidIdsNext(ids: seq<uint64>, id: uint64, lastID: uint64)
    requires ValidIds(ids, lastID) && 0 < id <= lastID
    ensures ValidIds(ids + [id], lastID)
  {
  }

  lemma {:induction false} RepeatedId(ids: seq<uint64>, i: nat, id: uint64)
    requires 0 < i < |ids| && ids[i - 1] == ids[i] == id
    ensures forall x :: x in ids[..i + 1] <==> x in ids[..i]
  {
    assert ids[..i][i - 1] == id;
    assert ids[..i + 1] == ids[..i] + [id];
  }

  lemma {:induction false} ResolvedNext(messages: seq<Message>, ids: seq<uint64>, i: nat,
                                        found: Result<Message, ReadError>,
                                        live: seq<Message>)
    requires IdList(live) && i < |ids| && Resolved(messages, ids[..i], live)
    requires forall j :: 0 <= j < i ==> ids[j] < ids[i]
    requires if exists m :: m in live && m.id == ids[i]
             then found.Ok? && found.value in live && found.value.id == ids[i]
             else found.Err?
    ensures Resolved(if found.Ok? then messages + [found.value] else messages, ids[..i + 1], live)
  {
    var id := ids[i];
    assert ids[..i + 1] == ids[..i] + [id];
    forall m | m in messages ensures m.id < id { }
    if found.Ok? {
      forall m | m in live && m.id == id ensures m == found.value { OneMessagePerId(live, m, found.value); }
    }
  }
}
