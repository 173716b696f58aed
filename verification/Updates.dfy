/** What the writers of internal/archive compute between their locks and the commit: the counts, paths, states and
    indexes of an append, a deletion, a restart and a legacy import, none of which can fail on a coherent archive. */
module Updates {
  import opened Prelude
  import opened Text
  import opened IdPath
  import opened DirectoryCounts
  import opened LiveMail
  import opened Tree
  import opened Commits
  import opened Mailbox
  import opened Budget

  datatype StoreError =
    | Failed | StageGone | DailyLimit | IdsExhausted | OctetOverflow | OctetsMismatch | OctetsWithoutMail
    | UnsupportedVersion | BadIndex(IndexError) | Unreadable | ReceiptWriteFailed | CommitRefused
    | ReadFailed(ReadError)

  /** What Publish has worked out before it touches the receipt: the new message, state and index. */
  datatype Prepared = Prepared(message: Message, state: MailboxState, index: DirectoryIndex)

  /** The commit published the new head in memory and then failed, so memory pairs a new head with an old index. */
  predicate Poisons(outcome: CommitOutcome) { outcome.Uncertain? && outcome.moved && outcome.headSeen }

  /** What memory says about commit i: its index came out of buildDirectoryIndex, and it is that commit's index
      unless something has failed. */
  ghost predicate MirrorsAt(snapshot: Snapshot, commits: seq<Commit>, i: nat, failure: bool)
    requires i < |commits|
  {
    WellFormed(snapshot) && (!failure ==> Describes(snapshot, commits[i]))
  }

  // ---------------------------------------------------------------- deletions

  /** Distinct messages in ID order, all of them live. */
  ghost predicate Removable(messages: seq<Message>, live: seq<Message>) {
    forall i :: 0 <= i < |messages| ==> RemovableAt(messages, live, i)
  }

  ghost predicate RemovableAt(messages: seq<Message>, live: seq<Message>, i: nat)
    requires i < |messages|
  {
    messages[i] in live && (i > 0 ==> messages[i - 1].id < messages[i].id)
  }

  lemma {:induction false} RemovedAscend(messages: seq<Message>, live: seq<Message>, i: nat, j: nat)
    requires Removable(messages, live) && i < j < |messages|
    ensures messages[i].id < messages[j].id
  {
    assert RemovableAt(messages, live, j);
    if i < j - 1 { RemovedAscend(messages, live, i, j - 1); }
  }

  lemma {:induction false} RemovedAreLive(messages: seq<Message>, live: seq<Message>)
    requires Removable(messages, live)
    ensures forall m :: m in messages ==> m in live
  {
    forall m | m in messages ensures m in live {
      var i :| 0 <= i < |messages| && messages[i] == m;
      assert RemovableAt(messages, live, i);
    }
  }

  /** The paths deleteLocked removes from the tree. */
  method PathsOf(messages: seq<Message>) returns (paths: set<string>)
    ensures paths == Names(messages)
  {
    paths := {};
    var i := 0;
    while i < |messages|
      invariant 0 <= i <= |messages| && paths == Names(messages[..i])
    {
      assert messages[..i + 1][..i] == messages[..i];
      paths := paths + {messages[i].path};
      i := i + 1;
    }
    assert messages[..i] == messages;
  }

  lemma {:induction false} NextIdIsNew(messages: seq<Message>, live: seq<Message>, i: nat)
    requires Removable(messages, live) && i < |messages|
    ensures messages[i] in live
    ensures messages[i].id !in IdsOf(messages[..i])
    ensures IdsOf(messages[..i + 1]) == IdsOf(messages[..i]) + {messages[i].id}
  {
    assert messages[..i + 1][..i] == messages[..i];
    IdsOfMembers(messages[..i]);
    forall m | m in messages[..i] ensures m.id < messages[i].id {
      var j :| 0 <= j < i && messages[j] == m;
      RemovedAscend(messages, live, j, i);
    }
    assert RemovableAt(messages, live, i);
  }

  /** filepath.Dir of a stored message. */
  method LeafDirectory(m: Message) returns (path: string)
    requires IsMessage(m)
    ensures path == LeafOf(m.id)
  {
    DirOfMessagePath(m.id, m.size);
    path := Dir(m.path);
  }

  /** The removal loop of deleteLocked: octets and directory counts, message by message. */
  method CountRemoved(counts: Counts, octets: uint64, messages: seq<Message>, ghost live: seq<Message>)
    returns (fewer: Counts, less: uint64)
    requires LiveList(live) && Histogram(counts, live) && octets == Octets(live)
    requires Removable(messages, live)
    ensures Histogram(fewer, Without(live, IdsOf(messages))) && less == Octets(Without(live, IdsOf(messages)))
  {
    fewer, less := counts, octets;
    WithoutNothing(live, {});
    var i := 0;
    while i < |messages|
      invariant 0 <= i <= |messages|
      invariant Histogram(fewer, Without(live, IdsOf(messages[..i])))
      invariant less == Octets(Without(live, IdsOf(messages[..i])))
    {
      NextIdIsNew(messages, live, i);
      assert IsMessage(messages[i]);
      fewer, less := RemoveOne(fewer, less, messages[i], live, IdsOf(messages[..i]), IdsOf(messages[..i + 1]));
      i := i + 1;
    }
    assert messages[..i] == messages;
  }

  /** One round of the removal loop; neither the octets nor any ancestor count can underflow. */
  method RemoveOne(counts: Counts, octets: uint64, m: Message, ghost live: seq<Message>, ghost gone: set<uint64>,
                   ghost after: set<uint64>)
    returns (fewer: Counts, less: uint64)
    requires IdList(live) && IsMessage(m) && m in live && m.id !in gone && after == gone + {m.id}
    requires Histogram(counts, Without(live, gone)) && octets == Octets(Without(live, gone))
    ensures Histogram(fewer, Without(live, after)) && less == Octets(Without(live, after))
  {
    OctetsWithoutOneMore(live, gone, m, after);
    var path := LeafDirectory(m);
    fewer := LowerAncestors(counts, path, m, live, gone);
    if m.size > octets { assert false; }
    less := octets - m.size;
  }

  lemma {:induction false} OctetsWithoutOneMore(live: seq<Message>, gone: set<uint64>, m: Message, after: set<uint64>)
    requires IdList(live) && m in live && m.id !in gone && after == gone + {m.id}
    ensures Octets(Without(live, gone)) == Octets(Without(live, after)) + m.size
  {
    WithoutOneMore(live, gone, m, "");
  }

  method LowerAncestors(counts: Counts, path: string, ghost m: Message, ghost live: seq<Message>,
                        ghost gone: set<uint64>)
    returns (fewer: Counts)
    requires IdList(live) && m in live && m.id !in gone && path == LeafOf(m.id)
    requires Histogram(counts, Without(live, gone))
    ensures Histogram(fewer, Without(live, gone + {m.id}))
  {
    DigitBounds(m.id);
    RemovableCounts(counts, m, live, gone);
    var lowered := Remove(counts, path, 1 + NumDigits(m.id / 1024), m.id / 1024);
    if lowered.None? { assert false; }
    else {
      fewer := lowered.value;
      RemovedCounts(counts, fewer, m, live, gone);
    }
  }

  lemma {:induction false} RemovableCounts(counts: Counts, m: Message, live: seq<Message>, gone: set<uint64>)
    requires IdList(live) && m in live && m.id !in gone && Histogram(counts, Without(live, gone))
    ensures forall p :: Covers(p, LeafOf(m.id)) ==> p in counts
  {
    forall p | Covers(p, LeafOf(m.id)) ensures p in counts {
      WithoutOneMore(live, gone, m, p);
      assert Get(counts, p) == CountUnder(Without(live, gone), p);
    }
  }

  lemma {:induction false} RemovedCounts(counts: Counts, fewer: Counts, m: Message, live: seq<Message>,
                                         gone: set<uint64>)
    requires IdList(live) && m in live && m.id !in gone && Histogram(counts, Without(live, gone))
    requires Positive(fewer) && forall p :: Get(fewer, p) == Get(counts, p) - Share(p, LeafOf(m.id), 1)
    ensures Histogram(fewer, Without(live, gone + {m.id}))
  {
    forall p ensures Get(fewer, p) == CountUnder(Without(live, gone + {m.id}), p) {
      WithoutOneMore(live, gone, m, p);
      assert Get(counts, p) == CountUnder(Without(live, gone), p);
    }
  }

  /** IDs and octets are left for a message of this size. */
  predicate HasRoom(state: MailboxState, size: nat) { state.lastID < MAX64 && size <= MAX64 - state.totalOctets }

  /** One message with this content became visible at the end of the mailbox, or nothing did. */
  ghost predicate Published(commits: seq<Commit>, lives: seq<seq<Message>>, after: seq<Commit>,
                            livesAfter: seq<seq<Message>>,
                            content: Bytes, visible: bool) {
    if !visible then after == commits && livesAfter == lives
    else
      && |after| == |commits| + 1 && commits <= after && |livesAfter| == |lives| + 1 && lives <= livesAfter
      && |lives| == |commits| > 0
      && AppendsAt(after, livesAfter, |commits|, content)
  }

  /** Commit i adds one message with the next ID to the commit before it. */
  ghost predicate AppendsAt(commits: seq<Commit>, lives: seq<seq<Message>>, i: nat, content: Bytes)
    requires 0 < i < |commits| == |lives|
  {
    var before := commits[i - 1];
    var id := before.state.lastID + 1;
    id <= MAX64 && |content| <= MAX64 &&
    var m := Message(id, |content|, MessagePath(id, |content|));
    && lives[i] == lives[i - 1] + [m]
    && commits[i].tree == before.tree[m.path := content] && commits[i].state.lastID == id
  }

  /** The prepared message takes the next ID, and its state and index count it. */
  ghost predicate Prepares(p: Prepared, state: MailboxState, live: seq<Message>, size: nat) {
    && p.message.id == state.lastID + 1 && p.message.size == size && IsMessage(p.message)
    && p.state.version == STATE_VERSION && p.state.lastID == p.message.id
    && p.state.totalOctets == state.totalOctets + size
    && Histogram(p.state.directories, live + [p.message])
    && IndexFor(p.index, p.state.directories, p.state.lastID)
  }

  /** Prepares of `p` itself; the quantifier keeps the definition folded until a proof names it. */
  ghost predicate ReadyToAppend(p: Prepared, state: MailboxState, live: seq<Message>, size: nat) {
    forall q :: q == p ==> Prepares(q, state, live, size)
  }

  /** The commit Publish makes. */
  function AppendCommit(c: Commit, p: Prepared, content: Bytes): Commit {
    Commit(c.tree[p.message.path := content], p.state)
  }

  lemma {:induction false} AppendExtends(commits: seq<Commit>, lives: seq<seq<Message>>, p: Prepared,
                                         state: MailboxState, content: Bytes)
    requires History(commits, lives) && state == commits[|commits| - 1].state
    requires ReadyToAppend(p, state, lives[|lives| - 1], |content|)
    ensures var c := AppendCommit(commits[|commits| - 1], p, content);
            var live := lives[|lives| - 1] + [p.message];
            && History(commits + [c], lives + [live])
            && Published(commits, lives, commits + [c], lives + [live], content, true)
    ensures p.message.id == p.state.lastID == state.lastID + 1
  {
    var last, live := commits[|commits| - 1], lives[|lives| - 1];
    assert CoherentAt(commits, lives, |commits| - 1);
    AppendGrows(last, live, p, state, content);
    HistoryGrows(commits, lives, AppendCommit(last, p, content), live + [p.message]);
    AppendPublishes(commits, lives, p, content);
  }

  lemma {:induction false} AppendGrows(last: Commit, live: seq<Message>, p: Prepared, state: MailboxState,
                                       content: Bytes)
    requires Coherent(last, live) && state == last.state && ReadyToAppend(p, state, live, |content|)
    ensures var c := AppendCommit(last, p, content);
            Coherent(c, live + [p.message]) && Grows(last, live, c, live + [p.message])
    ensures IsMessage(p.message) && p.message.size == |content| <= MAX64
    ensures p.message.id == p.state.lastID == state.lastID + 1
  {
    assert Prepares(p, state, live, |content|);
    AppendedIsCoherent(last, live, p.message, content, p.state.directories);
  }

  lemma {:induction false} AppendPublishes(commits: seq<Commit>, lives: seq<seq<Message>>, p: Prepared, content: Bytes)
    requires |commits| == |lives| > 0 && IsMessage(p.message) && p.message.size == |content| <= MAX64
    requires p.message.id == p.state.lastID == commits[|commits| - 1].state.lastID + 1
    ensures Published(commits, lives, commits + [AppendCommit(commits[|commits| - 1], p, content)],
                      lives + [lives[|lives| - 1] + [p.message]], content, true)
  {
  }

  lemma {:induction false} PreparedIndex(p: Prepared, c: Commit, state: MailboxState, live: seq<Message>,
                                         size: nat, head: nat)
    requires ReadyToAppend(p, state, live, size) && c.state == p.state
    ensures var snapshot := Snapshot(p.state.lastID, p.state.totalOctets, p.index.total, Some(p.index), head);
            WellFormed(snapshot) && Describes(snapshot, c)
  {
    assert Prepares(p, state, live, size);
  }

  method CountAppended(counts: Counts, m: Message, ghost live: seq<Message>) returns (more: Counts)
    requires Histogram(counts, live) && IsMessage(m) && |live| < MAX64
    ensures Histogram(more, live + [m])
  {
    DigitBounds(m.id);
    DirOfMessagePath(m.id, m.size);
    forall p ensures Get(counts, p) + 1 <= MAX64 { CountAtMostLength(live, p); }
    more := Raise(counts, Dir(m.path), 1, 1 + NumDigits(m.id / 1024), m.id / 1024);
    forall p ensures Get(more, p) == CountUnder(live + [m], p) { Snoc(live, m, p); }
  }

  lemma {:induction false} AppendedHasIndex(c: Commit, live: seq<Message>, m: Message, directories: Counts)
    requires Coherent(c, live) && IsMessage(m) && m.id == c.state.lastID + 1
    requires Histogram(directories, live + [m])
    ensures exists index :: IndexFor(index, directories, m.id)
  {
    LiveListSnoc(live, c.state.lastID, m);
    TableIsIndex(live + [m], directories, m.id);
  }

  /** buildDirectoryIndex on a coherent state, which always has an index. */
  method RebuildIndex(next: Commit, ghost live: seq<Message>) returns (index: DirectoryIndex)
    requires Coherent(next, live)
    ensures IndexFor(index, next.state.directories, next.state.lastID)
  {
    CoherentStateHasIndex(next, live);
    var built := BuildDirectoryIndex(next.state.directories, next.state.lastID);
    if built.Err? { assert false; } else { index := built.value; }
  }

  lemma {:induction false} CoherentStateHasIndex(c: Commit, live: seq<Message>)
    requires Coherent(c, live)
    ensures |live| <= c.state.lastID
    ensures IndexFor(DirectoryIndex(Table(live), |live|), c.state.directories, c.state.lastID)
  {
    TableIsIndex(live, c.state.directories, c.state.lastID);
  }

  // ---------------------------------------------------------------- deletion requests

  predicate Below(a: uint64, b: uint64) { a < b }

  ghost function IdSet(ids: seq<uint64>): set<uint64> { set id | id in ids }

  /** sort.Slice over the requested IDs. */
  function SortedIds(ids: seq<uint64>): seq<uint64> { Sort(Below, ids) }

  lemma {:induction false} SortedIdsMeaning(ids: seq<uint64>)
    ensures forall i, j :: 0 <= i < j < |SortedIds(ids)| ==> SortedIds(ids)[i] <= SortedIds(ids)[j]
    ensures forall id :: id in SortedIds(ids) <==> id in ids
    ensures forall lastID: uint64 :: ValidIds(SortedIds(ids), lastID) <==> ValidIds(ids, lastID)
  {
    SortSorts(Below, ids);
    SameElements(Sort(Below, ids), ids);
  }

  /** Removing these messages removes the requested IDs, and there is something to remove unless the list is empty. */
  ghost predicate Requested(messages: seq<Message>, ids: seq<uint64>, live: seq<Message>) {
    && Removable(messages, live)
    && Without(live, IdsOf(messages)) == Without(live, IdSet(ids))
    && (messages == [] <==> Without(live, IdSet(ids)) == live)
  }

  lemma {:induction false} ResolvedIds(messages: seq<Message>, ids: seq<uint64>, sorted: seq<uint64>,
                                       live: seq<Message>)
    requires Resolved(messages, sorted, live) && forall id :: id in sorted <==> id in ids
    ensures Requested(messages, ids, live)
  {
    IdsOfMembers(messages);
    WithoutMembers(live, IdSet(ids));
    SameWithout(live, IdsOf(messages), IdSet(ids));
    forall i | 0 <= i < |messages| ensures RemovableAt(messages, live, i) {
      assert messages[i] in messages;
      if i > 0 { assert ById(messages[i - 1], messages[i]); }
    }
    if messages == [] { WithoutNothing(live, IdSet(ids)); } else { assert messages[0] in messages; }
  }

  /** At most one commit follows the first `base`, and it is the deletion. */
  ghost predicate Deletes(commits: seq<Commit>, lives: seq<seq<Message>>, base: nat, gone: set<uint64>,
                          outcome: CommitOutcome) {
    0 < base <= |commits| <= base + 1 && |lives| == |commits|
    && forall i :: base <= i < |commits| ==> DeletesAt(commits, lives, i, gone, outcome)
  }

  /** Commit i removes exactly the requested IDs from the list before it, some of which were there, and keeps the
      last ID. */
  ghost predicate DeletesAt(commits: seq<Commit>, lives: seq<seq<Message>>, i: nat, gone: set<uint64>,
                            outcome: CommitOutcome)
    requires 0 < i < |commits| == |lives|
  {
    && Landed(outcome)
    && lives[i] == Without(lives[i - 1], gone) && lives[i] != lives[i - 1]
    && commits[i].state.lastID == commits[i - 1].state.lastID
  }

  // ---------------------------------------------------------------- opening an archive

  /** The state passes decodeMailboxState, which computes this index for it. */
  ghost predicate Decodes(state: MailboxState, index: DirectoryIndex) {
    && state.version == STATE_VERSION && IndexFor(index, state.directories, state.lastID)
    && (index.total == 0 ==> state.totalOctets == 0)
  }

  /** decodeMailboxState accepts a state exactly when it has an index and an empty mailbox has no octets. */
  method DecodeMailboxState(state: MailboxState) returns (r: Result<DirectoryIndex, StoreError>)
    ensures r.Ok? ==> Decodes(state, r.value)
    ensures r.Err? ==> forall index :: !Decodes(state, index)
  {
    if state.version != STATE_VERSION { return Err(UnsupportedVersion); }
    var built := BuildDirectoryIndex(state.directories, state.lastID);
    if built.Err? { return Err(BadIndex(built.error)); }
    if built.value.total == 0 && state.totalOctets != 0 {
      forall index ensures !Decodes(state, index) {
        if Decodes(state, index) { IndexUnique(index, built.value, state.directories, state.lastID, state.lastID); }
      }
      return Err(OctetsWithoutMail);
    }
    r := Ok(built.value);
  }

  lemma {:induction false} StateOfCommit(c: Commit, live: seq<Message>)
    requires Coherent(c, live)
    ensures exists index :: Decodes(c.state, index)
  {
    CoherentStateHasIndex(c, live);
    assert Decodes(c.state, DirectoryIndex(Table(live), |live|));
  }

  lemma {:induction false} IndexIsWellFormed(snapshot: Snapshot, c: Commit)
    requires Describes(snapshot, c)
    ensures WellFormed(snapshot)
  {
  }

  const EMPTY := Commit(map[], MailboxState(STATE_VERSION, 0, 0, map[]))

  ghost function TotalSize(contents: seq<Bytes>): nat {
    if contents == [] then 0 else TotalSize(contents[..|contents| - 1]) + |contents[|contents| - 1]|
  }

  /** Legacy file k became message k + 1. */
  ghost predicate ImportedAt(c: Commit, live: seq<Message>, contents: seq<Bytes>, k: nat)
    requires k < |live| && k < |contents|
  {
    live[k].id == k + 1 && live[k].path in c.tree && c.tree[live[k].path] == contents[k]
  }

  /** The first commit of an archive made of legacy files: file k becomes message k + 1, nothing else is live. */
  method ImportLegacy(contents: seq<Bytes>, octets: uint64)
    returns (r: Result<Commit, StoreError>, ghost live: seq<Message>)
    requires |contents| <= MAX64 && forall k :: 0 <= k < |contents| ==> |contents[k]| <= MAX64
    ensures r.Ok? <==> TotalSize(contents) == octets
    ensures r.Ok? ==> Coherent(r.value, live) && r.value.state.lastID == |live| == |contents|
                      && forall k :: 0 <= k < |contents| ==> ImportedAt(r.value, live, contents, k)
  {
    var c := EMPTY;
    live := [];
    var i := 0;
    while i < |contents|
      invariant 0 <= i <= |contents|
      invariant Coherent(c, live) && c.state.lastID == |live| == i && c.state.totalOctets == TotalSize(contents[..i])
      invariant forall k :: 0 <= k < i ==> ImportedAt(c, live, contents, k)
    {
      TotalSizeNext(contents, i);
      if |contents[i]| > MAX64 - c.state.totalOctets { return Err(OctetOverflow), live; }
      var next, m := ImportOne(c, contents[i], live);
      ImportedMore(c, next, live, contents, m);
      c, live := next, live + [m];
      i := i + 1;
    }
    assert contents[..i] == contents;
    if c.state.totalOctets != octets { return Err(OctetsMismatch), live; }
    r := Ok(c);
  }

  /** One round of the import loop. */
  method ImportOne(c: Commit, content: Bytes, ghost live: seq<Message>) returns (next: Commit, ghost m: Message)
    requires Coherent(c, live) && c.state.lastID == |live| < MAX64
    requires c.state.totalOctets + |content| <= MAX64
    ensures Coherent(next, live + [m]) && next.state.lastID == m.id == |live| + 1
    ensures next.state.totalOctets == c.state.totalOctets + |content|
    ensures m.path !in c.tree && next.tree == c.tree[m.path := content]
  {
    var id := c.state.lastID + 1;
    var message := Message(id, |content|, MessagePath(id, |content|));
    var directories := CountAppended(c.state.directories, message, live);
    AppendedIsCoherent(c, live, message, content, directories);
    NameIsFresh(live, c.state.lastID, message);
    next, m := Appended(c, message, content, directories), message;
  }

  lemma {:induction false} ImportedMore(c: Commit, next: Commit, live: seq<Message>, contents: seq<Bytes>, m: Message)
    requires |live| < |contents| && m.id == |live| + 1
    requires m.path !in c.tree && next.tree == c.tree[m.path := contents[|live|]]
    requires forall k :: 0 <= k < |live| ==> ImportedAt(c, live, contents, k)
    ensures forall k :: 0 <= k < |live| + 1 ==> ImportedAt(next, live + [m], contents, k)
  {
    forall k | 0 <= k < |live| + 1 ensures ImportedAt(next, live + [m], contents, k) {
      if k < |live| { assert ImportedAt(c, live, contents, k); }
    }
  }

  lemma {:induction false} TotalSizeNext(contents: seq<Bytes>, i: nat)
    requires i < |contents|
    ensures TotalSize(contents[..i + 1]) == TotalSize(contents[..i]) + |contents[i]| <= TotalSize(contents)
    decreases |contents|
  {
    assert contents[..i + 1][..i] == contents[..i];
    var n := |contents| - 1;
    if i < n {
      TotalSizeNext(contents[..n], i);
      assert contents[..n][..i + 1] == contents[..i + 1] && contents[..n][..i] == contents[..i];
    } else {
      assert contents[..i + 1] == contents;
    }
  }
}
