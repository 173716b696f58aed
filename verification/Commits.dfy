/** One commit of the archive, the live list it stands for, and the history of commits.
    Commits are identified by their position in HEAD's ancestry. */
module Commits {
  import opened Prelude
  import opened Text
  import opened IdPath
  import opened Directories
  import opened DirectoryCounts
  import opened LiveMail
  import opened Tree

  const STATE_VERSION := 2

  datatype MailboxState = MailboxState(version: int, lastID: uint64, totalOctets: uint64, directories: Counts)
  datatype Commit = Commit(tree: FileTree, state: MailboxState)

  /** The committed tree and state both describe exactly the live list. */
  ghost predicate Coherent(c: Commit, live: seq<Message>) {
    && c.state.version == STATE_VERSION
    && LiveList(live) && AllocatedBy(live, c.state.lastID)
    && Names(live) == c.tree.Keys && Contents(c.tree, live)
    && Histogram(c.state.directories, live) && c.state.totalOctets == Octets(live)
  }

  /** Every message's octets are stored under its path, as many as its name says. */
  ghost predicate Contents(tree: FileTree, live: seq<Message>) {
    forall m :: m in live ==> m.path in tree && |tree[m.path]| == m.size
  }

  // ---------------------------------------------------------------- leaf listings

  lemma {:induction false} LeafLength(path: string)
    requires IsLeafPath(path)
    ensures |path| >= 1
    ensures exists depth: nat :: 1 <= depth <= 7 && path[0] == DigitChar(depth) && |path| == 4 * depth - 3
  {
    var p: nat :| p <= MAX_PREFIX && path == LeafPath(p);
    SixDigits(p);
    DirPathShape(1 + NumDigits(p), p);
  }

  /** The first character of a leaf path fixes its length, so leaf paths are prefix-free even before a slash. */
  lemma {:induction false} SameFirstChar(a: string, b: string)
    requires IsLeafPath(a) && IsLeafPath(b) && a[..1] == b[..1]
    ensures |a| == |b|
  {
    LeafLength(a);
    LeafLength(b);
    assert a[0] == a[..1][0] == b[..1][0] == b[0];
    var m: nat :| 1 <= m <= 7 && a[0] == DigitChar(m) && |a| == 4 * m - 3;
    var n: nat :| 1 <= n <= 7 && b[0] == DigitChar(n) && |b| == 4 * n - 3;
    DigitOrder(m, n);
    DigitOrder(n, m);
  }

  /** A message file is at or below a leaf directory exactly when that is the leaf of its ID. */
  lemma {:induction false} UnderLeaf(m: Message, path: string)
    requires IsMessage(m) && IsLeafPath(path)
    ensures path + "/" <= m.path <==> LeafOf(m.id) == path
    ensures Dir(m.path) == LeafOf(m.id)
  {
    DirOfMessagePath(m.id, m.size);
    LeafOfIsLeaf(m.id);
    StemUnderLeaf(m);
    LeafLength(path);
    LeafLength(LeafOf(m.id));
    var leaf := LeafOf(m.id);
    if path + "/" <= m.path {
      assert (path + "/")[..1] == path[..1] && m.path[..1] == leaf[..1];
      assert (path + "/")[..1] == m.path[..1];
      SameFirstChar(path, leaf);
      assert path == m.path[..|path|] == leaf;
    }
  }

  lemma {:induction false} StemUnderLeaf(m: Message)
    requires IsMessage(m)
    ensures LeafOf(m.id) + "/" <= m.path
    ensures m.path[..|LeafOf(m.id)|] == LeafOf(m.id)
  {
    PathIsLeafAndName(m.id, m.size);
  }

  /** The directory listing of leaf i is the i-th run of the live list. */
  lemma {:induction false} LeafListing(c: Commit, live: seq<Message>, i: nat, leaf: DirectoryCount)
    returns (run: seq<Message>)
    requires Coherent(c, live) && |live| <= MAX64 && i < |Table(live)| && Table(live)[i] == leaf
    ensures 0 < leaf.count <= leaf.accumulated <= |live|
    ensures run == live[leaf.accumulated - leaf.count..leaf.accumulated]
    ensures IsListing(run, c.tree.Keys, leaf.path)
  {
    TableBounds(live, i);
    TableRun(live, i);
    TableEntry(live, i);
    var a, b := leaf.accumulated - leaf.count, leaf.accumulated;
    RunListing(c, live, leaf.path, a, b);
    run := live[a..b];
  }

  lemma {:induction false} RunListing(c: Commit, live: seq<Message>, path: string, a: nat, b: nat)
    requires Coherent(c, live) && IsLeafPath(path) && IsRun(live, path, a, b)
    ensures IsListing(live[a..b], c.tree.Keys, path)
  {
    RunEntries(live, path, a, b);
    forall p ensures p in Names(live[a..b]) <==> p in Under(c.tree.Keys, path) { RunNames(c, live, path, a, b, p); }
  }

  lemma {:induction false} RunEntries(live: seq<Message>, path: string, a: nat, b: nat)
    requires LiveList(live) && IsLeafPath(path) && IsRun(live, path, a, b)
    ensures forall m :: m in live[a..b] ==> m in live && LeafOf(m.id) == path
    ensures Entries(live[a..b], path) && Ascending(ById, live[a..b])
  {
    var run := live[a..b];
    forall m | m in run ensures m in live && LeafOf(m.id) == path && IsMessage(m) && Dir(m.path) == path {
      var k :| 0 <= k < |run| && run[k] == m;
      assert live[a + k] == m;
      UnderLeaf(m, path);
    }
    forall i, j | 0 <= i < j < |run| ensures ById(run[i], run[j]) { assert ById(live[a + i], live[a + j]); }
  }

  lemma {:induction false} RunNames(c: Commit, live: seq<Message>, path: string, a: nat, b: nat, p: string)
    requires Coherent(c, live) && IsLeafPath(path) && IsRun(live, path, a, b)
    ensures p in Names(live[a..b]) <==> p in Under(c.tree.Keys, path)
  {
    var run := live[a..b];
    NamesMember(run, p);
    NamesMember(live, p);
    RunEntries(live, path, a, b);
    if p in Names(run) {
      var m :| m in run && m.path == p;
      UnderLeaf(m, path);
    } else if p in Under(c.tree.Keys, path) {
      var m :| m in live && m.path == p;
      UnderLeaf(m, path);
      RunMember(live, path, a, b, m);
    }
  }

  lemma {:induction false} RunMember(live: seq<Message>, path: string, a: nat, b: nat, m: Message)
    requires IsRun(live, path, a, b) && m in live && LeafOf(m.id) == path
    ensures m in live[a..b]
  {
    var k :| 0 <= k < |live| && live[k] == m;
    assert live[a..b][k - a] == m;
  }

  // ---------------------------------------------------------------- one commit to the next

  lemma {:induction false} NameIsFresh(live: seq<Message>, lastID: nat, m: Message)
    requires LiveList(live) && AllocatedBy(live, lastID) && IsMessage(m) && m.id > lastID
    ensures m.path !in Names(live)
  {
    NamesMember(live, m.path);
    forall n | n in live ensures n.path != m.path {
      if n.path == m.path { MessagePathInjective(n.id, n.size, m.id, m.size); }
    }
  }

  lemma {:induction false} LiveListSnoc(live: seq<Message>, lastID: nat, m: Message)
    requires LiveList(live) && AllocatedBy(live, lastID) && IsMessage(m) && m.id == lastID + 1
    ensures LiveList(live + [m]) && AllocatedBy(live + [m], m.id)
    ensures Names(live + [m]) == Names(live) + {m.path}
  {
    var more := live + [m];
    assert more[..|live|] == live;
    assert forall x :: x in more <==> x in live || x == m;
    forall i, j | 0 <= i < j < |more| ensures ById(more[i], more[j]) {
      if j < |live| { assert ById(live[i], live[j]); } else { assert live[i] in live; }
    }
  }

  /** What Publish commits: the next ID, stored under its own path, counted in its ancestors. */
  function Appended(c: Commit, m: Message, content: Bytes, directories: Counts): Commit
    requires c.state.totalOctets + m.size <= MAX64
  {
    Commit(c.tree[m.path := content],
           MailboxState(STATE_VERSION, m.id, c.state.totalOctets + m.size, directories))
  }

  lemma {:induction false} AppendedIsCoherent(c: Commit, live: seq<Message>, m: Message, content: Bytes,
                                              directories: Counts)
    requires Coherent(c, live) && IsMessage(m) && m.id == c.state.lastID + 1 && m.size == |content|
    requires c.state.totalOctets + m.size <= MAX64
    requires Histogram(directories, live + [m])
    ensures Coherent(Appended(c, m, content, directories), live + [m])
    ensures Grows(c, live, Appended(c, m, content, directories), live + [m])
  {
    LiveListSnoc(live, c.state.lastID, m);
    NameIsFresh(live, c.state.lastID, m);
    Snoc(live, m, "");
    AppendedContents(c.tree, live, m, content);
    AppendedGrows(c, live, m, Appended(c, m, content, directories));
  }

  lemma {:induction false} AppendedContents(tree: FileTree, live: seq<Message>, m: Message, content: Bytes)
    requires Contents(tree, live) && m.path !in Names(live) && |content| == m.size
    ensures Contents(tree[m.path := content], live + [m])
  {
    forall x | x in live + [m]
      ensures x.path in tree[m.path := content] && |tree[m.path := content][x.path]| == x.size
    {
      if x in live { NamesMember(live, x.path); }
    }
  }

  lemma {:induction false} AppendedGrows(c: Commit, live: seq<Message>, m: Message, next: Commit)
    requires Contents(c.tree, live) && m.path !in Names(live) && m.id == c.state.lastID + 1 == next.state.lastID
    requires m.path in next.tree && next.tree == c.tree[m.path := next.tree[m.path]]
    ensures Grows(c, live, next, live + [m])
  {
    forall x | x in live + [m] ensures (x in live && SameOctets(c.tree, next.tree, x.path)) || x.id > c.state.lastID {
      if x in live { NamesMember(live, x.path); }
    }
  }

  /** What deleteLocked commits: the same mail less some of it, under the same last ID. */
  function Reduced(c: Commit, paths: set<string>, totalOctets: uint64, directories: Counts): Commit {
    Commit(c.tree - paths, MailboxState(STATE_VERSION, c.state.lastID, totalOctets, directories))
  }

  lemma {:induction false} ReducedNames(live: seq<Message>, removed: seq<Message>, gone: set<uint64>, p: string)
    requires LiveList(live) && (forall m :: m in removed ==> m in live)
    requires forall id :: id in gone <==> exists m :: m in removed && m.id == id
    ensures p in Names(Without(live, gone)) <==> p in Names(live) && p !in Names(removed)
  {
    NamesMember(live, p);
    NamesMember(removed, p);
    NamesMember(Without(live, gone), p);
    WithoutMembers(live, gone);
    forall m, n | m in live && n in live && m.path == n.path ensures m == n {
      MessagePathInjective(m.id, m.size, n.id, n.size);
    }
    forall m, n | m in live && n in live && m.id == n.id ensures m == n { OneMessagePerId(live, m, n); }
  }

  lemma {:induction false} ReducedIsCoherent(c: Commit, live: seq<Message>, removed: seq<Message>, gone: set<uint64>,
                                             totalOctets: uint64, directories: Counts)
    requires Coherent(c, live) && (forall m :: m in removed ==> m in live)
    requires forall id :: id in gone <==> exists m :: m in removed && m.id == id
    requires Histogram(directories, Without(live, gone)) && totalOctets == Octets(Without(live, gone))
    ensures Coherent(Reduced(c, Names(removed), totalOctets, directories), Without(live, gone))
    ensures Grows(c, live, Reduced(c, Names(removed), totalOctets, directories), Without(live, gone))
  {
    var rest := Without(live, gone);
    WithoutIsLiveList(live, gone);
    WithoutMembers(live, gone);
    forall p ensures p in Names(rest) <==> p in Names(live) && p !in Names(removed) {
      ReducedNames(live, removed, gone, p);
    }
    var tree := c.tree - Names(removed);
    assert tree.Keys == c.tree.Keys - Names(removed);
    assert Names(rest) == tree.Keys;
    forall m | m in rest ensures SameOctets(c.tree, tree, m.path) { NamesMember(rest, m.path); }
  }

  // ---------------------------------------------------------------- history

  /** The next commit shows exactly one message more, under the next ID. */
  ghost predicate Arrives(c: Commit, live: seq<Message>, next: Commit, later: seq<Message>) {
    && next.state.lastID == c.state.lastID + 1
    && |later| == |live| + 1 && later[|live|].id == next.state.lastID && later == live + [later[|live|]]
  }

  /** From one commit to its successor either one message arrives or no ID is allocated, and every message is either an
      old one with its old octets or carries an ID that was never allocated before. */
  ghost predicate Grows(c: Commit, live: seq<Message>, next: Commit, later: seq<Message>) {
    && (next.state.lastID == c.state.lastID || Arrives(c, live, next, later))
    && forall m :: m in later ==> (m in live && SameOctets(c.tree, next.tree, m.path)) || m.id > c.state.lastID
  }

  predicate SameOctets(a: FileTree, b: FileTree, path: string) { path in a && path in b && a[path] == b[path] }

  ghost predicate CoherentAt(commits: seq<Commit>, lives: seq<seq<Message>>, i: nat)
    requires i < |commits| && i < |lives|
  {
    Coherent(commits[i], lives[i])
  }

  ghost predicate GrowsAt(commits: seq<Commit>, lives: seq<seq<Message>>, i: nat)
    requires 0 < i < |commits| && i < |lives|
  {
    Grows(commits[i - 1], lives[i - 1], commits[i], lives[i])
  }

  /** HEAD's ancestry, oldest first, with the live list of every commit. */
  ghost predicate History(commits: seq<Commit>, lives: seq<seq<Message>>) {
    && |commits| == |lives| > 0
    && (forall i :: 0 <= i < |commits| ==> CoherentAt(commits, lives, i))
    && (forall i :: 0 < i < |commits| ==> GrowsAt(commits, lives, i))
  }

  lemma {:induction false} HistoryGrows(commits: seq<Commit>, lives: seq<seq<Message>>, c: Commit, live: seq<Message>)
    requires History(commits, lives) && Coherent(c, live)
    requires Grows(commits[|commits| - 1], lives[|commits| - 1], c, live)
    ensures History(commits + [c], lives + [live])
  {
    var more, longer := commits + [c], lives + [live];
    forall i | 0 <= i < |more| ensures CoherentAt(more, longer, i) {
      if i < |commits| { assert CoherentAt(commits, lives, i); }
    }
    forall i | 0 < i < |more| ensures GrowsAt(more, longer, i) {
      if i < |commits| { assert GrowsAt(commits, lives, i); }
    }
  }

  /** Between two commits of one history, a message whose ID the earlier one had allocated is a message of
      the earlier one, with the same octets. */
  lemma {:induction false} OldMailOnlyShrinks(commits: seq<Commit>, lives: seq<seq<Message>>, i: nat, j: nat,
                                              m: Message)
    requires History(commits, lives) && i <= j < |commits| && m in lives[j]
    ensures commits[i].state.lastID <= commits[j].state.lastID
    ensures m.id <= commits[i].state.lastID ==> m in lives[i] && SameOctets(commits[i].tree, commits[j].tree, m.path)
    decreases j - i
  {
    LastIdMonotone(commits, lives, i, j);
    if i == j {
      assert CoherentAt(commits, lives, i);
      StoredAs(commits[i], lives[i], m);
    } else {
      LastIdMonotone(commits, lives, i, j - 1);
      assert GrowsAt(commits, lives, j);
      if m.id <= commits[i].state.lastID { OldMailOnlyShrinks(commits, lives, i, j - 1, m); }
    }
  }

  lemma {:induction false} StoredAs(c: Commit, live: seq<Message>, m: Message)
    requires Coherent(c, live) && m in live
    ensures SameOctets(c.tree, c.tree, m.path)
  {
  }

  lemma {:induction false} LastIdMonotone(commits: seq<Commit>, lives: seq<seq<Message>>, i: nat, j: nat)
    requires History(commits, lives) && i <= j < |commits|
    ensures commits[i].state.lastID <= commits[j].state.lastID
    decreases j - i
  {
    if i < j {
      LastIdMonotone(commits, lives, i, j - 1);
      assert GrowsAt(commits, lives, j);
    }
  }

  /** No ID in a history ever denotes two messages, nor two contents. */
  lemma {:induction false} IdNamesOneMessage(commits: seq<Commit>, lives: seq<seq<Message>>, i: nat, j: nat,
                                             m: Message, n: Message)
    requires History(commits, lives) && i < |commits| && j < |commits|
    requires m in lives[i] && n in lives[j] && m.id == n.id
    ensures m == n && SameOctets(commits[i].tree, commits[j].tree, m.path)
  {
    assert CoherentAt(commits, lives, i) && CoherentAt(commits, lives, j);
    if i <= j {
      OldMailOnlyShrinks(commits, lives, i, j, n);
      OneMessagePerId(lives[i], m, n);
    } else {
      OldMailOnlyShrinks(commits, lives, j, i, m);
      OneMessagePerId(lives[j], m, n);
    }
  }

  // ---------------------------------------------------------------- arrivals

  /** The messages that arrived after the first commit, in the order of their commits. */
  ghost function Arrivals(commits: seq<Commit>, lives: seq<seq<Message>>): seq<Message>
    requires |commits| == |lives|
  {
    if |commits| <= 1 then []
    else
      var n := |commits| - 1;
      Arrivals(commits[..n], lives[..n])
      + if commits[n].state.lastID != commits[n - 1].state.lastID && lives[n] != []
        then [lives[n][|lives[n]| - 1]] else []
  }

  lemma {:induction false} FrontHistory(commits: seq<Commit>, lives: seq<seq<Message>>)
    requires History(commits, lives) && |commits| > 1
    ensures History(commits[..|commits| - 1], lives[..|commits| - 1])
  {
    var n := |commits| - 1;
    forall i | 0 <= i < n ensures CoherentAt(commits[..n], lives[..n], i) { assert CoherentAt(commits, lives, i); }
    forall i | 0 < i < n ensures GrowsAt(commits[..n], lives[..n], i) { assert GrowsAt(commits, lives, i); }
  }

  /** Arrivals carry consecutive IDs from the first free one on. */
  lemma {:induction false} ArrivalIds(commits: seq<Commit>, lives: seq<seq<Message>>, k: nat)
    requires History(commits, lives)
    ensures |Arrivals(commits, lives)| == commits[|commits| - 1].state.lastID - commits[0].state.lastID
    ensures k < |Arrivals(commits, lives)| ==> Arrivals(commits, lives)[k].id == commits[0].state.lastID + 1 + k
    decreases |commits|
  {
    if |commits| > 1 {
      FrontHistory(commits, lives);
      ArrivalIds(commits[..|commits| - 1], lives[..|commits| - 1], k);
      assert GrowsAt(commits, lives, |commits| - 1);
    }
  }

  /** The message is the arrival of its ID. */
  ghost predicate ArrivedAs(arrivals: seq<Message>, first: nat, m: Message) {
    first < m.id <= first + |arrivals| && arrivals[m.id - first - 1] == m
  }

  /** Nothing becomes visible without arriving: every message of every commit was there from the start or is the
      arrival of its ID. */
  lemma {:induction false} VisibleMailArrived(commits: seq<Commit>, lives: seq<seq<Message>>, j: nat, m: Message)
    requires History(commits, lives) && j < |commits| && m in lives[j]
    ensures m in lives[0] || ArrivedAs(Arrivals(commits, lives), commits[0].state.lastID, m)
    decreases |commits|
  {
    var n := |commits| - 1;
    if n > 0 {
      FrontHistory(commits, lives);
      if j < n || m in lives[n - 1] {
        VisibleMailArrived(commits[..n], lives[..n], if j < n then j else n - 1, m);
      } else {
        ArrivedLast(commits, lives, m);
        ArrivalIds(commits[..n], lives[..n], 0);
      }
    }
  }

  lemma {:induction false} ArrivedLast(commits: seq<Commit>, lives: seq<seq<Message>>, m: Message)
    requires History(commits, lives) && |commits| > 1
    requires m in lives[|commits| - 1] && m !in lives[|commits| - 2]
    ensures m.id == commits[|commits| - 1].state.lastID == commits[|commits| - 2].state.lastID + 1
    ensures Arrivals(commits, lives) == Arrivals(commits[..|commits| - 1], lives[..|commits| - 1]) + [m]
  {
    var n := |commits| - 1;
    assert GrowsAt(commits, lives, n) && CoherentAt(commits, lives, n) && CoherentAt(commits, lives, n - 1);
    assert m.id <= commits[n].state.lastID;
  }
}
