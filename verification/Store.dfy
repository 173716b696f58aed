/** internal/archive/store.go, mailbox.go, quota.go and import.go, the writers: one store object whose lock-atomic
    methods append and delete mail in a chain of commits. `commits` is HEAD's ancestry and survives the process;
    memory belongs to one process. */
module Archive {
  import opened Prelude
  import opened IdPath
  import opened DirectoryCounts
  import opened LiveMail
  import opened Tree
  import opened Commits
  import opened Mailbox
  import opened Budget
  import opened Updates
  import opened Payments

  /** A critical section of some other session: of a DATA command on the message that `who` numbers among those staged
      since the process started, or of a deletion. */
  datatype Act =
    | Admission(day: int)
    | Streaming(who: nat, chunk: Bytes, day: int)
    | Completion(who: nat)
    | Discarding(who: nat)
    | Arrival(who: nat, day1: int, day2: int, readable: bool, write: WriteOutcome, commit: CommitOutcome)
    | Erasure(ids: seq<uint64>, outcome: CommitOutcome)

  class Store {
    var commits: seq<Commit>
    var state: MailboxState
    var index: Option<DirectoryIndex>
    var headID: nat
    var failure: bool
    ghost var lives: seq<seq<Message>> // the live list of every commit

    const maxDailyBytes: nat
    var receipt: Option<Receipt>
    var receiptFile: Option<Receipt>
    var reservedBytes: uint64
    ghost const initial: Option<Receipt> // the receipt file when the archive was first opened
    var staged: seq<StagedMessage> // every message this process has staged; the source keeps no list of them
    ghost var base: nat                  // how many earlier processes staged
    ghost var ledger: Ledger
    ghost var events: seq<Event>

    /** The chain is a history; while nothing has failed, memory mirrors its last commit. (The quantifier says MirrorsAt
        of `headID` itself; it keeps the definition folded until a proof names it.) */
    ghost predicate Valid()
      reads `commits, `state, `index, `headID, `failure, `lives
    {
      && History(commits, lives) && headID < |commits|
      && (!failure ==> headID == |commits| - 1 && state == commits[headID].state)
      && forall i :: i == headID ==> MirrorsAt(SnapshotNow(), commits, i, failure)
    }

    /** The live list of HEAD. */
    ghost function Live(): seq<Message>
      reads `commits, `state, `index, `headID, `failure, `lives
      requires Valid()
    {
      lives[|lives| - 1]
    }

    function SnapshotNow(): Snapshot
      reads `state, `index, `headID
    {
      Snapshot(state.lastID, state.totalOctets, if index.Some? then index.value.total else 0, index, headID)
    }

    /** What holds at every release of the lock: the archive is sound, the receipts are a run of the budget protocol,
        and every message that ever arrived has its own charge. */
    ghost predicate Ready()
      reads this, staged
    {
      Valid() && Accounts() && ledger.failed == failure && Paid(commits, lives, ledger.history)
    }

    /** A snapshot of a healthy store is pinned to HEAD. */
    method TakeSnapshot() returns (snapshot: Snapshot)
      requires Valid()
      ensures snapshot == SnapshotNow() && WellFormed(snapshot)
      ensures !failure ==> Pinned(snapshot, commits[|commits| - 1], Live())
    {
      SnapshotIsWellFormed();
      if !failure { HeadIsCoherent(); }
      snapshot := SnapshotNow();
    }

    lemma {:induction false} SnapshotIsWellFormed()
      requires Valid()
      ensures WellFormed(SnapshotNow())
    {
      assert MirrorsAt(SnapshotNow(), commits, headID, failure);
    }

    /** The head of a healthy store and its live list. */
    lemma {:induction false} HeadIsCoherent()
      requires Valid() && !failure
      ensures Coherent(commits[headID], Live()) && state == commits[headID].state
      ensures Pinned(SnapshotNow(), commits[headID], Live())
    {
      assert CoherentAt(commits, lives, |commits| - 1);
      assert MirrorsAt(SnapshotNow(), commits, headID, failure);
    }

    /** A process opens an archive whose HEAD is this first commit. */
    constructor (first: Commit, maxDailyBytes: nat, receiptFile: Option<Receipt>, ghost live: seq<Message>)
      requires Coherent(first, live) && maxDailyBytes <= MAX_INT63
      ensures Ready() && !failure && commits == [first] && Live() == live
      ensures ledger == Open(maxDailyBytes, receiptFile) && events == []
    {
      var built := RebuildIndex(first, live);
      commits, lives, headID, failure := [first], [live], 0, false;
      state, index := first.state, Some(built);
      this.maxDailyBytes, this.receiptFile, receipt, reservedBytes := maxDailyBytes, receiptFile, receiptFile, 0;
      initial, staged, base, ledger, events := receiptFile, [], 0, Open(maxDailyBytes, receiptFile), [];
      new;
      assert CoherentAt(commits, lives, 0);
      IndexIsWellFormed(SnapshotNow(), first);
    }

    /** The state and index a new process loads from HEAD. */
    method LoadHead()
      requires Valid()
      modifies `state, `index, `headID, `failure
      ensures Valid() && !failure && Live() == old(Live())
      ensures headID == |commits| - 1 && state == commits[headID].state
    {
      assert CoherentAt(commits, lives, |commits| - 1);
      var head := |commits| - 1;
      StateOfCommit(commits[head], Live());
      var built := DecodeMailboxState(commits[head].state);
      if built.Err? { assert false; }
      else {
        state, index, headID, failure := commits[head].state, Some(built.value), head, false;
        IndexIsWellFormed(SnapshotNow(), commits[head]);
      }
    }

    /** A new process starts from HEAD and the receipt file: whatever had failed, and wherever memory stood, it is
        healthy, shows the mail of HEAD, remembers the receipt and has nothing staged. */
    method Restart()
      requires Ready()
      modifies `state, `index, `headID, `failure, `receipt, `reservedBytes, `staged, `base, `ledger, `events
      ensures Ready() && !failure && Live() == old(Live())
      ensures headID == |commits| - 1 && state == commits[headID].state
      ensures ledger == Reopen(old(ledger)) && staged == [] && !ledger.failed
    {
      LoadHead();
      receipt, reservedBytes := receiptFile, 0;
      ReachedRestart(maxDailyBytes, initial, events, ledger);
      ledger, events := Reopen(ledger), events + [Event.Restart];
      staged, base := [], |ledger.stages|;
    }

    /** commitChanges with the three ways it can end. `next` and `nextLive` describe the tree it would commit.
        Its own refusals, a state without an index and a HEAD moved by somebody else, are never met. */
    method CommitChanges(next: Commit, ghost nextLive: seq<Message>, outcome: CommitOutcome)
      returns (r: Result<nat, StoreError>)
      requires Valid()
      requires !failure ==> History(commits + [next], lives + [nextLive])
      modifies `commits, `headID, `failure, `lives
      ensures old(failure) ==> r == Err(Failed) && unchanged(`commits, `state, `index, `headID, `failure, `lives)
      ensures !old(failure) ==>
        && History(commits, lives)
        && (r.Ok? <==> outcome.Confirmed?) && (failure <==> outcome.Uncertain?)
        && (if Landed(outcome) then commits == old(commits) + [next] && lives == old(lives) + [nextLive]
            else commits == old(commits) && lives == old(lives))
        && headID == (if outcome.Confirmed? || Poisons(outcome)
                      then |commits| - 1 else old(headID))
    {
      if failure { return Err(Failed); }
      assert CoherentAt(commits + [next], lives + [nextLive], |commits|);
      var _ := RebuildIndex(next, nextLive);
      if headID != |commits| - 1 { assert false; }
      match outcome
      case Refused => r := Err(CommitRefused);
      case Confirmed =>
        commits, lives := commits + [next], lives + [nextLive];
        headID := |commits| - 1;
        r := Ok(headID);
      case Uncertain(moved, headSeen) =>
        if moved {
          commits, lives := commits + [next], lives + [nextLive];
          if headSeen { headID := |commits| - 1; }
        }
        failure := true;
        r := Err(Failed);
    }

    /** Something went wrong that only a new process can put right. */
    method Fail()
      requires Valid()
      modifies `failure
      ensures Valid() && failure
    {
      SnapshotIsWellFormed();
      failure := true;
    }

    /** A failed deletion fails the receipts as well. */
    ghost method NoteFailure()
      requires Accounts()
      modifies `ledger, `events
      ensures Accounts() && ledger.failed == (failure || old(ledger.failed))
      ensures ledger == old(ledger).(failed := failure || old(ledger.failed))
    {
      if failure && !ledger.failed {
        ReachedFailure(maxDailyBytes, initial, events, ledger);
        ledger, events := ledger.(failed := true), events + [OtherFailure];
        forall i | 0 <= i < |staged| ensures OwnsAt(i) { assert old(OwnsAt(i)); }
      }
    }

    /** Publish, before the receipt: the next ID, path, totals, counts and index. */
    method PrepareAppend(size: uint64) returns (r: Result<Prepared, StoreError>)
      requires Valid() && !failure
      ensures r.Ok? <==> HasRoom(state, size)
      ensures r.Err? ==> r.error == if state.lastID == MAX64 then IdsExhausted else OctetOverflow
      ensures r.Ok? ==> ReadyToAppend(r.value, state, Live(), size)
    {
      if state.lastID == MAX64 { return Err(IdsExhausted); }
      var nextID := state.lastID + 1;
      var message := Message(nextID, size, MessagePath(nextID, size));
      if size > MAX64 - state.totalOctets { return Err(OctetOverflow); }
      HeadIsCoherent();
      CoherentStateHasIndex(commits[headID], Live());
      var directories := CountAppended(state.directories, message, Live());
      AppendedHasIndex(commits[headID], Live(), message, directories);
      var built := BuildDirectoryIndex(directories, nextID);
      if built.Err? { assert false; }
      else {
        var next := MailboxState(STATE_VERSION, nextID, state.totalOctets + size, directories);
        r := Ok(Prepared(message, next, built.value));
      }
    }

    /** Publish, after the receipt: commit the prepared message and adopt the new state once HEAD has it. */
    method CommitAppend(p: Prepared, content: Bytes, outcome: CommitOutcome) returns (ok: bool)
      requires Valid() && !failure && ReadyToAppend(p, state, Live(), |content|)
      modifies `commits, `state, `index, `headID, `failure, `lives
      ensures Valid() && ok == outcome.Confirmed? && failure == outcome.Uncertain?
      ensures Published(old(commits), old(lives), commits, lives, content, Landed(outcome))
      ensures ok ==> state.lastID == old(state.lastID) + 1 == p.message.id
      ensures ok ==>
        SnapshotNow() == Snapshot(p.state.lastID, p.state.totalOctets, p.index.total, Some(p.index), |commits| - 1)
      ensures outcome.Refused? ==> SnapshotNow() == old(SnapshotNow())
      ensures if Poisons(outcome) then !Describes(SnapshotNow(), commits[headID])
              else MirrorsAt(SnapshotNow(), commits, headID, false)
      ensures headID == if ok || Poisons(outcome) then |commits| - 1 else old(headID)
    {
      assert MirrorsAt(SnapshotNow(), commits, headID, false);
      AppendExtends(commits, lives, p, state, content);
      var next := AppendCommit(commits[headID], p, content);
      var committed := CommitChanges(next, Live() + [p.message], outcome);
      ok := committed.Ok?;
      if ok {
        PreparedIndex(p, next, state, old(Live()), |content|, headID);
        state, index := p.state, Some(p.index);
      }
    }

    /** deleteLocked: none of its underflow or index errors is met on messages live at HEAD. */
    method DeleteLocked(messages: seq<Message>, outcome: CommitOutcome) returns (r: Result<(), StoreError>)
      requires Valid()
      requires !failure ==> Removable(messages, Live())
      modifies `commits, `state, `index, `headID, `failure, `lives
      ensures Valid()
      ensures old(failure) ==> r == Err(Failed) && unchanged(`commits, `state, `index, `headID, `failure, `lives)
      ensures !old(failure) && messages == [] ==>
        r == Ok(()) && unchanged(`commits, `state, `index, `headID, `failure, `lives)
      ensures !old(failure) && messages != [] ==>
        && (r.Ok? <==> outcome.Confirmed?) && failure == outcome.Uncertain?
        && (if Landed(outcome) then lives == old(lives) + [Without(old(Live()), IdsOf(messages))]
                                    && old(commits) < commits && |commits| == |old(commits)| + 1
                                    && commits[|commits| - 1].state.lastID == old(state.lastID)
            else commits == old(commits) && lives == old(lives))
        && headID == (if r.Ok? || Poisons(outcome) then |commits| - 1 else old(headID))
      ensures outcome.Refused? ==> SnapshotNow() == old(SnapshotNow())
      ensures !old(failure) && messages != [] ==>
        if Poisons(outcome) then !Describes(SnapshotNow(), commits[headID])
        else MirrorsAt(SnapshotNow(), commits, headID, false)
    {
      if failure { return Err(Failed); }
      if messages == [] { return Ok(()); }
      assert MirrorsAt(SnapshotNow(), commits, headID, false);
      var next, built := PrepareDelete(messages);
      var committed := CommitChanges(next, Without(Live(), IdsOf(messages)), outcome);
      if committed.Err? { return Err(committed.error); }
      state, index := next.state, Some(built);
      r := Ok(());
    }

    /** deleteLocked up to the commit: the reduced tree, state and index. */
    method PrepareDelete(messages: seq<Message>) returns (next: Commit, built: DirectoryIndex)
      requires Valid() && !failure && Removable(messages, Live())
      ensures next.state.lastID == state.lastID
      ensures History(commits + [next], lives + [Without(Live(), IdsOf(messages))])
      ensures IndexFor(built, next.state.directories, next.state.lastID)
      ensures messages != [] ==> !Describes(SnapshotNow().(commit := |commits|), next)
    {
      HeadIsCoherent();
      var directories, totalOctets := CountRemoved(state.directories, state.totalOctets, messages, Live());
      var paths := PathsOf(messages);
      RemovedAreLive(messages, Live());
      IdsOfMembers(messages);
      next := Reduced(commits[headID], paths, totalOctets, directories);
      ReducedIsCoherent(commits[headID], Live(), messages, IdsOf(messages), totalOctets, directories);
      HistoryGrows(commits, lives, next, Without(Live(), IdsOf(messages)));
      built := RebuildIndex(next, Without(Live(), IdsOf(messages)));
      if messages != [] { ReducedIsStale(messages, next); }
    }

    lemma {:induction false} ReducedIsStale(messages: seq<Message>, next: Commit)
      requires Valid() && !failure && Removable(messages, Live()) && messages != []
      requires Coherent(next, Without(Live(), IdsOf(messages)))
      ensures !Describes(SnapshotNow().(commit := |commits|), next)
    {
      HeadIsCoherent();
      RemovedAreLive(messages, Live());
      IdsOfMembers(messages);
      assert messages[0] in messages;
      WithoutIsShorter(Live(), IdsOf(messages), messages[0]);
      StaleIndex(SnapshotNow(), commits[headID], Live(), next, Without(Live(), IdsOf(messages)), |commits|);
    }

    lemma {:induction false} StagedIsOwned(m: StagedMessage)
      requires Accounts() && m in staged
      ensures Owns(m)
    {
      var i :| 0 <= i < |staged| && staged[i] == m;
      assert OwnsAt(i);
    }

    /** The archive has only grown, and the messages staged since are new objects. */
    twostate predicate Grown()
      reads `commits, `lives, `staged
    {
      && old(commits) <= commits && old(lives) <= lives && old(staged) <= staged
      && forall i :: |old(staged)| <= i < |staged| ==> fresh(staged[i])
    }

    /** On a healthy store the act does what it says: a message is staged, grows, is finished, discarded or published,
        or mail is deleted. */
    twostate predicate Acted(act: Act, mine: set<StagedMessage>)
      requires old(Valid()) && Valid() && Grown()
      reads this, staged
    {
      match act
      case Admission(day) =>
        Steady(old(events)) ==> (|staged| > |old(staged)| <==> !old(failure) && old(HasBudget(4096, day)))
      case Erasure(ids, outcome) =>
        !old(failure) && ValidIds(ids, old(state.lastID)) && outcome.Confirmed? ==>
          Live() == Without(old(Live()), IdSet(ids))
      case _ =>
        act.who < |old(staged)| && old(staged)[act.who] !in mine ==> DataActed(act, old(staged)[act.who])
    }

    twostate predicate DataActed(act: Act, m: StagedMessage)
      requires old(Valid())
      reads this, m
    {
      match act
      case Streaming(_, chunk, day) =>
        !old(m.done) && |chunk| <= MAX_INT63 && Steady(old(events)) && !old(failure) ==>
          m.content == old(m.content)
                       + if chunk == [] || old(HasBudget(Growth(|m.content|, |chunk|), day)) then chunk else []
      case Completion(_) => !old(m.done) ==> m.size == |m.content|
      case Discarding(_) => m.done && m.reserved == 0
      case Arrival(_, day1, day2, readable, write, commit) =>
        && m.store == this && old(m.size == |m.content|) && !old(m.done) && !old(failure) && Steady(old(events))
        && old(Publishable(|m.content|, day1, readable)) && write.Written? && commit.Confirmed? ==>
          Published(old(commits), old(lives), commits, lives, old(m.content), true)
      case _ => true
    }

    /** Whatever other sessions do between two critical sections of this one, which alone uses the messages `mine`. */
    method OtherSessions(acts: seq<Act>, mine: set<StagedMessage>)
      requires Ready()
      modifies `commits, `state, `index, `headID, `failure, `lives
      modifies `receipt, `receiptFile, `reservedBytes, `staged, `ledger, `events, staged
      ensures Ready() && Grown()
      ensures old(failure) ==> failure && commits == old(commits)
      ensures headID != old(headID) ==> |commits| > |old(commits)|
      ensures headID == old(headID) && !failure ==>
        commits == old(commits) && Live() == old(Live()) && state == old(state)
      ensures acts == [] ==> unchanged(this)
      ensures |acts| == 1 ==> Acted(acts[0], mine)
      ensures base == old(base)
      ensures forall m :: m in mine ==> unchanged(m)
    {
      if acts == [] { return; }
      OtherSession(acts[0], mine);
      var i := 1;
      while i < |acts|
        invariant Ready() && Grown()
        invariant old(failure) ==> failure && commits == old(commits)
        invariant headID != old(headID) ==> |commits| > |old(commits)|
        invariant |acts| == 1 ==> Acted(acts[0], mine)
        invariant 1 <= i <= |acts|
        invariant forall m :: m in mine ==> unchanged(m)
      {
        OtherSession(acts[i], mine);
        i := i + 1;
      }
    }

    method OtherSession(act: Act, mine: set<StagedMessage>)
      requires Ready()
      modifies `commits, `state, `index, `headID, `failure, `lives
      modifies `receipt, `receiptFile, `reservedBytes, `staged, `ledger, `events, staged
      ensures Ready() && Grown() && Acted(act, mine)
      ensures old(failure) ==> failure && commits == old(commits)
      ensures headID != old(headID) ==> |commits| > |old(commits)|
      ensures forall m :: m in mine ==> unchanged(m)
    {
      match act
      case Admission(day) =>
        var _ := BeginStage(day);
      case Erasure(ids, outcome) =>
        OtherDeletion(ids, outcome);
      case _ =>
        OtherStaged(act, act.who, mine);
    }

    /** ... on a message that is staged, unless it is one of ours. */
    method OtherStaged(act: Act, who: nat, mine: set<StagedMessage>)
      requires Ready()
      modifies `commits, `state, `index, `headID, `failure, `lives
      modifies `receipt, `receiptFile, `reservedBytes, `ledger, `events, staged
      ensures Ready() && old(commits) <= commits && old(lives) <= lives
      ensures old(failure) ==> failure && commits == old(commits)
      ensures headID != old(headID) ==> |commits| > |old(commits)|
      ensures who < |staged| && staged[who] !in mine ==> DataActed(act, staged[who])
      ensures forall m :: m in mine ==> unchanged(m)
    {
      if who < |staged| && staged[who] !in mine {
        StagedIsOwned(staged[who]);
        OtherData(act, staged[who]);
      }
    }

    method OtherDeletion(ids: seq<uint64>, outcome: CommitOutcome)
      requires Ready()
      modifies `commits, `state, `index, `headID, `failure, `lives, `ledger, `events
      ensures Ready() && old(commits) <= commits && old(lives) <= lives
      ensures old(failure) ==> failure && commits == old(commits)
      ensures headID != old(headID) ==> |commits| > |old(commits)|
      ensures !old(failure) && ValidIds(ids, old(state.lastID)) && outcome.Confirmed? ==>
        Live() == Without(old(Live()), IdSet(ids))
    {
      var messages := FindRequested(ids, SortedIds(ids));
      if messages.Ok? { var _ := DeleteRequested(messages.value, ids, outcome); }
    }

    /** ... of a DATA command that has staged this message. */
    method OtherData(act: Act, m: StagedMessage)
      requires Ready() && Owns(m)
      modifies `commits, `state, `index, `headID, `failure, `lives
      modifies `receipt, `receiptFile, `reservedBytes, `ledger, `events, m
      ensures Ready() && old(commits) <= commits && old(lives) <= lives
      ensures old(failure) ==> failure && commits == old(commits)
      ensures headID != old(headID) ==> |commits| > |old(commits)|
      ensures DataActed(act, m)
    {
      match act
      case Streaming(_, chunk, day) =>
        if !m.done && |chunk| <= MAX_INT63 { var _ := Receive(m, chunk, day); }
      case Completion(_) =>
        if !m.done { FinishStage(m); }
      case Discarding(_) => Discard(m);
      case Arrival(_, day1, day2, readable, write, commit) =>
        if m.size == |m.content| { var _ := Publish(m, day1, day2, readable, write, commit); }
      case _ =>
    }

    /** How a deletion ended: at most one commit after the first `base`, and success means the newest live list of
        that moment less the requested IDs. */
    ghost predicate Answered(r: Result<(), StoreError>, base: nat, ids: seq<uint64>, outcome: CommitOutcome)
      reads `commits, `state, `index, `headID, `failure, `lives
      requires Valid()
    {
      && Deletes(commits, lives, base, IdSet(ids), outcome)
      && (r.Ok? ==> Live() == Without(lives[base - 1], IdSet(ids)) && ValidIds(ids, state.lastID) && !failure)
      && (r.Err? && !failure ==> |commits| == base)
    }

    /** One round of DeleteAs: look the IDs up, let others write, and under the lock either delete or ask to retry. */
    method DeleteRound(ids: seq<uint64>, sorted: seq<uint64>, acts: seq<Act>, outcome: CommitOutcome)
      returns (r: Option<Result<(), StoreError>>, ghost others: nat)
      requires Ready() && sorted == SortedIds(ids)
      modifies `commits, `state, `index, `headID, `failure, `lives
      modifies `receipt, `receiptFile, `reservedBytes, `staged, `ledger, `events, staged
      ensures Ready() && Grown()
      ensures acts == [] || old(failure) ==> others == 0 && r.Some?
      ensures r.Some? ==> // the quantifier keeps Answered folded
        forall base :: base == |old(commits)| + others ==> Answered(r.value, base, ids, outcome)
      ensures r.None? ==> others == |commits| - |old(commits)| > 0 && ValidIds(ids, old(state.lastID))
      ensures r.None? && !failure ==> ValidIds(ids, state.lastID)
      ensures old(failure) ==> failure
      ensures !old(failure) && !ValidIds(ids, old(state.lastID)) ==>
        r == Some(Err(ReadFailed(NoSuchMessage))) && commits == old(commits)
      ensures !failure && ValidIds(ids, old(state.lastID)) && outcome.Confirmed? && r.Some? ==> r.value.Ok?
    {
      var head := headID;
      var messages;
      messages, others := FindThenWait(ids, sorted, acts);
      if messages.Err? { return Some(Err(ReadFailed(messages.error))), others; }
      if headID != head { return None, others; }
      var deleted := DeleteRequested(messages.value, ids, outcome);
      r := Some(deleted);
    }

    /** The part of a round outside the lock. */
    method FindThenWait(ghost ids: seq<uint64>, sorted: seq<uint64>, acts: seq<Act>)
      returns (r: Result<seq<Message>, ReadError>, ghost others: nat)
      requires Ready() && sorted == SortedIds(ids)
      modifies `commits, `state, `index, `headID, `failure, `lives
      modifies `receipt, `receiptFile, `reservedBytes, `staged, `ledger, `events, staged
      ensures Ready() && Grown() && others == |commits| - |old(commits)|
      ensures r.Err? || acts == [] || old(failure) ==> others == 0
      ensures headID != old(headID) ==> others > 0
      ensures r.Ok? && headID == old(headID) && !failure ==>
        Requested(r.value, ids, Live()) && ValidIds(ids, state.lastID)
      ensures r.Ok? ==> ValidIds(ids, old(state.lastID))
      ensures !old(failure) && !failure ==> old(state.lastID) <= state.lastID
      ensures old(failure) ==> failure
      ensures !old(failure) && !ValidIds(ids, old(state.lastID)) ==> r == Err(NoSuchMessage)
      ensures !old(failure) && ValidIds(ids, old(state.lastID)) ==> r.Ok?
    {
      others := 0;
      r := FindRequested(ids, sorted);
      if r.Err? { return; }
      OtherSessions(acts, {});
      others := |commits| - |old(commits)|;
      if !failure { LastIdGrew(); }
    }

    /** The last ID of a healthy store never falls. */
    twostate lemma LastIdGrew()
      requires old(Valid()) && !old(failure) && Valid() && !failure && old(commits) <= commits
      ensures old(state.lastID) <= state.lastID
    {
      LastIdMonotone(commits, lives, |old(commits)| - 1, |commits| - 1);
    }

    /** The lookups of one round, against a snapshot taken at its start. */
    method FindRequested(ghost ids: seq<uint64>, sorted: seq<uint64>) returns (r: Result<seq<Message>, ReadError>)
      requires Valid() && sorted == SortedIds(ids)
      ensures r.Ok? ==> ValidIds(ids, state.lastID)
      ensures !failure && r.Ok? ==> Requested(r.value, ids, Live())
      ensures !failure ==> r == Err(NoSuchMessage) || r.Ok?
      ensures !failure && ValidIds(ids, state.lastID) ==> r.Ok?
    {
      SnapshotIsWellFormed();
      if !failure { HeadIsCoherent(); }
      SortedIdsMeaning(ids);
      r := Resolve(commits[headID], SnapshotNow(), sorted, Live());
      if !failure && r.Ok? { ResolvedIds(r.value, ids, sorted, Live()); }
    }

    /** deleteLocked on what the lookup found, with HEAD where the lookup saw it. */
    method DeleteRequested(messages: seq<Message>, ids: seq<uint64>, outcome: CommitOutcome)
      returns (r: Result<(), StoreError>)
      requires Ready() && (!failure ==> Requested(messages, ids, Live()) && ValidIds(ids, state.lastID))
      modifies `commits, `state, `index, `headID, `failure, `lives, `ledger, `events
      ensures Ready() && old(commits) <= commits && old(lives) <= lives
      ensures Answered(r, |old(commits)|, ids, outcome)
      ensures old(failure) ==> failure && commits == old(commits)
      ensures headID != old(headID) ==> |commits| > |old(commits)|
      ensures !old(failure) && outcome.Confirmed? ==> r.Ok?
    {
      r := DeleteAnswered(messages, ids, outcome);
      NoIdNoCharge(old(commits), old(lives), commits, lives, ledger.history);
      NoteFailure();
    }

    /** The archive half of that. */
    method DeleteAnswered(messages: seq<Message>, ids: seq<uint64>, outcome: CommitOutcome)
      returns (r: Result<(), StoreError>)
      requires Valid() && (!failure ==> Requested(messages, ids, Live()) && ValidIds(ids, state.lastID))
      modifies `commits, `state, `index, `headID, `failure, `lives
      ensures Valid() && old(commits) <= commits && old(lives) <= lives
      ensures Answered(r, |old(commits)|, ids, outcome) && NoArrival(old(commits), old(lives), commits, lives)
      ensures old(failure) ==> failure && commits == old(commits)
      ensures headID != old(headID) ==> |commits| > |old(commits)|
      ensures !old(failure) && outcome.Confirmed? ==> r.Ok?
    {
      r := DeleteLocked(messages, outcome);
    }

    /** DeleteAs. Other writers run between the lookup and the lock of round k as `rounds[k]` says; afterwards
        nobody interferes. `others` counts their commits, `retries` the rounds they cost. */
    method DeleteAs(ids: seq<uint64>, rounds: seq<seq<Act>>, outcome: CommitOutcome)
      returns (r: Result<(), StoreError>, ghost others: nat, ghost retries: nat)
      requires Ready()
      modifies `commits, `state, `index, `headID, `failure, `lives
      modifies `receipt, `receiptFile, `reservedBytes, `staged, `ledger, `events, staged
      ensures Ready() && Grown()
      ensures retries <= others && (rounds == [] || old(failure) ==> others == 0)
      ensures Answered(r, |old(commits)| + others, ids, outcome)
      ensures !old(failure) && !ValidIds(ids, old(state.lastID)) ==>
        r == Err(ReadFailed(NoSuchMessage)) && commits == old(commits)
      ensures old(failure) ==> failure
      ensures !failure && ValidIds(ids, old(state.lastID)) && outcome.Confirmed? ==> r.Ok?
    {
      others, retries := 0, 0;
      var sorted := SortedIds(ids);
      var round := 0;
      ghost var valid := ValidIds(ids, state.lastID);
      while true
        invariant Ready() && Grown()
        invariant others == |commits| - |old(commits)| && retries <= others && round <= |rounds|
        invariant round == 0 ==> commits == old(commits) && failure == old(failure) && state == old(state)
        invariant round > 0 ==> rounds != [] && !old(failure) && valid
        invariant old(failure) ==> failure
        invariant valid && !failure ==> ValidIds(ids, state.lastID)
        decreases |rounds| - round
      {
        var answer;
        ghost var more: nat;
        var acts := if round < |rounds| then rounds[round] else [];
        answer, more := DeleteRound(ids, sorted, acts, outcome);
        others := others + more;
        if answer.Some? { r := answer.value; return; }
        round, retries := round + 1, retries + 1;
      }
    }

    // -------------------------------------------------------------- the receipt budget

    /** This process staged the message, and the ledger's stage of the same number describes it. */
    ghost predicate Owns(m: StagedMessage)
      reads `staged, `base, `ledger, m
    {
      && base <= m.token < base + |staged| && staged[m.token - base] == m
      && |m.content| == m.consumed
      && m.token < |ledger.stages| && ledger.stages[m.token] == Stage(m.consumed, m.reserved, m.done)
    }

    ghost predicate OwnsAt(i: nat)
      requires i < |staged|
      reads `staged, `base, `ledger, staged
    {
      staged[i].token == base + i && Owns(staged[i])
    }

    /** The fields are the ledger's, and the ledger is what a run of lock-atomic steps left. */
    ghost predicate Accounts()
      reads `receipt, `receiptFile, `reservedBytes, `staged, `base, `ledger, `events, staged
    {
      && Reached(maxDailyBytes, initial, events, ledger)
      && Holds(maxDailyBytes, receipt, receiptFile, reservedBytes, ledger)
      && |ledger.stages| == base + |staged|
      && forall i :: 0 <= i < |staged| ==> OwnsAt(i)
    }

    /** An unfinished message holds max(4096, its octets). */
    lemma {:induction false} HoldsItsCharge(m: StagedMessage)
      requires Accounts() && Owns(m) && !m.done
      ensures m.reserved == (if |m.content| < 4096 then 4096 else |m.content|) && |m.content| <= MAX_INT63
    {
      StageBound(maxDailyBytes, initial, events, ledger, m.token);
    }

    /** A step on one staged message leaves the others as the ledger has them. */
    twostate lemma OthersStillOwned(m: StagedMessage)
      requires staged == old(staged) && base == old(base) && |ledger.stages| == |old(ledger).stages| == base + |staged|
      requires Owns(m) && forall i :: 0 <= i < |staged| ==> old(OwnsAt(i))
      requires forall i :: 0 <= i < |staged| && staged[i] != m ==> unchanged(staged[i])
      requires ledger.stages == old(ledger).stages[m.token := ledger.stages[m.token]]
      ensures forall i :: 0 <= i < |staged| ==> OwnsAt(i)
    {
      forall i | 0 <= i < |staged| ensures OwnsAt(i) { assert old(OwnsAt(i)); }
    }

    /** canReserveLocked. */
    predicate CanReserveLocked(extra: nat, today: int)
      reads `receipt, `reservedBytes
    {
      CanReserve(maxDailyBytes, receipt, reservedBytes, extra, today)
    }

    /** On a healthy store, the durable charge of the receipt day, all reservations and `extra` fit within the limit. */
    ghost predicate HasBudget(extra: nat, today: int)
      reads `reservedBytes, `ledger
    {
      Spent(initial, ledger.history, today) + reservedBytes + extra <= maxDailyBytes
    }

    lemma {:induction false} RoomIsAdmission(extra: nat, today: int)
      requires Accounts() && !ledger.failed && Steady(events)
      ensures CanReserveLocked(extra, today) <==> HasBudget(extra, today)
    {
      ReachedRoom(maxDailyBytes, initial, events, ledger, extra, today);
    }

    /** CheckReceive invites DATA exactly when 4096 octets more fit within the day's limit, that is, when a Stage at the
        same moment would be admitted. */
    method CheckReceive(today: int) returns (r: Result<(), StoreError>)
      requires Accounts() && ledger.failed == failure
      ensures Steady(events) ==> (r.Ok? <==> !failure && HasBudget(4096, today))
      ensures r.Ok? <==> Budget.BeginStage(ledger, today) != ledger
      ensures r.Err? ==> r.error == if failure then Failed else DailyLimit
    {
      if !failure && Steady(events) { RoomIsAdmission(4096, today); }
      if failure { return Err(Failed); }
      if !CanReserveLocked(MINIMUM_CHARGE, today) { return Err(DailyLimit); }
      r := Ok(());
    }

    /** Stage, first critical section: reserve the minimum charge, exactly when it fits. */
    method BeginStage(today: int) returns (r: Result<StagedMessage, StoreError>)
      requires Accounts() && ledger.failed == failure
      modifies `reservedBytes, `staged, `ledger, `events
      ensures Accounts() && ledger.failed == failure && (Steady(old(events)) ==> Steady(events))
      ensures Steady(old(events)) ==> (r.Ok? <==> !failure && old(HasBudget(4096, today)))
      ensures r.Err? ==> r.error == if failure then Failed else DailyLimit
      ensures r.Ok? ==> r.value.reserved == 4096
      ensures ledger == Budget.BeginStage(old(ledger), today)
      ensures r.Ok? <==> ledger != old(ledger)
      ensures r.Ok? ==> fresh(r.value) && Owns(r.value) && r.value.content == [] && staged == old(staged) + [r.value]
      ensures r.Ok? ==> r.value.store == this && !r.value.done && reservedBytes == old(reservedBytes) + r.value.reserved
      ensures r.Err? ==> staged == old(staged) && reservedBytes == old(reservedBytes)
      ensures ledger.history == old(ledger).history
    {
      if !failure && Steady(events) { RoomIsAdmission(4096, today); }
      if failure { return Err(Failed); }
      if !CanReserveLocked(MINIMUM_CHARGE, today) { return Err(DailyLimit); }
      ReachedBegin(maxDailyBytes, initial, events, ledger, today);
      ledger, events := Budget.BeginStage(ledger, today), events + [Begin(today)];
      reservedBytes := reservedBytes + MINIMUM_CHARGE;
      var m := new StagedMessage(this, base + |staged|);
      staged := staged + [m];
      forall i | 0 <= i < |staged| ensures OwnsAt(i) { assert i < |old(staged)| ==> old(OwnsAt(i)); }
      r := Ok(m);
    }

    /** canReserveLocked, as the reader asks it. */
    method MayGrow(extra: nat, today: int) returns (ok: bool)
      requires Accounts()
      ensures ok == CanReserveLocked(extra, today)
      ensures Steady(events) && !ledger.failed ==> ok == HasBudget(extra, today)
    {
      if !ledger.failed && Steady(events) { RoomIsAdmission(extra, today); }
      ok := CanReserveLocked(extra, today);
    }

    /** quotaReader.Read and the copy into the temporary file: a chunk is let through exactly when the growth of the
        charge, max(4096, octets so far), fits. */
    method Receive(m: StagedMessage, chunk: Bytes, today: int) returns (ok: bool)
      requires Accounts() && Owns(m) && !m.done && |chunk| <= MAX_INT63
      modifies `reservedBytes, `ledger, `events, m
      ensures Accounts() && Owns(m) && !m.done && m.size == old(m.size)
      ensures Steady(old(events)) ==> Steady(events)
      ensures Steady(old(events)) && !ledger.failed ==>
        (ok <==> chunk == [] || old(HasBudget(Growth(|m.content|, |chunk|), today)))
      ensures StageOk(old(ledger).stages[m.token]) && ledger == ReadChunk(old(ledger), m.token, |chunk|, today)
      ensures m.content == if ok then old(m.content) + chunk else old(m.content)
      ensures ok ==> |chunk| == 0 || m.reserved == ChargeFor(|m.content|)
      ensures reservedBytes - m.reserved == old(reservedBytes) - old(m.reserved)
      ensures ledger.history == old(ledger).history && ledger.failed == old(ledger).failed
    {
      StageBound(maxDailyBytes, initial, events, ledger, m.token);
      if chunk == [] { return true; }
      var charge: uint64 := m.consumed + |chunk|;
      if charge < MINIMUM_CHARGE { charge := MINIMUM_CHARGE; }
      var extra := charge - m.reserved;
      var fits := MayGrow(extra, today);
      if !fits { return false; }
      Grow(m, chunk, charge, today);
      ok := true;
    }

    method Grow(m: StagedMessage, chunk: Bytes, charge: uint64, ghost today: int)
      requires Accounts() && Owns(m) && !m.done && chunk != [] && StageOk(ledger.stages[m.token])
      requires charge == ChargeFor(m.consumed + |chunk|) && m.reserved <= charge
      requires CanReserveLocked(charge - m.reserved, today)
      modifies `reservedBytes, `ledger, `events, m
      ensures Accounts() && Owns(m) && !m.done && m.size == old(m.size) && (Steady(old(events)) ==> Steady(events))
      ensures ledger == ReadChunk(old(ledger), m.token, |chunk|, today)
      ensures m.content == old(m.content) + chunk && m.reserved == charge
      ensures reservedBytes - m.reserved == old(reservedBytes) - old(m.reserved)
      ensures ledger.history == old(ledger).history && ledger.failed == old(ledger).failed
    {
      ReachedChunk(maxDailyBytes, initial, events, ledger, m.token, |chunk|, today);
      ledger, events := ReadChunk(ledger, m.token, |chunk|, today), events + [Chunk(m.token, |chunk|, today)];
      reservedBytes := reservedBytes + (charge - m.reserved);
      m.reserved, m.consumed, m.content := charge, m.consumed + |chunk|, m.content + chunk;
      OthersStillOwned(m);
    }

    /** discardLocked: a second call changes nothing. */
    method Discard(m: StagedMessage)
      requires Accounts() && Owns(m)
      modifies `reservedBytes, `ledger, `events, m
      ensures Accounts() && Owns(m) && m.done && m.content == old(m.content) && m.size == old(m.size)
      ensures old(m.reserved) <= old(reservedBytes) && ledger == Release(old(ledger), m.token)
      ensures reservedBytes == old(reservedBytes) - old(m.reserved)
      ensures ledger.history == old(ledger).history && ledger.failed == old(ledger).failed
    {
      StageBound(maxDailyBytes, initial, events, ledger, m.token);
      if m.done { return; }
      ReachedDiscard(maxDailyBytes, initial, events, ledger, m.token);
      ledger, events := Release(ledger, m.token), events + [Event.Discard(m.token)];
      reservedBytes := reservedBytes - m.reserved;
      m.reserved, m.done := 0, true;
      OthersStillOwned(m);
    }

    /** Stage, after the copy: what was copied is the message. */
    method FinishStage(m: StagedMessage)
      requires Accounts() && Owns(m) && !m.done
      modifies m`size
      ensures Accounts() && Owns(m) && m.size == |m.content|
    {
      StageBound(maxDailyBytes, initial, events, ledger, m.token);
      m.size := |m.content|;
      OthersStillOwned(m);
    }

    /** The receipt half of Publish: charge the day of the second clock reading durably, then give the reservation
        back. `commit` is how the commit that follows is going to end. */
    method ChargeReceipt(m: StagedMessage, ghost day1: int, day2: int, write: WriteOutcome, ghost commit: CommitOutcome)
      returns (ok: bool)
      requires Accounts() && Owns(m) && Admits(ledger, m.token, day1)
      modifies `receipt, `receiptFile, `reservedBytes, `ledger, `events, m
      ensures Accounts() && Owns(m) && m.content == old(m.content) && m.size == old(m.size)
      ensures old(m.reserved) <= old(reservedBytes)
      ensures ledger == PublishStage(old(ledger), m.token, day1, day2, false, write, commit)
      ensures ok <==> write.Written?
      ensures ledger.failed == (!ok || commit.Uncertain?)
      ensures reservedBytes - m.reserved == old(reservedBytes) - old(m.reserved) && (ok ==> m.reserved == 0)
    {
      StageBound(maxDailyBytes, initial, events, ledger, m.token);
      var (day, used) := Usage(receipt, day2);
      var next := Receipt(day, Add64(used, m.reserved));
      ReachedPublish(maxDailyBytes, initial, events, ledger, m.token, day1, day2, false, write, commit);
      ledger, events := PublishStage(ledger, m.token, day1, day2, false, write, commit),
                        events + [Event.Publish(m.token, day1, day2, false, write, commit)];
      if !write.WriteLost? { receiptFile := Some(next); }
      ok := write.Written?;
      if ok {
        receipt, reservedBytes := Some(next), reservedBytes - m.reserved;
        m.reserved, m.done := 0, true;
      }
      OthersStillOwned(m);
    }

    /** Every receipt Publish ever wrote is within the limit, receipt days never fall, and a day's durable charge covers
        max(4096, size) of every message that arrived under it, restarts and uncertain commits included, while no
        Publish saw the clock fall between its two readings. */
    lemma {:induction false} WithinBudget(day: int)
      requires Ready() && Steady(events)
      ensures forall i, j :: 0 <= i <= j < |ledger.history| ==>
                ledger.history[i].day <= ledger.history[j].day && ledger.history[j].total <= maxDailyBytes
      ensures |Arrivals(commits, lives)| == |Landings(ledger.history)|
      ensures InitialCharge(initial, day) + Due(Arrivals(commits, lives), Landings(ledger.history), day)
              <= Durable(initial, ledger.history, day)
      ensures InitialCharge(initial, day) <= maxDailyBytes ==> Durable(initial, ledger.history, day) <= maxDailyBytes
      ensures receiptFile.Some? ==> receiptFile.value.charged == Durable(initial, ledger.history, receiptFile.value.day)
    {
      assert RunsTo(maxDailyBytes, initial, events, Some(ledger));
      BudgetHolds(maxDailyBytes, initial, events, day);
      if receiptFile.Some? { BudgetHolds(maxDailyBytes, initial, events, receiptFile.value.day); }
      assert PaidBy(commits, lives, ledger.history);
      DueIsDelivered(Arrivals(commits, lives), ledger.history, day);
    }

    /** Nobody's mail is free: whatever message is or ever was visible, except those of the first commit, has a landed
        charge of its own, of max(4096, size). */
    lemma {:induction false} NoMailWithoutCharge(j: nat, m: Message)
      requires Ready() && j < |commits| && m in lives[j] && m !in lives[0]
      ensures var first := commits[0].state.lastID;
              first < m.id <= first + |Landings(ledger.history)|
              && Landings(ledger.history)[m.id - first - 1].amount == ChargeFor(m.size)
    {
      VisibleMailIsPaid(commits, lives, ledger.history, j, m);
    }

    /** Publish. The message becomes visible under the next ID only after its charge is durable, and only when the
        commit reached HEAD. `readable` says whether its temporary file could be read back. */
    method Publish(m: StagedMessage, day1: int, day2: int, readable: bool, write: WriteOutcome, commit: CommitOutcome)
      returns (r: Result<uint64, StoreError>)
      requires Ready()
      requires m.store == this ==> Owns(m) && m.size == |m.content|
      modifies `commits, `state, `index, `headID, `failure, `lives
      modifies `receipt, `receiptFile, `reservedBytes, `ledger, `events, m
      ensures Ready() && m.size == old(m.size) && m.content == old(m.content)
      ensures old(failure) ==> failure && commits == old(commits)
      ensures headID != old(headID) ==> |commits| > |old(commits)|
      ensures m.store != this ==> r == Err(StageGone) && unchanged(this) && unchanged(m)
      ensures m.store == this ==>
        var refused := !readable || !HasRoom(old(state), |old(m.content)|);
        && old(m.reserved) <= old(reservedBytes)
        && ledger == PublishStage(old(ledger), m.token, day1, day2, refused, write, commit)
        && Published(old(commits), old(lives), commits, lives, old(m.content),
                     Admits(old(ledger), m.token, day1) && !refused && write.Written? && Landed(commit))
        && (r.Ok? <==> Admits(old(ledger), m.token, day1) && !refused && write.Written? && commit.Confirmed?)
        && Pays(old(ledger).history, ledger.history, |old(m.content)|, |commits| > |old(commits)|)
        && (r.Ok? ==> r.value == old(state.lastID) + 1 == state.lastID)
      ensures m.store == this && !old(failure) && Steady(old(events)) && !old(m.done) ==>
        && (r.Ok? <==> old(Publishable(|m.content|, day1, readable)) && write.Written? && commit.Confirmed?)
        && (r == Err(DailyLimit) <==> !old(HasBudget(0, day1)))
      ensures m.store == this ==>
        Owns(m) && reservedBytes - m.reserved == old(reservedBytes) - old(m.reserved) && (r.Ok? ==> m.reserved == 0)
    {
      if m.store != this { return Err(StageGone); }
      StageBound(maxDailyBytes, initial, events, ledger, m.token);
      var prepared := AdmitPublish(m, day1, readable);
      if prepared.Err? { return Err(prepared.error); }
      r := PublishPrepared(m, prepared.value, day1, day2, write, commit);
      PublicationPays(old(commits), old(lives), commits, lives, old(ledger).history, ledger.history, m.content,
                      write.Written? && Landed(commit));
    }

    /** The publication gets as far as its receipt. */
    ghost predicate Publishable(octets: nat, day1: int, readable: bool)
      reads `commits, `state, `index, `headID, `failure, `lives, `reservedBytes, `ledger
      requires Valid()
    {
      HasBudget(0, day1) && state.lastID < MAX64 && Octets(Live()) + octets <= MAX64 && readable
    }

    /** Publish, up to the receipt: the refusals that change nothing, each for its own cause. */
    method AdmitPublish(m: StagedMessage, day1: int, readable: bool) returns (r: Result<Prepared, StoreError>)
      requires Valid() && Accounts() && ledger.failed == failure && Owns(m) && m.size == |m.content|
      ensures r.Ok? <==> Admits(ledger, m.token, day1) && readable && HasRoom(state, |m.content|)
      ensures r.Ok? ==> ReadyToAppend(r.value, state, Live(), |m.content|)
      ensures Steady(events) && !failure && !m.done ==>
        (r.Ok? <==> Publishable(|m.content|, day1, readable)) && (r == Err(DailyLimit) <==> !HasBudget(0, day1))
    {
      if failure { return Err(Failed); }
      if m.done { return Err(StageGone); }
      if Steady(events) { RoomIsAdmission(0, day1); }
      HeadIsCoherent();
      if !CanReserveLocked(0, day1) { return Err(DailyLimit); }
      r := PrepareAppend(m.size);
      if r.Ok? && !readable { return Err(Unreadable); }
    }

    /** Publish, from the receipt on. */
    method PublishPrepared(m: StagedMessage, p: Prepared, ghost day1: int, day2: int, write: WriteOutcome,
                           commit: CommitOutcome)
      returns (r: Result<uint64, StoreError>)
      requires Valid() && Accounts() && !ledger.failed && !failure
      requires Owns(m) && Admits(ledger, m.token, day1) && ReadyToAppend(p, state, Live(), |m.content|)
      modifies `commits, `state, `index, `headID, `failure, `lives
      modifies `receipt, `receiptFile, `reservedBytes, `ledger, `events, m
      ensures Valid() && Accounts() && ledger.failed == failure && Owns(m)
      ensures m.size == old(m.size) && m.content == old(m.content)
      ensures headID != old(headID) ==> |commits| > |old(commits)|
      ensures reservedBytes - m.reserved == old(reservedBytes) - old(m.reserved) && (write.Written? ==> m.reserved == 0)
      ensures old(m.reserved) <= old(reservedBytes)
      ensures ledger == PublishStage(old(ledger), m.token, day1, day2, false, write, commit)
      ensures Published(old(commits), old(lives), commits, lives, old(m.content), write.Written? && Landed(commit))
      ensures r.Ok? <==> write.Written? && commit.Confirmed?
      ensures r.Err? ==> r.error == ReceiptWriteFailed || r.error == CommitRefused
      ensures r.Ok? ==> r.value == old(state.lastID) + 1 == state.lastID
    {
      var charged := ChargeReceipt(m, day1, day2, write, commit);
      if !charged {
        Fail();
        return Err(ReceiptWriteFailed);
      }
      var committed := CommitAppend(p, m.content, commit);
      r := if committed then Ok(p.message.id) else Err(CommitRefused);
    }
  }

  /** A received message that is not yet visible. Its reservation grows while its quotaReader lets octets through. */
  class StagedMessage {
    const store: Store
    ghost const token: nat
    var content: Bytes
    var size: uint64
    var reserved: uint64
    var consumed: nat
    var done: bool

    constructor (store: Store, ghost token: nat)
      ensures this.store == store && this.token == token
      ensures content == [] && size == 0 && reserved == MINIMUM_CHARGE && consumed == 0 && !done
    {
      this.store, this.token := store, token;
      content, size, reserved, consumed, done := [], 0, MINIMUM_CHARGE, 0, false;
    }
  }
}
