/** internal/pop3/server.go: serveConn as a session object. The maildrop is a snapshot taken at login with an overlay
    of marked message numbers; only QUIT touches the archive. */
module Pop3Session {
  import opened Prelude
  import opened Text
  import opened IdPath
  import opened LiveMail
  import opened Tree
  import opened Commits
  import opened Mailbox
  import opened Budget
  import opened Updates
  import opened Archive
  import opened Overlay
  import opened Pop3Commands
  import opened Pop3Stream
  import opened Pop3Replies

  /** A command, the verdict on its password and what was answered. */
  datatype Exchange = Exchange(command: Command, accepted: bool, reply: Reply)

  /** What was said in a session before the login and since. */
  datatype Log = Log(early: seq<Exchange>, since: seq<Exchange>)
  {
    function All(): seq<Exchange> { early + since }

    function Grown(exchange: Exchange, loggedIn: bool): Log {
      if loggedIn then Log(early, since + [exchange]) else Log(early + [exchange], since)
    }
  }

  /** One command of a session: what other sessions do before it, the command, the verdict on a password, and how
      the deletion of a QUIT goes. */
  datatype Turn = Turn(acts: seq<Act>, command: Command, accepted: bool, rounds: seq<seq<Act>>,
                       outcome: CommitOutcome)

  /** The snapshot is usable; pinned, it is a snapshot of this commit, whose live list is `live`. */
  ghost predicate SnapshotAt(snapshot: Snapshot, c: Commit, live: seq<Message>, pinned: bool) {
    WellFormed(snapshot) && (pinned ==> Pinned(snapshot, c, live) && |live| <= MAX64)
  }

  /** SnapshotAt of `commit` itself; the quantifier keeps the definition folded until a proof names it. */
  ghost predicate SnapshotOk(snapshot: Snapshot, commit: Commit, live: seq<Message>, pinned: bool) {
    (pinned ==> snapshot.messageCount == |live| <= MAX64 && snapshot.totalOctets == Octets(live))
    && forall c :: c == commit ==> SnapshotAt(snapshot, c, live, pinned)
  }

  ghost predicate MarkAt(deleted: map<uint64, uint64>, live: seq<Message>, n: uint64)
    requires n in deleted
  {
    1 <= n <= |live| && deleted[n] == live[n - 1].id > 0
  }

  /** Marked numbers map to the snapshot's own permanent IDs, and the marked octets are their size sum. */
  ghost predicate MarksOk(deleted: map<uint64, uint64>, octets: uint64, live: seq<Message>) {
    (forall n :: n in deleted ==> MarkAt(deleted, live, n)) && octets == MarkedOctets(live, deleted.Keys, |live|)
  }

  lemma {:induction false} MarksOkMarks(deleted: map<uint64, uint64>, octets: uint64, live: seq<Message>)
    requires MarksOk(deleted, octets, live)
    ensures Marks(deleted.Keys, live)
  {
    forall n | n in deleted.Keys ensures 1 <= n <= |live| { assert MarkAt(deleted, live, n); }
  }

  /** The number is that of a message the client can see. */
  ghost predicate Shows(live: seq<Message>, marks: set<uint64>, n: Option<uint64>) {
    n.Some? && 1 <= n.value <= |live| && n.value !in marks
  }

  /** What a command does to the marks. */
  function NextMarks(marks: set<uint64>, command: Command, count: nat): set<uint64> {
    var n := MessageNumber(command.argument, count);
    if command.verb == "DELE" && n.Some? then marks + {n.value}
    else if command.verb == "RSET" && command.argument == "" then {}
    else marks
  }

  /** The marks after some commands. */
  function MarksAfter(marks: set<uint64>, log: seq<Exchange>, count: nat): set<uint64> {
    if log == [] then marks
    else NextMarks(MarksAfter(marks, log[..|log| - 1], count), log[|log| - 1].command, count)
  }

  // ---------------------------------------------------------------- what a client is told

  /** The reply to every command of a logged-in client: a function of the live list and the commit the session is
      pinned to, and of the marks. */
  ghost predicate Answers(live: seq<Message>, c: Commit, marks: set<uint64>, command: Command, reply: Reply) {
    var Command(verb, argument) := command;
    var n := MessageNumber(argument, |live|);
    if verb == "STAT" then reply == Line(if argument == "" then Totals(View(live, marks)) else NOT_NOW)
    else if verb == "LIST" then
      reply == if argument == "" then Listing(ROWS_FOLLOW, RowLines(View(live, marks), true))
               else Line(if Shows(live, marks, n) then OK + " " + RowLine(Numbered(live, n.value), true) else NO_SUCH)
    else if verb == "UIDL" then
      reply == if argument == "" then Listing(ROWS_FOLLOW, RowLines(View(live, marks), false))
               else Line(if Shows(live, marks, n) then OK + " " + RowLine(Numbered(live, n.value), false) else NO_SUCH)
    else if verb == "RETR" then
      if Shows(live, marks, n) then Sends(reply, c, live[n.value - 1], None) else reply == Line(NO_SUCH)
    else if verb == "TOP" then AnswersTop(live, c, marks, TopArguments(argument, |live|), reply)
    else if verb == "DELE" then reply == Line(if Shows(live, marks, n) then MARKED else NO_SUCH)
    else if verb == "RSET" then reply == Line(if argument == "" then UNMARKED else NOT_NOW)
    else if verb == "NOOP" then reply == Line(if argument == "" then OK else NOT_NOW)
    else if verb == "USER" || verb == "PASS" then reply == Line(NOT_NOW)
    else if verb == "QUIT" then
      if argument != "" then reply == Line(BAD_ARGUMENTS)
      else reply == Line(BYE) || (marks != {} && reply == Line(NOT_COMMITTED))
    else if verb == "CAPA" then reply == Capabilities(argument)
    else reply == Line(UNKNOWN)
  }

  ghost function Capabilities(argument: string): Reply {
    if argument == "" then Listing(CAPABILITIES_FOLLOW, CAPABILITIES) else Line(BAD_ARGUMENTS)
  }

  ghost predicate AnswersTop(live: seq<Message>, c: Commit, marks: set<uint64>, asked: Option<(uint64, uint64)>,
                             reply: Reply) {
    if asked.Some? && Shows(live, marks, Some(asked.value.0))
    then Sends(reply, c, live[asked.value.0 - 1], Some(asked.value.1)) else reply == Line(BAD_ARGUMENTS)
  }

  ghost function Numbered(live: seq<Message>, n: uint64): Row
    requires 1 <= n <= |live|
  {
    RowOf(n - 1, live[n - 1])
  }

  // ---------------------------------------------------------------- before the login

  /** What a session remembers before its login: the user name, and how many passwords were refused. */
  datatype Door = Door(username: string, failures: nat)

  /** A password for a named user, ... */
  predicate Tries(door: Door, exchange: Exchange) {
    exchange.command.verb == "PASS" && door.username != "" && exchange.command.argument != ""
  }

  /** ... which is right, ... */
  predicate LogsIn(door: Door, exchange: Exchange) { Tries(door, exchange) && exchange.accepted }

  /** ... or wrong. */
  predicate Misses(door: Door, exchange: Exchange) { Tries(door, exchange) && !exchange.accepted }

  /** Only a valid USER sets the name, and only a refused password clears it and counts. */
  function NextDoor(door: Door, exchange: Exchange): Door {
    var name := TrimSpace(exchange.command.argument);
    if exchange.command.verb == "USER" && name != "" then door.(username := name)
    else if Misses(door, exchange) then Door("", door.failures + 1)
    else door
  }

  /** The connection closes: after QUIT, and after the last refused password that is allowed. */
  predicate Closes(door: Door, exchange: Exchange, max: nat) {
    Leaves(exchange.command) || (Misses(door, exchange) && door.failures + 1 >= max)
  }

  /** The exact reply to every command of a client that has not logged in; of the maildrop it is told nothing. The
      reply to the right password is Welcome. */
  ghost predicate LockedOut(door: Door, exchange: Exchange) {
    var Exchange(Command(verb, argument), accepted, reply) := exchange;
    if verb == "USER" then reply == Line(if TrimSpace(argument) != "" then SEND_PASS else NOT_NOW)
    else if verb == "PASS" then
      if !Tries(door, exchange) then reply == Line(NOT_NOW)
      else if accepted then exists count: uint64 :: reply == Line(Welcome(count))
      else reply == Line(WRONG_PASSWORD)
    else if verb == "STAT" || verb == "RSET" || verb == "NOOP" then reply == Line(NOT_NOW)
    else if verb == "LIST" || verb == "UIDL" || verb == "RETR" || verb == "TOP" || verb == "DELE" then
      reply == Line(LOG_IN)
    else if verb == "CAPA" then reply == Capabilities(argument)
    else if verb == "QUIT" then reply == Line(if argument == "" then BYE else BAD_ARGUMENTS)
    else reply == Line(UNKNOWN)
  }

  function DoorAfter(door: Door, log: seq<Exchange>): Door {
    if log == [] then door else NextDoor(DoorAfter(door, log[..|log| - 1]), log[|log| - 1])
  }

  /** The last of these exchanges was the login. */
  predicate Opened(door: Door, log: seq<Exchange>) {
    log != [] && LogsIn(DoorAfter(door, log[..|log| - 1]), log[|log| - 1])
  }

  /** The last of these exchanges closed the connection. */
  predicate ShutOut(door: Door, log: seq<Exchange>, max: nat) {
    log != [] && Closes(DoorAfter(door, log[..|log| - 1]), log[|log| - 1], max)
  }

  /** Every reply before the login is the one that the name and the refused passwords of that moment call for. */
  ghost predicate Outside(door: Door, log: seq<Exchange>) {
    log == [] || (
      var front, last := log[..|log| - 1], log[|log| - 1];
      Outside(door, front) && !Opened(door, front) && LockedOut(DoorAfter(door, front), last))
  }

  lemma {:induction false} OutsideNext(door: Door, log: seq<Exchange>, last: Exchange, max: nat)
    ensures DoorAfter(door, log + [last]) == NextDoor(DoorAfter(door, log), last)
    ensures Outside(door, log + [last]) <==>
              Outside(door, log) && !Opened(door, log) && LockedOut(DoorAfter(door, log), last)
    ensures Opened(door, log + [last]) <==> LogsIn(DoorAfter(door, log), last)
    ensures ShutOut(door, log + [last], max) <==> Closes(DoorAfter(door, log), last, max)
  {
    assert (log + [last])[..|log|] == log;
  }

  // ---------------------------------------------------------------- after the login

  /** Every reply since the login is the one that the marks of that moment call for. */
  ghost predicate Transcript(live: seq<Message>, c: Commit, marks: set<uint64>, log: seq<Exchange>) {
    log == [] || (
      var front, last := log[..|log| - 1], log[|log| - 1];
      Transcript(live, c, marks, front)
      && Answers(live, c, MarksAfter(marks, front, |live|), last.command, last.reply))
  }

  lemma {:induction false} TranscriptNext(live: seq<Message>, c: Commit, marks: set<uint64>, log: seq<Exchange>,
                                          last: Exchange)
    ensures MarksAfter(marks, log + [last], |live|) == NextMarks(MarksAfter(marks, log, |live|), last.command, |live|)
    ensures Transcript(live, c, marks, log + [last]) <==>
              && Transcript(live, c, marks, log)
              && Answers(live, c, MarksAfter(marks, log, |live|), last.command, last.reply)
  {
    assert (log + [last])[..|log|] == log;
  }

  /** The command ends the session. */
  predicate Leaves(command: Command) { command == Command("QUIT", "") }

  /** No other session acts. */
  predicate Alone(turns: seq<Turn>) { forall turn :: turn in turns ==> turn.acts == [] && turn.rounds == [] }

  /** A store's snapshot of itself is usable, and pinned to HEAD while the store is healthy. */
  lemma {:induction false} StoreSnapshot(store: Store)
    requires store.Valid()
    ensures SnapshotOk(store.SnapshotNow(), store.commits[store.headID], store.Live(), !store.failure)
  {
    store.SnapshotIsWellFormed();
    if !store.failure {
      store.HeadIsCoherent();
      PinnedIndex(store.SnapshotNow(), store.commits[store.headID], store.Live());
    }
  }

  class Session {
    const maxAuthFailures: nat
    var username: string
    var authenticated: bool
    var snapshot: Snapshot
    var commit: Commit
    var deleted: map<uint64, uint64>
    var deletedOctets: uint64
    var authFailures: nat
    var closed: bool
    ghost var live: seq<Message>
    ghost var pinned: bool // a healthy store gave out the snapshot

    constructor (maxAuthFailures: nat)
      ensures Valid() && !authenticated && !closed && fresh(this)
    {
      this.maxAuthFailures := maxAuthFailures;
      username, authenticated, authFailures, closed := "", false, 0, false;
      snapshot, commit, deleted, deletedOctets := Snapshot(0, 0, 0, None, 0), EMPTY, map[], 0;
      live, pinned := [], false;
    }

    ghost predicate Valid()
      reads this
    {
      && SnapshotOk(snapshot, commit, live, pinned)
      && (!authenticated ==> deleted == map[] && deletedOctets == 0 && !pinned)
      && (pinned ==> MarksOk(deleted, deletedOctets, live))
    }

    /** What the client sees. */
    ghost function View(): seq<Row>
      reads this
    {
      Overlay.View(live, deleted.Keys)
    }

    /** Go's deleted[n] != 0. */
    predicate IsMarked(n: nat)
      reads `deleted
    {
      n in deleted && deleted[n] != 0
    }

    lemma {:induction false} MarkedIsKey(n: uint64)
      requires Valid() && pinned
      ensures IsMarked(n) <==> n in deleted
    {
      assert n in deleted ==> MarkAt(deleted, live, n);
    }

    lemma {:induction false} Usable()
      requires Valid()
      ensures WellFormed(snapshot) && (pinned ==> Pinned(snapshot, commit, live))
    {
      assert SnapshotAt(snapshot, commit, live, pinned);
    }

    lemma {:induction false} PositiveId(n: uint64)
      requires Valid() && pinned && 1 <= n <= |live|
      ensures live[n - 1].id > 0
    {
      Usable();
      assert live[n - 1] in live;
    }

    method User(argument: string) returns (reply: Reply)
      requires Valid()
      modifies `username
      ensures Valid()
      ensures reply == Line(SEND_PASS) <==> !authenticated && TrimSpace(argument) != ""
      ensures if reply == Line(SEND_PASS) then username == TrimSpace(argument)
              else reply == Line(NOT_NOW) && username == old(username)
    {
      if authenticated || TrimSpace(argument) == "" { return Line(NOT_NOW); }
      username := TrimSpace(argument);
      reply := Line(SEND_PASS);
    }

    /** PASS. `accepted` is the verdict on the credentials. */
    method Pass(argument: string, accepted: bool, store: Store) returns (reply: Reply)
      requires Valid() && store.Valid() && OpenedOn(store)
      modifies this
      ensures Valid() && OpenedOn(store) && deleted == old(deleted) && deletedOctets == old(deletedOctets)
      ensures if old(authenticated) || old(username) == "" || argument == ""
              then unchanged(this) && reply == Line(NOT_NOW)
              else if accepted
              then authenticated && LoggedIn(store) && closed == old(closed) && username == old(username)
                   && authFailures == old(authFailures) && reply == Line(Welcome(snapshot.messageCount))
              else !authenticated && username == "" && authFailures == old(authFailures) + 1
                   && reply == Line(WRONG_PASSWORD) && (closed <==> old(closed) || authFailures >= maxAuthFailures)
    {
      if authenticated || username == "" || argument == "" { return Line(NOT_NOW); }
      if !accepted {
        authFailures, username := authFailures + 1, "";
        if authFailures >= maxAuthFailures { closed := true; }
        return Line(WRONG_PASSWORD);
      }
      authenticated := true;
      snapshot := store.TakeSnapshot();
      Adopt(store);
      reply := Line(Welcome(snapshot.messageCount));
    }

    /** The commit behind a snapshot just taken. */
    method Adopt(store: Store)
      requires store.Valid() && snapshot == store.SnapshotNow()
      requires deleted == map[] && deletedOctets == 0
      modifies `commit, `live, `pinned
      ensures SnapshotOk(snapshot, commit, live, pinned)
      ensures (pinned <==> !store.failure) && (pinned ==> live == store.Live())
      ensures MarksOk(deleted, deletedOctets, live) && OpenedOn(store)
    {
      StoreSnapshot(store);
      NothingMarked(store.Live(), |store.Live()|);
      commit, live, pinned := store.commits[snapshot.commit], store.Live(), !store.failure;
      assert deleted.Keys == {};
    }

    method Stat(argument: string) returns (reply: Reply)
      requires Valid()
      ensures !authenticated || argument != "" ==> reply == Line(NOT_NOW)
      ensures pinned && argument == "" ==> reply == Line(Totals(View()))
      ensures pinned && argument == "" ==> ReadsTotals(reply.text, |View()|, RowOctets(View()))
    {
      if !authenticated || argument != "" { return Line(NOT_NOW); }
      if pinned {
        MarksOkMarks(deleted, deletedOctets, live);
        StatIsListing(live, deleted.Keys);
        TotalsRead(View());
      }
      var count: nat := Sub64(snapshot.messageCount, |deleted|);
      var octets: uint64 := Sub64(snapshot.totalOctets, deletedOctets);
      assert |deleted| == |deleted.Keys|;
      reply := Line(OK + " " + Pair(count, FormatUint(octets, 10)));
    }

    /** The number a command names, if the client can see that message. */
    method Named(argument: string) returns (n: Option<uint64>)
      requires Valid()
      ensures n == (if n.Some? then MessageNumber(argument, snapshot.messageCount) else None)
      ensures n.Some? ==> n.value !in deleted || deleted[n.value] == 0
      ensures pinned ==> (n.Some? <==> Shows(live, deleted.Keys, MessageNumber(argument, |live|)))
      ensures pinned && n.Some? ==> 1 <= n.value <= |live| && n.value !in deleted
    {
      n := MessageNumber(argument, snapshot.messageCount);
      if n.None? { return None; }
      if pinned { MarkedIsKey(n.value); }
      if IsMarked(n.value) { return None; }
    }

    /** Lookup against the session's snapshot. */
    method Find(n: uint64) returns (r: Result<Message, ReadError>)
      requires Valid()
      ensures pinned && 1 <= n <= |live| ==> r == Ok(live[n - 1])
    {
      Usable();
      r := Lookup(commit, snapshot, n, live);
    }

    /** LIST n, UIDL n: a message is inspected exactly when the client can see it. */
    method Inspect(argument: string, sizes: bool) returns (reply: Reply)
      requires Valid()
      ensures pinned ==>
        var n := MessageNumber(argument, |live|);
        reply == Line(if Shows(live, deleted.Keys, n) then
                        OK + " " + RowLine(Numbered(live, n.value), sizes)
                      else NO_SUCH)
        && (Shows(live, deleted.Keys, n) ==> ReadsOne(reply.text, Numbered(live, n.value), sizes))
    {
      var n := Named(argument);
      if n.None? { return Line(NO_SUCH); }
      var message := Find(n.value);
      if message.Err? { return Line(NO_INSPECT); }
      var row := Row(n.value, message.value.id, message.value.size);
      RowReads(row, sizes);
      reply := Line(OK + " " + RowLine(row, sizes));
    }

    /** The listing callback: visited rows without the marked ones. */
    method Unmarked(rows: seq<Row>) returns (shown: seq<Row>)
      requires Valid()
      ensures pinned && ListsEverything(rows, live) ==> shown == View()
    {
      shown := [];
      var i := 0;
      while i < |rows|
        invariant 0 <= i <= |rows|
        invariant pinned && ListsEverything(rows, live) ==> shown == Visible(live, deleted.Keys, i)
      {
        if pinned && ListsEverything(rows, live) {
          assert rows[i] == RowOf(i, live[i]);
          MarkedIsKey(i + 1);
        }
        if !IsMarked(rows[i].number) { shown := shown + [rows[i]]; }
        i := i + 1;
      }
    }

    /** LIST and UIDL without a number list exactly the view, in order. */
    method ListAll(sizes: bool) returns (reply: Reply)
      requires Valid()
      modifies `closed
      ensures Valid()
      ensures pinned ==> closed == old(closed)
      ensures pinned ==> reply == Listing(ROWS_FOLLOW, RowLines(View(), sizes))
      ensures pinned ==> ReadsRows(reply.lines, View(), sizes)
    {
      Usable();
      if pinned { ViewReads(sizes); }
      var rows, error := ListAt(commit, snapshot, live);
      var shown := Unmarked(rows);
      if error.Some? { closed := true; }
      reply := Listing(ROWS_FOLLOW, RowLines(shown, sizes));
    }

    lemma {:induction false} ViewReads(sizes: bool)
      requires Valid() && pinned
      ensures ReadsRows(RowLines(View(), sizes), View(), sizes)
    {
      forall i | 0 <= i < |View()| ensures View()[i].number <= MAX64 {
        assert View()[i] in View();
        ViewMember(live, deleted.Keys, |live|, View()[i]);
      }
      RowsRead(View(), sizes);
    }

    /** RETR and TOP stream the octets the snapshot's commit stores for the message. */
    method Retrieve(n: uint64, limit: Option<nat>) returns (reply: Reply)
      requires Valid()
      ensures pinned && 1 <= n <= |live| ==> Sends(reply, commit, live[n - 1], limit)
    {
      var message := Find(n);
      if message.Err? { return Line(if limit.None? then NO_INSPECT else NO_OPEN); }
      if pinned && 1 <= n <= |live| {
        Usable();
        assert live[n - 1] in live;
      }
      var content := OpenMessage(commit, snapshot, message.value, live);
      if content.Err? { return Line(NO_OPEN); }
      var out := StreamMessage(content.value, Octets8(Greeting(message.value, limit)), limit);
      reply := Block(out);
    }

    /** DELE marks exactly a message the client can see. */
    method Dele(argument: string) returns (reply: Reply)
      requires Valid()
      modifies `deleted, `deletedOctets
      ensures !authenticated ==> reply == Line(LOG_IN)
      ensures Valid()
      ensures pinned ==> deleted.Keys == NextMarks(old(deleted.Keys), Command("DELE", argument), |live|)
      ensures pinned ==>
        reply == Line(if Shows(live, old(deleted.Keys), MessageNumber(argument, |live|)) then MARKED else NO_SUCH)
    {
      if !authenticated { return Line(LOG_IN); }
      var n := Named(argument);
      if n.None? {
        if pinned { MarksOkMarks(deleted, deletedOctets, live); }
        return Line(NO_SUCH);
      }
      var message := Find(n.value);
      if message.Err? { return Line(NO_INSPECT); }
      Mark(n.value, message.value);
      reply := Line(MARKED);
    }

    method Mark(n: uint64, message: Message)
      requires Valid() && authenticated
      requires pinned ==> 1 <= n <= |live| && n !in deleted && message == live[n - 1]
      modifies `deleted, `deletedOctets
      ensures Valid() && deleted == old(deleted)[n := message.id]
    {
      if pinned {
        MarksOkMarks(deleted, deletedOctets, live);
        PositiveId(n);
        MarkMore(deleted, deletedOctets, live, n);
      }
      deleted := deleted[n := message.id];
      deletedOctets := Add64(deletedOctets, message.size);
    }

    method Rset(argument: string) returns (reply: Reply)
      requires Valid()
      modifies `deleted, `deletedOctets
      ensures Valid()
      ensures if !authenticated || argument != "" then reply == Line(NOT_NOW) && deleted == old(deleted)
              else reply == Line(UNMARKED) && deleted == map[] && deletedOctets == 0
    {
      if !authenticated || argument != "" { return Line(NOT_NOW); }
      NothingMarked(live, |live|);
      deleted, deletedOctets := map[], 0;
      assert deleted.Keys == {};
      reply := Line(UNMARKED);
    }

    method Retr(argument: string) returns (reply: Reply)
      requires Valid()
      ensures !authenticated ==> reply == Line(LOG_IN)
      ensures pinned ==>
        var n := MessageNumber(argument, |live|);
        if Shows(live, deleted.Keys, n) then Sends(reply, commit, live[n.value - 1], None) else reply == Line(NO_SUCH)
    {
      if !authenticated { return Line(LOG_IN); }
      var n := Named(argument);
      if n.None? { return Line(NO_SUCH); }
      reply := Retrieve(n.value, None);
    }

    method Top(argument: string) returns (reply: Reply)
      requires Valid()
      ensures !authenticated ==> reply == Line(LOG_IN)
      ensures pinned ==>
        var asked := TopArguments(argument, |live|);
        if asked.Some? && asked.value.0 !in deleted
        then Sends(reply, commit, live[asked.value.0 - 1], Some(asked.value.1)) else reply == Line(BAD_ARGUMENTS)
    {
      if !authenticated { return Line(LOG_IN); }
      reply := TopOf(TopArguments(argument, snapshot.messageCount));
    }

    method TopOf(asked: Option<(uint64, uint64)>) returns (reply: Reply)
      requires Valid() && (asked.Some? ==> 1 <= asked.value.0 <= snapshot.messageCount)
      ensures pinned ==>
        if asked.Some? && asked.value.0 !in deleted
        then 1 <= asked.value.0 <= |live| && Sends(reply, commit, live[asked.value.0 - 1], Some(asked.value.1))
        else reply == Line(BAD_ARGUMENTS)
    {
      if asked.None? { return Line(BAD_ARGUMENTS); }
      var (n, lines) := asked.value;
      if pinned { MarkedIsKey(n); }
      if IsMarked(n) { return Line(BAD_ARGUMENTS); }
      reply := Retrieve(n, Some(lines));
    }

    /** The permanent IDs of the marked messages, in some order. */
    method MarkedList() returns (ids: seq<uint64>)
      requires Valid()
      ensures IdSet(ids) == deleted.Values
    {
      ids := [];
      var todo := deleted.Keys;
      ghost var seen: set<uint64> := {};
      while todo != {}
        invariant seen + todo == deleted.Keys && seen !! todo
        invariant forall id :: id in ids <==> exists n :: n in seen && deleted[n] == id
        decreases |todo|
      {
        var n :| n in todo;
        ids := ids + [deleted[n]];
        todo, seen := todo - {n}, seen + {n};
      }
    }

    /** QUIT passes exactly the marked messages' IDs to one deletion, and nothing when none is marked. `base` counts the
        commits before that deletion. */
    method Quit(argument: string, store: Store, rounds: seq<seq<Act>>, outcome: CommitOutcome)
      returns (reply: Reply, ghost base: nat)
      requires Valid() && store.Ready() && OpenedOn(store)
      modifies `closed, store, store.staged
      ensures store.Ready() && store.Grown()
      ensures closed <==> old(closed) || argument == ""
      ensures |old(store.commits)| <= base && (rounds == [] ==> base == |old(store.commits)|)
      ensures old(store.failure) ==> store.failure
      ensures argument != "" ==> reply == Line(BAD_ARGUMENTS)
      ensures argument == "" ==>
        reply == Line(BYE) || (authenticated && deleted != map[] && reply == Line(NOT_COMMITTED))
      ensures if argument == "" && authenticated && deleted != map[] then Committed(store, base, outcome, reply)
              else store.commits == old(store.commits) && |store.commits| == base
    {
      base := |store.commits|;
      if argument != "" { return Line(BAD_ARGUMENTS), base; }
      closed := true;
      if authenticated && |deleted| > 0 {
        reply, base := CommitMarks(store, rounds, outcome);
        return;
      }
      reply := Line(BYE);
    }

    /** The deletion of QUIT. */
    method CommitMarks(store: Store, rounds: seq<seq<Act>>, outcome: CommitOutcome)
      returns (reply: Reply, ghost base: nat)
      requires Valid() && store.Ready() && OpenedOn(store)
      modifies store, store.staged
      ensures store.Ready() && store.Grown()
      ensures |old(store.commits)| <= base && (rounds == [] ==> base == |old(store.commits)|)
      ensures Committed(store, base, outcome, reply) && (reply == Line(BYE) || reply == Line(NOT_COMMITTED))
      ensures old(store.failure) ==> store.failure
    {
      var ids := MarkedList();
      if pinned && !store.failure { MarkedAreValid(store, ids); }
      var r;
      ghost var others, retries;
      r, others, retries := store.DeleteAs(ids, rounds, outcome);
      base := |old(store.commits)| + others;
      reply := Line(if r.Ok? then BYE else NOT_COMMITTED);
    }

    /** The snapshot was taken from this store. */
    ghost predicate OpenedOn(store: Store)
      reads this, store`commits, store`lives
    {
      pinned ==>
        && snapshot.commit < |store.commits| == |store.lives|
        && store.commits[snapshot.commit] == commit && store.lives[snapshot.commit] == live
    }

    /** Marked IDs stay valid: the store's last ID never falls below the snapshot's. */
    lemma {:induction false} MarkedAreValid(store: Store, ids: seq<uint64>)
      requires Valid() && pinned && store.Valid() && !store.failure && OpenedOn(store) && IdSet(ids) == deleted.Values
      ensures ValidIds(ids, store.state.lastID)
    {
      Usable();
      LastIdMonotone(store.commits, store.lives, snapshot.commit, |store.commits| - 1);
      forall id | id in ids ensures 0 < id <= store.state.lastID {
        assert id in IdSet(ids);
        var n :| n in deleted && deleted[n] == id;
        assert MarkAt(deleted, live, n) && live[n - 1] in live;
      }
    }

    /** Committing the marks removes exactly what the view does not show. */
    lemma {:induction false} ViewIsWhatRemains(row: Row)
      requires Valid() && pinned
      ensures row in View() <==> 1 <= row.number <= |live| && row == RowOf(row.number - 1, live[row.number - 1])
                                 && live[row.number - 1] in Without(live, deleted.Values)
    {
      MarksOkMarks(deleted, deletedOctets, live);
      assert deleted.Values == MarkedIds(live, deleted.Keys) by {
        forall id ensures id in deleted.Values <==> id in MarkedIds(live, deleted.Keys) {
          if id in deleted.Values {
            var n :| n in deleted && deleted[n] == id;
            assert MarkAt(deleted, live, n);
          }
          if id in MarkedIds(live, deleted.Keys) {
            var n :| n in deleted.Keys && live[n - 1].id == id;
            assert MarkAt(deleted, live, n);
          }
        }
      }
      Usable();
      ViewSurvives(live, deleted.Keys, row);
    }

    /** One command line. */
    method Serve(line: string, accepted: bool, store: Store, rounds: seq<seq<Act>>, outcome: CommitOutcome)
      returns (reply: Reply, ghost base: nat)
      requires Valid() && store.Ready() && OpenedOn(store)
      modifies this, store, store.staged
      ensures Valid() && store.Ready() && store.Grown() && OpenedOn(store)
      ensures Served(Exchange(SplitCommand(line), accepted, reply), store, outcome, base)
      ensures SplitCommand(line).verb != "QUIT" || rounds == [] ==> base == |old(store.commits)|
    {
      reply, base := ServeCommand(SplitCommand(line), accepted, store, rounds, outcome);
    }

    /** The deletion of QUIT: of exactly the marked messages, as the one commit after the first `base`. */
    ghost predicate Committed(store: Store, base: nat, outcome: CommitOutcome, reply: Reply)
      reads this, store
    {
      && Deletes(store.commits, store.lives, base, deleted.Values, outcome)
      && (pinned && !store.failure && outcome.Confirmed? ==> reply == Line(BYE))
      && (reply == Line(BYE) ==> store.lives[|store.lives| - 1] == Without(store.lives[base - 1], deleted.Values))
    }

    /** The session stands where it stood: on the mail it logged in to. */
    twostate predicate Stays()
      reads this
    {
      authenticated && pinned && live == old(live) && commit == old(commit) && snapshot == old(snapshot)
    }

    /** Serving one command, as the client sees it: the reply is what Answers says, the marks move as NextMarks says,
        and without a login there is no mail to see. */
    twostate predicate Told(exchange: Exchange)
      reads this
    {
      && (old(authenticated) ==> authenticated && pinned == old(pinned))
      && (Leaves(exchange.command) ==> closed)
      && (old(pinned) ==> Stays() && (closed <==> old(closed) || Leaves(exchange.command))
                          && Answers(live, commit, old(deleted.Keys), exchange.command, exchange.reply)
                          && deleted.Keys == NextMarks(old(deleted.Keys), exchange.command, |live|))
      && (if old(authenticated) then AtDoor() == old(AtDoor()) else Knocks(exchange))
    }

    function AtDoor(): Door
      reads `username, `authFailures
    {
      Door(username, authFailures)
    }

    /** ... before the login. */
    twostate predicate Knocks(exchange: Exchange)
      reads this
    {
      && LockedOut(old(AtDoor()), exchange) && deleted == map[]
      && AtDoor() == NextDoor(old(AtDoor()), exchange)
      && (authenticated <==> LogsIn(old(AtDoor()), exchange))
      && (closed <==> old(closed) || Closes(old(AtDoor()), exchange, maxAuthFailures))
      && (pinned ==> authenticated && |live| <= MAX64 && exchange.reply == Line(Welcome(|live|)))
    }

    /** ... and as the archive sees it: only QUIT writes, and only to delete what is marked; `base` counts the commits
        before its own. PASS logs in to the mail of HEAD. */
    twostate predicate Served(exchange: Exchange, store: Store, outcome: CommitOutcome, base: nat)
      reads this, store
    {
      && Told(exchange) && (!old(authenticated) ==> LoggedIn(store))
      && |old(store.commits)| <= base
      && (if old(authenticated) && Leaves(exchange.command) && deleted != map[]
          then Committed(store, base, outcome, exchange.reply) else |store.commits| == base)
    }

    /** PASS pins the session to the newest mail unless the store has failed. */
    ghost predicate LoggedIn(store: Store)
      reads this, store
    {
      authenticated ==>
        && (pinned <==> !store.failure) && snapshot == store.SnapshotNow()
        && (pinned ==> |store.lives| > 0 && live == store.lives[|store.lives| - 1])
    }

    method ServeCommand(command: Command, accepted: bool, store: Store, rounds: seq<seq<Act>>, outcome: CommitOutcome)
      returns (reply: Reply, ghost base: nat)
      requires Valid() && store.Ready() && OpenedOn(store)
      modifies this, store, store.staged
      ensures Valid() && store.Ready() && store.Grown() && OpenedOn(store)
      ensures Served(Exchange(command, accepted, reply), store, outcome, base)
      ensures command.verb != "QUIT" || rounds == [] ==> base == |old(store.commits)|
      ensures old(store.failure) ==> store.failure
    {
      if command.verb == "QUIT" {
        reply, base := ServeQuit(command, accepted, store, rounds, outcome);
      } else {
        reply := ServeOther(command, accepted, store);
        base := |store.commits|;
      }
    }

    method ServeQuit(command: Command, ghost accepted: bool, store: Store, rounds: seq<seq<Act>>,
                     outcome: CommitOutcome)
      returns (reply: Reply, ghost base: nat)
      requires Valid() && store.Ready() && OpenedOn(store) && command.verb == "QUIT"
      modifies `closed, store, store.staged
      ensures Valid() && store.Ready() && store.Grown() && OpenedOn(store)
      ensures Told(Exchange(command, accepted, reply)) && |old(store.commits)| <= base
      ensures (rounds == [] ==> base == |old(store.commits)|) && (old(store.failure) ==> store.failure)
      ensures !authenticated || !Leaves(command) || deleted == map[] ==> |store.commits| == base
      ensures authenticated && Leaves(command) && deleted != map[] ==> Committed(store, base, outcome, reply)
    {
      reply, base := Quit(command.argument, store, rounds, outcome);
    }

    /** Every command but QUIT. */
    method ServeOther(command: Command, accepted: bool, store: Store) returns (reply: Reply)
      requires Valid() && store.Valid() && OpenedOn(store) && command.verb != "QUIT"
      modifies this
      ensures Valid() && OpenedOn(store)
      ensures Told(Exchange(command, accepted, reply)) && (!old(authenticated) ==> LoggedIn(store))
    {
      var verb := command.verb;
      if verb == "DELE" || verb == "RSET" { reply := MoveMarks(command, accepted); }
      else if verb == "USER" || verb == "PASS" { reply := LogIn(command, accepted, store); }
      else { reply := Answer(command); }
    }

    /** The commands that move the marks. */
    method MoveMarks(command: Command, ghost accepted: bool) returns (reply: Reply)
      requires Valid() && (command.verb == "DELE" || command.verb == "RSET")
      modifies `deleted, `deletedOctets
      ensures Valid() && Told(Exchange(command, accepted, reply))
    {
      if command.verb == "DELE" { reply := Dele(command.argument); } else { reply := Rset(command.argument); }
    }

    /** The commands of the login. */
    method LogIn(command: Command, accepted: bool, store: Store) returns (reply: Reply)
      requires Valid() && store.Valid() && OpenedOn(store) && (command.verb == "USER" || command.verb == "PASS")
      modifies this
      ensures Valid() && OpenedOn(store)
      ensures Told(Exchange(command, accepted, reply)) && (!old(authenticated) ==> LoggedIn(store))
    {
      if command.verb == "USER" { reply := User(command.argument); }
      else { reply := Pass(command.argument, accepted, store); }
    }

    /** The commands that only read. */
    method Answer(command: Command) returns (reply: Reply)
      requires Valid() && command.verb !in {"DELE", "RSET", "USER", "PASS", "QUIT"}
      modifies `closed
      ensures Valid()
      ensures pinned ==> closed == old(closed) && Answers(live, commit, deleted.Keys, command, reply)
      ensures !authenticated ==> forall exchange: Exchange :: exchange.command == command && exchange.reply == reply ==>
        LockedOut(AtDoor(), exchange)
      ensures !authenticated ==> closed == old(closed)
    {
      var Command(verb, argument) := command;
      if verb in {"STAT", "LIST", "UIDL", "RETR", "TOP"} { reply := AnswerMail(command); }
      else if verb == "NOOP" { reply := Line(if !authenticated || argument != "" then NOT_NOW else OK); }
      else if verb == "CAPA" {
        reply := if argument != "" then Line(BAD_ARGUMENTS) else Listing(CAPABILITIES_FOLLOW, CAPABILITIES);
      }
      else { reply := Line(UNKNOWN); }
    }

    /** ... and read the maildrop. */
    method AnswerMail(command: Command) returns (reply: Reply)
      requires Valid() && command.verb in {"STAT", "LIST", "UIDL", "RETR", "TOP"}
      modifies `closed
      ensures Valid()
      ensures pinned ==> closed == old(closed) && Answers(live, commit, deleted.Keys, command, reply)
      ensures !authenticated ==>
        closed == old(closed) && reply == Line(if command.verb == "STAT" then NOT_NOW else LOG_IN)
    {
      var Command(verb, argument) := command;
      if verb == "STAT" { reply := Stat(argument); }
      else if verb == "RETR" { reply := Retr(argument); }
      else if verb == "TOP" { reply := Top(argument); }
      else { reply := List(argument, verb == "LIST"); }
    }

    method List(argument: string, sizes: bool) returns (reply: Reply)
      requires Valid()
      modifies `closed
      ensures Valid()
      ensures !authenticated ==> reply == Line(LOG_IN) && closed == old(closed)
      ensures pinned ==> closed == old(closed)
      ensures pinned && argument == "" ==>
        && reply == Listing(ROWS_FOLLOW, RowLines(View(), sizes))
        && ReadsRows(reply.lines, View(), sizes)
      ensures pinned && argument != "" ==>
        var n := MessageNumber(argument, |live|);
        reply == Line(if Shows(live, deleted.Keys, n) then
                        OK + " " + RowLine(Numbered(live, n.value), sizes)
                      else NO_SUCH)
        && (Shows(live, deleted.Keys, n) ==> ReadsOne(reply.text, Numbered(live, n.value), sizes))
    {
      if !authenticated { return Line(LOG_IN); }
      if argument != "" { reply := Inspect(argument, sizes); } else { reply := ListAll(sizes); }
    }

    /** What was said fits the state of the session; it logged in with these marks. */
    ghost predicate Fits(marks: set<uint64>, door: Door, log: Log)
      reads this
    {
      && (!authenticated ==> log.since == [])
      && forall told :: told == log ==> FitsState(marks, door, told) // keeps it folded
    }

    ghost predicate FitsState(marks: set<uint64>, door: Door, log: Log)
      reads this
    {
      && Outside(door, log.early) && AtDoor() == DoorAfter(door, log.early)
      && (log.early != [] ==> (authenticated <==> Opened(door, log.early)))
      && (log.early != [] && log.since == [] ==> (closed <==> ShutOut(door, log.early, maxAuthFailures)))
      && (pinned && log.since != [] ==> (closed <==> Left(log.since)))
      && (log.early != [] && pinned ==> |live| <= MAX64 && log.early[|log.early| - 1].reply == Line(Welcome(|live|)))
      && (!authenticated ==> log.since == [] && deleted.Keys == marks == {} && !pinned)
      && (pinned ==> deleted.Keys == MarksAfter(marks, log.since, |live|) && Transcript(live, commit, marks, log.since))
    }

    twostate lemma FitsNext(new marks: set<uint64>, new door: Door, new log: Log, new exchange: Exchange)
      requires old(Fits(marks, door, log)) && Told(exchange) && (!authenticated ==> !pinned) && !old(closed)
      ensures Fits(marks, door, log.Grown(exchange, old(authenticated)))
    {
      assert old(FitsState(marks, door, log));
      if old(authenticated) { SinceNext(marks, door, log, exchange); } else { EarlyNext(marks, door, log, exchange); }
    }

    twostate lemma EarlyNext(new marks: set<uint64>, new door: Door, new log: Log, new exchange: Exchange)
      requires old(FitsState(marks, door, log)) && !old(authenticated) && Knocks(exchange)
      requires !authenticated ==> !pinned
      requires !old(closed)
      ensures FitsState(marks, door, log.Grown(exchange, false))
    {
      OutsideNext(door, log.early, exchange, maxAuthFailures);
      assert !Opened(door, log.early);
    }

    twostate lemma SinceNext(new marks: set<uint64>, new door: Door, new log: Log, new exchange: Exchange)
      requires old(FitsState(marks, door, log)) && old(authenticated) && Told(exchange) && !old(closed)
      ensures FitsState(marks, door, log.Grown(exchange, true))
    {
      TranscriptNext(live, commit, marks, log.since, exchange);
    }

    /** A new session that sends USER with a name and then PASS with the right password is logged in. */
    lemma {:induction false} UserThenPassLogsIn(marks: set<uint64>, turns: seq<Turn>, replies: seq<Reply>, log: Log)
      requires Fits(marks, Door("", 0), log) && Said(turns, replies, log)
      requires (|replies| == |turns| || closed) && (log.early == [] ==> !authenticated && !closed) && |turns| >= 2
      requires turns[0].command.verb == "USER" && TrimSpace(turns[0].command.argument) != ""
      requires turns[1].command.verb == "PASS" && turns[1].command.argument != "" && turns[1].accepted
      ensures authenticated && |log.early| == 2
    {
      assert FitsState(marks, Door("", 0), log);
      SaidFirst(turns, replies, log);
      UserThenPassOpens(log.early);
    }

    /** One that gets as many passwords refused as are allowed is closed. */
    lemma {:induction false} RefusedTooOftenCloses(marks: set<uint64>, turns: seq<Turn>, replies: seq<Reply>, log: Log)
      requires Fits(marks, Door("", 0), log) && Said(turns, replies, log)
      requires (|replies| == |turns| || closed) && (log.early == [] ==> !authenticated && !closed)
      requires Guesses(turns) && |turns| >= 2 * maxAuthFailures > 0
      ensures closed && !authenticated
    {
      assert FitsState(marks, Door("", 0), log);
      SaidFirst(turns, replies, log);
      GuessesShutOut(turns, log.early, maxAuthFailures);
    }

    /** The archive as the session leaves it: with its one deletion, after a QUIT, or without. */
    ghost predicate Rests(store: Store, base: nat, log: Log, outcome: CommitOutcome)
      reads this, store
    {
      && (Left(log.since) ==> closed)
      && (if Left(log.since) && deleted != map[]
          then Committed(store, base, outcome, log.since[|log.since| - 1].reply)
          else |store.commits| == base)
    }

    /** A turn: other sessions write, then one command is served. */
    method ServeTurn(turn: Turn, store: Store, ghost marks: set<uint64>, ghost door: Door, ghost log: Log)
      returns (reply: Reply, ghost base: nat)
      requires Valid() && store.Ready() && OpenedOn(store)
      requires Fits(marks, door, log) && !closed
      modifies this, store, store.staged
      ensures Valid() && store.Ready() && store.Grown() && OpenedOn(store)
      ensures Fits(marks, door, log.Grown(Exchange(turn.command, turn.accepted, reply), old(authenticated)))
      ensures old(authenticated) ==> authenticated && pinned == old(pinned)
      ensures old(pinned) ==> Stays()
      ensures pinned && !old(pinned) ==> |old(store.commits)| <= snapshot.commit + 1
      ensures old(store.failure) ==> store.failure
      ensures authenticated && !old(authenticated) ==> pinned || store.failure
      ensures |old(store.commits)| <= base && (turn.acts == [] && turn.rounds == [] ==> base == |old(store.commits)|)
      ensures !closed ==> |store.commits| == base
      ensures forall how :: how == turn.outcome ==> // keeps Rests folded
        Rests(store, base, log.Grown(Exchange(turn.command, turn.accepted, reply), old(authenticated)), how)
    {
      store.OtherSessions(turn.acts, {});
      label mid:
      reply, base := ServeCommand(turn.command, turn.accepted, store, turn.rounds, turn.outcome);
      FitsNext@mid(marks, door, log, Exchange(turn.command, turn.accepted, reply));
    }

    /** A session that was logged in stays on its mail; one that has logged in since is on mail no older than the start,
        unless the store has failed. */
    twostate predicate Since(store: Store, early: seq<Exchange>)
      reads this, store
    {
      && (old(authenticated) ==> early == [] && authenticated && (old(pinned) ==> Stays()))
      && (pinned && !old(pinned) ==> |old(store.commits)| <= snapshot.commit + 1)
      && (authenticated && !old(authenticated) ==> pinned || store.failure)
    }

    /** A whole session, while other sessions write between its commands. After the login every reply and every mark is
        read off the mail of that moment; nothing is written until a QUIT, which deletes what is marked then. `base`
        counts the commits that are not the session's own. */
    method ServeAll(turns: seq<Turn>, store: Store)
      returns (replies: seq<Reply>, ghost log: Log, ghost base: nat)
      requires Valid() && store.Ready() && OpenedOn(store)
      modifies this, store, store.staged
      ensures Valid() && store.Ready() && store.Grown() && OpenedOn(store)
      ensures Said(turns, replies, log) && (|replies| == |turns| || closed)
      ensures Fits(old(deleted.Keys), old(AtDoor()), log)
      ensures Since(store, log.early)
      ensures |old(store.commits)| <= base && (Alone(turns) ==> base == |old(store.commits)|)
      ensures Rests(store, base, log, LastOutcome(turns, |replies|))
    {
      replies, log, base := [], Log([], []), |store.commits|;
      ghost var marks, door := deleted.Keys, AtDoor();
      while |replies| < |turns| && !closed
        invariant Valid() && store.Ready() && store.Grown() && OpenedOn(store)
        invariant Said(turns, replies, log)
        invariant Fits(marks, door, log)
        invariant Since(store, log.early)
        invariant |old(store.commits)| <= base && (Alone(turns) ==> base == |old(store.commits)|)
        invariant !closed ==> |store.commits| == base
        invariant forall how :: how == LastOutcome(turns, |replies|) ==> Rests(store, base, log, how)
        decreases |turns| - |replies|
      {
        var turn := turns[|replies|];
        ghost var loggedIn := authenticated;
        var reply;
        reply, base := ServeTurn(turn, store, marks, door, log);
        SaidNext(turns, replies, log, reply, loggedIn);
        replies, log := replies + [reply], log.Grown(Exchange(turn.command, turn.accepted, reply), loggedIn);
        assert LastOutcome(turns, |replies|) == turn.outcome;
      }
    }
  }

  /** The log pairs the commands served with the replies. */
  ghost predicate Said(turns: seq<Turn>, replies: seq<Reply>, log: Log) {
    && |log.All()| == |replies| <= |turns|
    && forall k :: 0 <= k < |replies| ==> log.All()[k] == Exchange(turns[k].command, turns[k].accepted, replies[k])
  }

  lemma {:induction false} SaidNext(turns: seq<Turn>, replies: seq<Reply>, log: Log, reply: Reply, loggedIn: bool)
    requires Said(turns, replies, log) && |replies| < |turns| && (loggedIn || log.since == [])
    ensures var exchange := Exchange(turns[|replies|].command, turns[|replies|].accepted, reply);
            Said(turns, replies + [reply], log.Grown(exchange, loggedIn))
  {
    var exchange := Exchange(turns[|replies|].command, turns[|replies|].accepted, reply);
    assert log.Grown(exchange, loggedIn).All() == log.All() + [exchange];
  }

  /** How the deletion of the last command served goes. */
  function LastOutcome(turns: seq<Turn>, served: nat): CommitOutcome
    requires served <= |turns|
  {
    if served == 0 then Refused else turns[served - 1].outcome
  }

  /** USER and a refused PASS, over and over. */
  predicate Guesses(turns: seq<Turn>) {
    |turns| % 2 == 0 && forall i :: 0 <= i < |turns| ==> Guess(turns[i], i)
  }

  predicate Guess(turn: Turn, i: nat) {
    if i % 2 == 0 then turn.command.verb == "USER" && TrimSpace(turn.command.argument) != ""
    else turn.command.verb == "PASS" && turn.command.argument != "" && !turn.accepted
  }

  /** The first exchanges of a log are those of the first turns. */
  lemma {:induction false} SaidFirst(turns: seq<Turn>, replies: seq<Reply>, log: Log)
    requires Said(turns, replies, log)
    ensures forall k :: 0 <= k < |log.early| ==>
              log.early[k].command == turns[k].command && log.early[k].accepted == turns[k].accepted
    ensures |log.early| <= |replies| && (log.since == [] ==> |log.early| == |replies|)
  {
    forall k | 0 <= k < |log.early|
      ensures log.early[k].command == turns[k].command && log.early[k].accepted == turns[k].accepted
    {
      assert log.All()[k] == log.early[k];
    }
  }

  /** What holds of all exchanges before the login holds of the first of them; none but the last is the login. */
  lemma {:induction false} OutsideFront(door: Door, log: seq<Exchange>, n: nat)
    requires Outside(door, log) && n <= |log|
    ensures Outside(door, log[..n]) && (n < |log| ==> !Opened(door, log[..n]))
  {
    if n < |log| {
      var front := log[..|log| - 1];
      assert log[..n] == front[..n];
      OutsideFront(door, front, n);
      if n == |log| - 1 { assert log[..n] == front; }
    } else {
      assert log[..n] == log;
    }
  }

  lemma {:induction false} UserThenPassOpens(early: seq<Exchange>)
    requires Outside(Door("", 0), early)
    requires |early| > 0 ==> early[0].command.verb == "USER" && TrimSpace(early[0].command.argument) != ""
    requires |early| > 1 ==> early[1].command.verb == "PASS" && early[1].command.argument != "" && early[1].accepted
    ensures |early| <= 2 && (Opened(Door("", 0), early) <==> |early| == 2)
    ensures |early| == 1 ==> forall max :: !ShutOut(Door("", 0), early, max)
  {
    if |early| >= 2 {
      OutsideFront(Door("", 0), early, 2);
      assert early[..2][..1] == [early[0]] && [early[0]][..0] == [];
      assert early[..2][1] == early[1];
      if |early| == 2 { assert early[..2] == early; }
    } else if |early| == 1 {
      assert early[..0] == [];
    }
  }

  /** After n guesses, a name and then a wrong password in turn. */
  lemma {:induction false} GuessedDoor(turns: seq<Turn>, early: seq<Exchange>, n: nat)
    requires Guesses(turns) && n <= |early| <= |turns|
    requires forall k :: 0 <= k < |early| ==>
               early[k].command == turns[k].command && early[k].accepted == turns[k].accepted
    ensures var door := DoorAfter(Door("", 0), early[..n]);
            door.failures == n / 2 && (door.username == "" <==> n % 2 == 0)
  {
    if n > 0 {
      GuessedDoor(turns, early, n - 1);
      assert early[..n][..n - 1] == early[..n - 1];
      assert Guess(turns[n - 1], n - 1);
    }
  }

  lemma {:induction false} GuessesShutOut(turns: seq<Turn>, early: seq<Exchange>, max: nat)
    requires Guesses(turns) && |early| <= |turns| && |turns| >= 2 * max > 0
    requires forall k :: 0 <= k < |early| ==>
               early[k].command == turns[k].command && early[k].accepted == turns[k].accepted
    ensures !Opened(Door("", 0), early)
    ensures |early| == |turns| ==> ShutOut(Door("", 0), early, max)
  {
    var n := |early|;
    if n > 0 {
      assert Guess(turns[n - 1], n - 1);
      GuessedDoor(turns, early, n - 1);
    }
  }

  predicate Left(log: seq<Exchange>) { log != [] && Leaves(log[|log| - 1].command) }

  /** The reply is the message's stored octets, or their top, behind a status line. */
  ghost predicate Sends(reply: Reply, c: Commit, message: Message, limit: Option<nat>) {
    forall top :: top == limit ==> SendsTop(reply, c, message, top) // keeps it folded
  }

  ghost predicate SendsTop(reply: Reply, c: Commit, message: Message, limit: Option<nat>) {
    && message.path in c.tree && |c.tree[message.path]| == message.size
    && reply == Block(Octets8(Greeting(message, limit)) + CRLF + Transparent(Shown(c.tree[message.path], limit)))
  }

  /** Marking a message that was not marked keeps the marks right, and no octet sum overflows. */
  lemma {:induction false} MarkMore(deleted: map<uint64, uint64>, octets: uint64, live: seq<Message>, n: uint64)
    requires MarksOk(deleted, octets, live) && 1 <= n <= |live|
    requires n !in deleted && Octets(live) <= MAX64 && live[n - 1].id > 0
    ensures octets + live[n - 1].size <= MAX64
    ensures MarksOk(deleted[n := live[n - 1].id], octets + live[n - 1].size, live)
  {
    var more := deleted[n := live[n - 1].id];
    assert more.Keys == deleted.Keys + {n};
    MarkOne(live, deleted.Keys, n, |live|);
    forall k | k in more ensures MarkAt(more, live, k) { assert k != n ==> MarkAt(deleted, live, k); }
    MarkedWithin(live, more.Keys);
  }

  /** uint64 subtraction as the machine does it. */
  function Sub64(a: nat, b: nat): (d: uint64)
    ensures b <= a <= MAX64 ==> d == a - b
  {
    (a - b) % 0x1_0000_0000_0000_0000
  }
}
