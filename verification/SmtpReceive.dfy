/** internal/smtp/server.go: the DATA command, from the admission check to the answer: stage, policy, publish, and a
    discard on every other way out. Other sessions act between any two of its critical sections. */
module SmtpReceive {
  import opened Prelude
  import opened Commits
  import opened IdPath
  import opened LiveMail
  import opened Budget
  import opened Updates
  import opened Archive
  import opened SmtpData

  datatype Decision = Accept | RejectPolicy | RejectTemporarily

  /** How the parts of one DATA command that the model does not compute turn out: at its k-th critical section the
      clock shows day(k), and other sessions have acted as others(k) says since the one before; then the policy's
      decision and the fate of the publication. */
  datatype Fate = Fate(day: nat -> int, others: nat -> seq<Act>, decision: Decision, chargeDay: int, readable: bool,
                       write: WriteOutcome, commit: CommitOutcome)

  ghost predicate Alone(fate: Fate) { forall k: nat :: fate.others(k) == [] }

  function StageCode(error: Option<DataError>): nat {
    match error
    case None => 452
    case Some(MessageTooLarge) => 552
    case Some(LineTooLong) => 550
    case Some(UnexpectedEOF) => 451
  }

  /** What changes only when other sessions act: the receipts, what the others have reserved, the commits and the room
      that the mailbox has. `healthy` is whether nothing had failed and no clock had fallen within a Publish. */
  datatype Setting = Setting(max: nat, initial: Option<Receipt>, history: seq<Charge>, reserved: int, commits: nat,
                             lastID: nat, octets: nat, healthy: bool)

  ghost function SettingOf(store: Store, own: nat, healthy: bool): Setting
    reads store
    requires store.Valid()
  {
    Setting(store.maxDailyBytes, store.initial, store.ledger.history, store.reservedBytes - own, |store.commits|,
            store.state.lastID, Octets(store.Live()), healthy)
  }

  ghost predicate Healthy(store: Store)
    reads store
  {
    !store.failure && Steady(store.events)
  }

  ghost predicate InSetting(store: Store, own: nat, setting: Setting)
    reads store
    requires store.Valid()
  {
    SettingOf(store, own, setting.healthy) == setting && (setting.healthy ==> Healthy(store))
  }

  /** The store is sound, the message is being staged, and nothing else has changed unless others act. */
  ghost predicate Staging(store: Store, m: StagedMessage, fate: Fate, setting: Setting)
    reads store, m, store.staged
  {
    && store.Ready() && store.Owns(m) && !m.done
    && (Alone(fate) ==> InSetting(store, m.reserved, setting))
  }

  // ---------------------------------------------------------------- what it takes

  /** There is budget for a message of this many octets, beside what the others have reserved. */
  ghost predicate Fits(s: Setting, day: int, octets: nat) {
    Spent(s.initial, s.history, day) + s.reserved + (if octets < 4096 then 4096 else octets) <= s.max
  }

  /** The octets that the temporary file would hold after each read: the headers are cut at the buffer, the decoded
      message at the buffer and at its line ends. */
  ghost function Lengths(held: nat, headers: Bytes, body: Bytes, size: nat): seq<nat>
    requires size > 0
    decreases |headers| + |body|
  {
    if headers != [] then
      var n := Min(size, |headers|);
      [held + n] + Lengths(held + n, headers[n..], body, size)
    else if body != [] then
      var n := Piece(body, size);
      [held + n] + Lengths(held + n, [], body[n..], size)
    else []
  }

  /** There is budget at each of these lengths, the first of which is reached at critical section k. */
  ghost predicate AllFit(s: Setting, fate: Fate, k: nat, lengths: seq<nat>)
    decreases |lengths|
  {
    lengths == [] || (Fits(s, fate.day(k), lengths[0]) && AllFit(s, fate, k + 1, lengths[1..]))
  }

  /** Nobody else acts and nothing is wrong: what happens follows from the setting. */
  ghost predicate Plain(s: Setting, fate: Fate) { Alone(fate) && s.healthy }

  /** Section `next` is reached with these octets held: from section k on, `all` has budget exactly if what is left of
      it has. (The quantifier keeps OnWayAt folded.) */
  ghost predicate OnWay(s: Setting, fate: Fate, k: nat, all: seq<nat>, next: nat, held: nat, headers: Bytes,
                        body: Bytes, size: nat)
    requires size > 0
  {
    forall n :: n == held ==> OnWayAt(s, fate, k, all, next, n, headers, body, size)
  }

  ghost predicate OnWayAt(s: Setting, fate: Fate, k: nat, all: seq<nat>, next: nat, held: nat, headers: Bytes,
                          body: Bytes, size: nat)
    requires size > 0
  {
    var rest := Lengths(held, headers, body, size);
    (AllFit(s, fate, k, all) <==> AllFit(s, fate, next, rest)) && k + |all| == next + |rest|
  }

  lemma {:induction false} StartOfWay(s: Setting, fate: Fate, k: nat, headers: Bytes, body: Bytes, size: nat)
    requires size > 0
    ensures OnWay(s, fate, k, Lengths(0, headers, body, size), k, 0, headers, body, size)
  {
  }

  lemma {:induction false} NextHeaders(s: Setting, fate: Fate, k: nat, all: seq<nat>, next: nat, headers: Bytes, i: nat,
                                       n: nat, body: Bytes, size: nat)
    requires size > 0 && i < |headers| && n == Min(i + size, |headers|)
    requires OnWay(s, fate, k, all, next, i, headers[i..], body, size)
    ensures if Fits(s, fate.day(next), n) then OnWay(s, fate, k, all, next + 1, n, headers[n..], body, size)
            else !AllFit(s, fate, k, all)
  {
    assert OnWayAt(s, fate, k, all, next, i, headers[i..], body, size);
    assert headers[i..][n - i..] == headers[n..];
    FirstFits(s, fate, next, n, Lengths(n, headers[n..], body, size));
  }

  lemma {:induction false} NextPiece(s: Setting, fate: Fate, k: nat, all: seq<nat>, next: nat, held: nat, body: Bytes,
                                     size: nat)
    requires size > 0 && body != [] && OnWay(s, fate, k, all, next, held, [], body, size)
    ensures var n := Piece(body, size);
            if Fits(s, fate.day(next), held + n) then OnWay(s, fate, k, all, next + 1, held + n, [], body[n..], size)
            else !AllFit(s, fate, k, all)
  {
    assert OnWayAt(s, fate, k, all, next, held, [], body, size);
    var n := Piece(body, size);
    FirstFits(s, fate, next, held + n, Lengths(held + n, [], body[n..], size));
  }

  lemma {:induction false} EndOfWay(s: Setting, fate: Fate, k: nat, all: seq<nat>, next: nat, held: nat, size: nat)
    requires size > 0 && OnWay(s, fate, k, all, next, held, [], [], size)
    ensures AllFit(s, fate, k, all) && k + |all| == next
  {
    assert OnWayAt(s, fate, k, all, next, held, [], [], size);
  }

  lemma {:induction false} FirstFits(s: Setting, fate: Fate, k: nat, length: nat, rest: seq<nat>)
    ensures AllFit(s, fate, k, [length] + rest) <==> Fits(s, fate.day(k), length) && AllFit(s, fate, k + 1, rest)
  {
    assert ([length] + rest)[1..] == rest;
  }

  /** From one length to the next by at least one octet and at most a buffer, up to the total. */
  ghost predicate Stepwise(held: nat, lengths: seq<nat>, total: nat, size: nat)
    decreases |lengths|
  {
    if lengths == [] then held == total
    else 0 < lengths[0] - held <= size && Stepwise(lengths[0], lengths[1..], total, size)
  }

  lemma {:induction false} LengthsAreSteps(held: nat, headers: Bytes, body: Bytes, size: nat)
    requires size > 0
    ensures Stepwise(held, Lengths(held, headers, body, size), held + |headers| + |body|, size)
    decreases |headers| + |body|
  {
    if headers != [] {
      var n := Min(size, |headers|);
      LengthsAreSteps(held + n, headers[n..], body, size);
    } else if body != [] {
      var n := Piece(body, size);
      LengthsAreSteps(held + n, [], body[n..], size);
    }
  }

  /** What DATA answers when no other session acts, on a healthy store: the first thing that is in its way. */
  ghost function Verdict(s: Setting, fate: Fate, headers: Bytes, decoded: Decoded, size: nat): nat
    requires size > 0
  {
    var lengths := Lengths(0, headers, decoded.output, size);
    if !AllFit(s, fate, 0, [0, 0] + lengths) then 452
    else DataVerdict(s, fate, 2 + |lengths|, |headers| + |decoded.output|, decoded.end)
  }

  /** ... once the message has its reservation. */
  ghost function StagedVerdict(s: Setting, fate: Fate, headers: Bytes, decoded: Decoded, size: nat): nat
    requires size > 0
  {
    var lengths := Lengths(0, headers, decoded.output, size);
    if !AllFit(s, fate, 2, lengths) then 452
    else DataVerdict(s, fate, 2 + |lengths|, |headers| + |decoded.output|, decoded.end)
  }

  lemma {:induction false} StagedVerdictIs(s: Setting, fate: Fate, headers: Bytes, decoded: Decoded, size: nat,
                                           stopped: bool, k: nat, code: nat)
    requires size > 0
    requires var lengths := Lengths(0, headers, decoded.output, size);
             if stopped then !AllFit(s, fate, 2, lengths) else AllFit(s, fate, 2, lengths) && 2 + |lengths| == k
    requires code == if stopped then 452 else DataVerdict(s, fate, k, |headers + decoded.output|, decoded.end)
    ensures code == StagedVerdict(s, fate, headers, decoded, size)
  {
  }

  lemma {:induction false} VerdictByStages(s: Setting, fate: Fate, headers: Bytes, decoded: Decoded, size: nat)
    requires size > 0
    ensures Verdict(s, fate, headers, decoded, size) ==
              if Fits(s, fate.day(0), 0) && Fits(s, fate.day(1), 0) then StagedVerdict(s, fate, headers, decoded, size)
              else 452
  {
    var lengths := Lengths(0, headers, decoded.output, size);
    FirstFits(s, fate, 0, 0, [0] + lengths);
    FirstFits(s, fate, 1, 0, lengths);
    assert [0, 0] + lengths == [0] + ([0] + lengths);
  }

  /** ... once everything was let through; the publication is critical section k. */
  ghost function DataVerdict(s: Setting, fate: Fate, k: nat, total: nat, end: SmtpData.Ending): nat {
    match end
    case Broken(MessageTooLarge) => 552
    case Broken(LineTooLong) => 550
    case Broken(UnexpectedEOF) => 451
    case Complete(_) =>
      if fate.decision.RejectPolicy? then 550
      else if fate.decision.RejectTemporarily? then 451
      else PublishVerdict(s, fate, k, total)
  }

  ghost function PublishVerdict(s: Setting, fate: Fate, k: nat, total: nat): nat {
    if !Fits(s, fate.day(k), total) then 452
    else if s.lastID < MAX64 && s.octets + total <= MAX64 && fate.readable && fate.write.Written?
            && fate.commit.Confirmed? then 250
    else 451
  }

  /** A message is accepted if and only if there is budget at every step, the data are complete, the policy accepts, the
      file can be read, there is room, and both the receipt and the commit succeed. */
  lemma {:induction false} AcceptedIff(s: Setting, fate: Fate, headers: Bytes, decoded: Decoded, size: nat)
    requires size > 0
    ensures var lengths, total := Lengths(0, headers, decoded.output, size), |headers| + |decoded.output|;
      Verdict(s, fate, headers, decoded, size) == 250 <==>
        && AllFit(s, fate, 0, [0, 0] + lengths + [total]) && decoded.end.Complete? && fate.decision.Accept?
        && fate.readable && s.lastID < MAX64 && s.octets + total <= MAX64
        && fate.write.Written? && fate.commit.Confirmed?
  {
    var lengths, total := Lengths(0, headers, decoded.output, size), |headers| + |decoded.output|;
    AllFitSnoc(s, fate, 0, [0, 0] + lengths, total);
  }

  lemma {:induction false} AllFitSnoc(s: Setting, fate: Fate, k: nat, lengths: seq<nat>, last: nat)
    ensures AllFit(s, fate, k, lengths + [last]) <==>
              AllFit(s, fate, k, lengths) && Fits(s, fate.day(k + |lengths|), last)
    decreases |lengths|
  {
    if lengths == [] {
      assert ([] + [last])[1..] == [];
    } else {
      assert (lengths + [last])[1..] == lengths[1..] + [last];
      AllFitSnoc(s, fate, k + 1, lengths[1..], last);
    }
  }

  // ---------------------------------------------------------------- the command

  /** Other sessions act. None of them uses this session's message. */
  method Wait(store: Store, m: StagedMessage, acts: seq<Act>)
    requires store.Ready() && store.Owns(m)
    modifies store, store.staged
    ensures store.Ready() && store.Owns(m) && unchanged(m) && store.Grown()
    ensures old(store.failure) ==> store.failure
    ensures acts == [] ==> unchanged(store)
    ensures |acts| == 1 ==> store.Acted(acts[0], {m})
  {
    assert m == store.staged[m.token - store.base];
    store.OtherSessions(acts, {m});
    assert m in store.staged;
    store.StagedIsOwned(m);
  }

  /** One buffer through quotaReader into the temporary file. */
  method LetThrough(store: Store, m: StagedMessage, chunk: Bytes, fate: Fate, k: nat, ghost setting: Setting)
    returns (ok: bool)
    requires Staging(store, m, fate, setting) && |chunk| <= MAX_INT63
    modifies store, store.staged
    ensures Staging(store, m, fate, setting) && store.Grown()
    ensures ok ==> m.content == old(m.content) + chunk
    ensures Plain(setting, fate) && chunk != [] ==>
      (ok <==> Fits(setting, fate.day(k), |old(m.content)| + |chunk|))
  {
    Wait(store, m, fate.others(k));
    store.HoldsItsCharge(m);
    ok := store.Receive(m, chunk, fate.day(k));
  }

  /** The delivery headers, which io.MultiReader hands out first. */
  method CopyHeaders(store: Store, m: StagedMessage, headers: Bytes, size: nat, fate: Fate, k: nat,
                     ghost setting: Setting, ghost all: seq<nat>, ghost body: Bytes)
    returns (ok: bool, next: nat)
    requires Staging(store, m, fate, setting) && m.content == [] && 0 < size <= MAX_INT63
    requires OnWay(setting, fate, k, all, k, 0, headers, body, size)
    modifies store, store.staged
    ensures Staging(store, m, fate, setting) && store.Grown()
    ensures ok ==> m.content == headers
    ensures Plain(setting, fate) ==>
      if ok then OnWay(setting, fate, k, all, next, |headers|, [], body, size) else !AllFit(setting, fate, k, all)
  {
    var i := 0;
    next := k;
    assert headers[0..] == headers;
    while i < |headers|
      invariant Staging(store, m, fate, setting) && store.Grown()
      invariant i <= |headers| && m.content == headers[..i]
      invariant Plain(setting, fate) ==> OnWay(setting, fate, k, all, next, i, headers[i..], body, size)
    {
      var n := Min(i + size, |headers|);
      if Plain(setting, fate) { NextHeaders(setting, fate, k, all, next, headers, i, n, body, size); }
      ok := LetThrough(store, m, headers[i..n], fate, next, setting);
      next := next + 1;
      if !ok { return; }
      assert headers[..i] + headers[i..n] == headers[..n];
      i := n;
    }
    assert headers[..i] == headers && headers[i..] == [];
    ok := true;
  }

  /** One buffer of the message, from the decoder into the file: what the file holds and what is to come stay the same
      octets together. */
  method CopyChunk(store: Store, m: StagedMessage, reader: DataReader, size: nat, fate: Fate, next: nat,
                   ghost setting: Setting, ghost k: nat, ghost all: seq<nat>)
    returns (ok: bool, end: Option<ReadEnd>)
    requires Staging(store, m, fate, setting) && reader.Valid() && 0 < size <= MAX_INT63
    requires Plain(setting, fate) ==> OnWay(setting, fate, k, all, next, |m.content|, [], reader.Future().output, size)
    modifies store, store.staged, reader
    ensures Staging(store, m, fate, setting) && store.Grown() && reader.Valid()
    ensures end.Some? ==>
      m.content == old(m.content) && old(reader.Future()) == Decoded([], Ends(end.value, reader.input))
    ensures Plain(setting, fate) ==>
      if end.Some? then AllFit(setting, fate, k, all) && k + |all| == next
      else if ok then OnWay(setting, fate, k, all, next + 1, |m.content|, [], reader.Future().output, size)
      else !AllFit(setting, fate, k, all)
    ensures end.None? && ok ==>
      && reader.Future().end == old(reader.Future().end)
      && m.content + reader.Future().output == old(m.content + reader.Future().output)
      && |reader.input| <= old(|reader.input|)
      && (|reader.input| < old(|reader.input|) || |reader.pending| < old(|reader.pending|))
  {
    ghost var future := reader.Future().output;
    var chunk;
    chunk, end := reader.Read(size);
    if end.Some? {
      if Plain(setting, fate) { EndOfWay(setting, fate, k, all, next, |m.content|, size); }
      return true, end;
    }
    ok := PassOn(store, m, reader, chunk, size, fate, next, setting, k, all, future);
  }

  lemma {:induction false} AfterPiece(future: Bytes, chunk: Bytes, rest: Bytes)
    requires future == chunk + rest
    ensures future[|chunk|..] == rest
  {
  }

  method PassOn(store: Store, m: StagedMessage, ghost reader: DataReader, chunk: Bytes, ghost size: nat, fate: Fate,
                next: nat, ghost setting: Setting, ghost k: nat, ghost all: seq<nat>, ghost future: Bytes)
    returns (ok: bool)
    requires Staging(store, m, fate, setting) && 0 < |chunk| <= MAX_INT63 && reader.Valid() && size > 0
    requires future == chunk + reader.Future().output && |chunk| == Piece(future, size)
    requires Plain(setting, fate) ==> OnWay(setting, fate, k, all, next, |m.content|, [], future, size)
    modifies store, store.staged
    ensures Staging(store, m, fate, setting) && store.Grown()
    ensures Plain(setting, fate) ==>
      if ok then OnWay(setting, fate, k, all, next + 1, |m.content|, [], reader.Future().output, size)
      else !AllFit(setting, fate, k, all)
    ensures ok ==> m.content + reader.Future().output == old(m.content) + future
  {
    AfterPiece(future, chunk, reader.Future().output);
    if Plain(setting, fate) { NextPiece(setting, fate, k, all, next, |m.content|, future, size); }
    HandedOut(m.content, chunk, reader.Future().output);
    ok := LetThrough(store, m, chunk, fate, next, setting);
  }

  function Ends(end: ReadEnd, rest: Bytes): SmtpData.Ending { if end.EOF? then Complete(rest) else Broken(end.error) }

  /** ... and the message, up to its end, an error of the decoder or the budget's refusal. */
  method CopyBody(store: Store, m: StagedMessage, reader: DataReader, size: nat, fate: Fate, from: nat,
                  ghost setting: Setting, ghost k: nat, ghost all: seq<nat>)
    returns (ok: bool, error: Option<DataError>, next: nat)
    requires Staging(store, m, fate, setting) && reader.Valid() && 0 < size <= MAX_INT63
    requires Plain(setting, fate) ==> OnWay(setting, fate, k, all, from, |m.content|, [], reader.Future().output, size)
    modifies store, store.staged, reader
    ensures Staging(store, m, fate, setting) && store.Grown()
    ensures ok ==>
      m.content == old(m.content + reader.Future().output) && old(reader.Future()).end == Complete(reader.input)
    ensures error.Some? ==> !ok && old(reader.Future()).end == Broken(error.value)
    ensures ok || error.Some? ==> m.content == old(m.content + reader.Future().output)
    ensures Plain(setting, fate) ==>
      if ok || error.Some? then AllFit(setting, fate, k, all) && k + |all| == next else !AllFit(setting, fate, k, all)
  {
    next := from;
    ghost var whole, ending := m.content + reader.Future().output, reader.Future().end;
    while true
      invariant Staging(store, m, fate, setting) && reader.Valid() && store.Grown()
      invariant m.content + reader.Future().output == whole && reader.Future().end == ending
      invariant Plain(setting, fate) ==>
        OnWay(setting, fate, k, all, next, |m.content|, [], reader.Future().output, size)
      decreases |reader.input|, |reader.pending|
    {
      var end;
      ok, end := CopyChunk(store, m, reader, size, fate, next, setting, k, all);
      if end.Some? {
        return end.value.EOF?, if end.value.EOF? then None else Some(end.value.error), next;
      }
      next := next + 1;
      if !ok { return false, None, next; }
    }
  }

  /** The copy of Stage: delivery headers, then the decoded message. */
  method CopyMessage(store: Store, m: StagedMessage, input: Bytes, headers: Bytes, maxBytes: nat, size: nat, fate: Fate,
                     k: nat, ghost setting: Setting, ghost decoded: Decoded)
    returns (rest: Option<Bytes>, error: Option<DataError>, next: nat)
    requires Staging(store, m, fate, setting) && m.content == [] && 0 < size <= MAX_INT63
    requires decoded == Decode(input, 0, maxBytes)
    modifies store, store.staged
    ensures Staging(store, m, fate, setting) && store.Grown()
    ensures rest.Some? ==> m.content == headers + decoded.output
                           && decoded.end == Complete(rest.value)
    ensures rest.Some? ==> m.size == |m.content|
    ensures error.Some? ==> rest.None? && decoded.end == Broken(error.value)
    ensures Plain(setting, fate) ==>
      var all := Lengths(0, headers, decoded.output, size);
      if rest.Some? || error.Some? then AllFit(setting, fate, k, all) && k + |all| == next
      else !AllFit(setting, fate, k, all)
  {
    var reader := new DataReader(input, maxBytes);
    var ok;
    ghost var all := Lengths(0, headers, reader.Future().output, size);
    StartOfWay(setting, fate, k, headers, reader.Future().output, size);
    ok, next := CopyHeaders(store, m, headers, size, fate, k, setting, all, reader.Future().output);
    if !ok { return None, None, next; }
    ok, error, next := CopyBody(store, m, reader, size, fate, next, setting, k, all);
    if !ok { return None, error, next; }
    store.FinishStage(m);
    rest := Some(reader.input);
  }

  /** The commits from `from` up to `to` are this session's own: at most one, and it shows one message more, which
      holds `content`. */
  ghost predicate Own(commits: seq<Commit>, lives: seq<seq<Message>>, from: nat, to: nat, content: Bytes) {
    && 0 < from <= to <= from + 1 && to <= |commits| == |lives|
    && forall i :: from <= i < to ==> AppendsAt(commits, lives, i, content)
  }

  lemma {:induction false} OwnStays(commits: seq<Commit>, lives: seq<seq<Message>>, later: seq<Commit>,
                                    livesLater: seq<seq<Message>>, from: nat, to: nat, content: Bytes)
    requires Own(commits, lives, from, to, content)
    requires commits <= later && lives <= livesLater && |later| == |livesLater|
    ensures Own(later, livesLater, from, to, content)
  {
    forall i | from <= i < to ensures AppendsAt(later, livesLater, i, content) {
      assert AppendsAt(commits, lives, i, content);
    }
  }

  /** The message is finished and holds no reservation any more. */
  ghost predicate Finished(store: Store, m: StagedMessage)
    reads store, m
  {
    store.Owns(m) && m.done && m.reserved == 0
  }

  /** What an answer says is so, whoever else acts: whether the message is shown, and why it was refused. */
  ghost predicate Honest(code: nat, rest: Option<Bytes>, end: SmtpData.Ending, fate: Fate, shown: bool, failed: bool) {
    && code in {250, 451, 452, 550, 552}
    && (code == 250 ==> shown && fate.decision.Accept? && fate.write.Written? && fate.commit.Confirmed?)
    && (shown ==> rest.Some? && fate.decision.Accept? && (code == 250 || failed))
    && (rest.Some? ==> end == Complete(rest.value))
    && (code == 552 ==> end == Broken(MessageTooLarge))
    && (code == 550 ==> end == Broken(LineTooLong) || fate.decision.RejectPolicy?)
  }

  /** DATA. Whatever it and other sessions do, the reservation it took is back when it answers. Only a 250 answer or an
      uncertain commit can show a message, at most one, and it holds the delivery headers and exactly what the decoder
      yields. */
  method ReceiveData(store: Store, input: Bytes, headers: Bytes, maxBytes: nat, size: nat, fate: Fate)
    returns (code: nat, rest: Option<Bytes>, ghost mine: Option<StagedMessage>, ghost from: nat, ghost to: nat)
    requires store.Ready() && 0 < size <= MAX_INT63
    modifies store, store.staged
    ensures store.Ready() && store.Grown()
    ensures mine.Some? ==> fresh(mine.value) && Finished(store, mine.value)
    ensures |old(store.commits)| <= from
    ensures Own(store.commits, store.lives, from, to, headers + Decode(input, 0, maxBytes).output)
    ensures Alone(fate) ==>
      store.reservedBytes == old(store.reservedBytes) && from == |old(store.commits)| && to == |store.commits|
    ensures Honest(code, rest, Decode(input, 0, maxBytes).end, fate, from < to, store.failure)
    ensures Alone(fate) && old(Healthy(store)) ==>
      code == Verdict(old(SettingOf(store, 0, true)), fate, headers, Decode(input, 0, maxBytes), size)
    ensures Alone(fate) && old(store.failure) ==> code == 452
  {
    ghost var setting, decoded := SettingOf(store, 0, Healthy(store)), Decode(input, 0, maxBytes);
    code, rest, mine, from, to := AdmitAndStage(store, input, headers, maxBytes, size, fate, setting, decoded);
  }

  /** DATA, in its setting. */
  method AdmitAndStage(store: Store, input: Bytes, headers: Bytes, maxBytes: nat, size: nat, fate: Fate,
                       ghost setting: Setting, ghost decoded: Decoded)
    returns (code: nat, rest: Option<Bytes>, ghost mine: Option<StagedMessage>, ghost from: nat, ghost to: nat)
    requires store.Ready() && 0 < size <= MAX_INT63 && InSetting(store, 0, setting)
    requires decoded == Decode(input, 0, maxBytes)
    modifies store, store.staged
    ensures store.Ready() && store.Grown()
    ensures mine.Some? ==> fresh(mine.value) && Finished(store, mine.value)
    ensures |old(store.commits)| <= from && Own(store.commits, store.lives, from, to, headers + decoded.output)
    ensures Alone(fate) ==>
      store.reservedBytes == old(store.reservedBytes) && from == |old(store.commits)| && to == |store.commits|
    ensures Honest(code, rest, decoded.end, fate, from < to, store.failure)
    ensures Plain(setting, fate) ==> code == Verdict(setting, fate, headers, decoded, size)
    ensures Alone(fate) && old(store.failure) ==> code == 452
  {
    var staged := Admit(store, fate, setting);
    if staged.Err? {
      VerdictByStages(setting, fate, headers, decoded, size);
      return staged.error, None, None, |store.commits|, |store.commits|;
    }
    code, rest, from, to := StageAndPublish(store, staged.value, input, headers, maxBytes, size, fate, setting,
                                            decoded);
    mine := Some(staged.value);
  }

  /** The admission check before the data, and the reservation. */
  method Admit(store: Store, fate: Fate, ghost setting: Setting) returns (r: Result<StagedMessage, nat>)
    requires store.Ready() && InSetting(store, 0, setting)
    modifies store, store.staged
    ensures store.Ready() && store.Grown()
    ensures r.Ok? ==> fresh(r.value) && store.Owns(r.value) && !r.value.done
    ensures r.Ok? ==> r.value.store == store && r.value.content == []
    ensures r.Err? ==> r.error in {451, 452}
    ensures Alone(fate) ==> InSetting(store, if r.Ok? then r.value.reserved else 0, setting)
    ensures Alone(fate) ==>
      && store.reservedBytes == old(store.reservedBytes) + (if r.Ok? then r.value.reserved else 0)
      && |store.commits| == |old(store.commits)|
    ensures Plain(setting, fate) ==> (r.Ok? <==> Fits(setting, fate.day(0), 0) && Fits(setting, fate.day(1), 0))
    ensures Alone(fate) && r.Err? && (setting.healthy || old(store.failure)) ==> r.error == 452
    ensures Alone(fate) && old(store.failure) ==> r.Err?
  {
    store.OtherSessions(fate.others(0), {});
    var admitted := store.CheckReceive(fate.day(0));
    if admitted.Err? { return Err(452); }
    r := Reserve(store, fate, setting);
  }

  method Reserve(store: Store, fate: Fate, ghost setting: Setting) returns (r: Result<StagedMessage, nat>)
    requires store.Ready() && (Alone(fate) ==> InSetting(store, 0, setting))
    modifies store, store.staged
    ensures store.Ready() && store.Grown()
    ensures r.Ok? ==> fresh(r.value) && store.Owns(r.value) && !r.value.done
    ensures r.Ok? ==> r.value.store == store && r.value.content == []
    ensures r.Err? ==> r.error in {451, 452}
    ensures Alone(fate) ==> InSetting(store, if r.Ok? then r.value.reserved else 0, setting)
    ensures Plain(setting, fate) ==>
      (r.Ok? <==> Fits(setting, fate.day(1), 0)) && (r.Err? ==> r.error == 452)
  {
    store.OtherSessions(fate.others(1), {});
    var staged := store.BeginStage(fate.day(1));
    r := if staged.Ok? then Ok(staged.value) else Err(if staged.error == DailyLimit then 452 else 451);
  }

  /** DATA, once it has a reservation. */
  method StageAndPublish(store: Store, m: StagedMessage, input: Bytes, headers: Bytes, maxBytes: nat,
                         size: nat, fate: Fate, ghost setting: Setting, ghost decoded: Decoded)
    returns (code: nat, rest: Option<Bytes>, ghost from: nat, ghost to: nat)
    requires Staging(store, m, fate, setting) && 0 < size <= MAX_INT63
    requires m.store == store && m.content == [] && decoded == Decode(input, 0, maxBytes)
    requires Plain(setting, fate) ==> Fits(setting, fate.day(0), 0) && Fits(setting, fate.day(1), 0)
    modifies store, store.staged
    ensures store.Ready() && store.Grown() && Finished(store, m)
    ensures |old(store.commits)| <= from
    ensures Own(store.commits, store.lives, from, to, headers + decoded.output)
    ensures Alone(fate) ==>
      && store.reservedBytes == old(store.reservedBytes) - old(m.reserved)
      && from == |old(store.commits)| && to == |store.commits|
    ensures Honest(code, rest, decoded.end, fate, from < to, store.failure)
    ensures Plain(setting, fate) ==> code == Verdict(setting, fate, headers, decoded, size)
  {
    var error, k;
    rest, error, k := CopyMessage(store, m, input, headers, maxBytes, size, fate, 2, setting, decoded);
    code, from, to := Settle(store, m, rest, error, fate, k, setting, headers + decoded.output, decoded.end);
    if Plain(setting, fate) {
      VerdictByStages(setting, fate, headers, decoded, size);
      StagedVerdictIs(setting, fate, headers, decoded, size, rest.None? && error.None?, k, code);
    }
  }

  /** DATA, once the copy has ended. */
  method Settle(store: Store, m: StagedMessage, rest: Option<Bytes>, error: Option<DataError>, fate: Fate, k: nat,
                ghost setting: Setting, ghost content: Bytes, ghost end: SmtpData.Ending)
    returns (code: nat, ghost from: nat, ghost to: nat)
    requires Staging(store, m, fate, setting) && m.store == store
    requires rest.Some? ==> m.content == content && m.size == |content| && end == Complete(rest.value)
    requires error.Some? ==> rest.None? && end == Broken(error.value)
    modifies store, store.staged
    ensures store.Ready() && store.Grown() && Finished(store, m)
    ensures |old(store.commits)| <= from && Own(store.commits, store.lives, from, to, content)
    ensures Alone(fate) ==>
      && store.reservedBytes == old(store.reservedBytes) - old(m.reserved)
      && from == |old(store.commits)| && to == |store.commits|
    ensures Honest(code, rest, end, fate, from < to, store.failure)
    ensures Plain(setting, fate) ==>
      code == if rest.None? && error.None? then 452 else DataVerdict(setting, fate, k, |content|, end)
  {
    if rest.None? || !fate.decision.Accept? {
      GiveUp(store, m, fate, k);
      from, to := |store.commits|, |store.commits|;
      code := if rest.None? then StageCode(error) else if fate.decision.RejectPolicy? then 550 else 451;
      return;
    }
    code, from, to := Conclude(store, m, fate, k, setting);
  }

  /** A discard, which gives the reservation back. */
  method GiveUp(store: Store, m: StagedMessage, fate: Fate, k: nat)
    requires store.Ready() && store.Owns(m)
    modifies store, store.staged
    ensures store.Ready() && store.Grown() && Finished(store, m)
    ensures old(store.failure) ==> store.failure
    ensures Alone(fate) ==>
      store.reservedBytes == old(store.reservedBytes) - old(m.reserved) && store.commits == old(store.commits)
  {
    Wait(store, m, fate.others(k));
    store.Discard(m);
  }

  method Conclude(store: Store, m: StagedMessage, fate: Fate, k: nat, ghost setting: Setting)
    returns (code: nat, ghost from: nat, ghost to: nat)
    requires Staging(store, m, fate, setting) && m.store == store && m.size == |m.content|
    modifies store, store.staged
    ensures store.Ready() && store.Grown() && Finished(store, m)
    ensures |old(store.commits)| <= from && Own(store.commits, store.lives, from, to, old(m.content))
    ensures Alone(fate) ==>
      && store.reservedBytes == old(store.reservedBytes) - old(m.reserved)
      && from == |old(store.commits)| && to == |store.commits|
    ensures code in {250, 451, 452}
    ensures code == 250 ==> fate.write.Written? && fate.commit.Confirmed?
    ensures code == 250 ==> from < to
    ensures from < to ==> code == 250 || store.failure
    ensures Plain(setting, fate) ==> code == PublishVerdict(setting, fate, k, |old(m.content)|)
  {
    store.HoldsItsCharge(m);
    Wait(store, m, fate.others(k));
    code, from, to := PublishOrDiscard(store, m, fate, k);
  }

  /** The end of DATA: publish, and discard when that fails. */
  method PublishOrDiscard(store: Store, m: StagedMessage, fate: Fate, k: nat)
    returns (code: nat, ghost from: nat, ghost to: nat)
    requires store.Ready() && store.Owns(m) && m.store == store && m.size == |m.content|
    modifies store, store.staged
    ensures store.Ready() && store.Grown() && Finished(store, m)
    ensures from == |old(store.commits)| && Own(store.commits, store.lives, from, to, old(m.content))
    ensures Alone(fate) ==> store.reservedBytes == old(store.reservedBytes) - old(m.reserved) && to == |store.commits|
    ensures code in {250, 451, 452}
    ensures code == 250 <==>
      Admits(old(store.ledger), m.token, fate.day(k)) && fate.readable && HasRoom(old(store.state), |old(m.content)|)
      && fate.write.Written? && fate.commit.Confirmed?
    ensures old(Healthy(store)) && !old(m.done) ==>
      && (code == 250 <==> old(store.Publishable(|m.content|, fate.day(k), fate.readable))
                           && fate.write.Written? && fate.commit.Confirmed?)
      && (code == 452 <==> !old(store.HasBudget(0, fate.day(k))))
    ensures code == 250 ==> from < to
    ensures from < to ==> code == 250 || store.failure
  {
    code, from, to := PublishStaged(store, m, fate, k);
    ghost var commits, lives, content := store.commits, store.lives, m.content;
    if code != 250 { GiveUp(store, m, fate, k + 1); }
    OwnStays(commits, lives, store.commits, store.lives, from, to, content);
  }

  method PublishStaged(store: Store, m: StagedMessage, fate: Fate, k: nat)
    returns (code: nat, ghost from: nat, ghost to: nat)
    requires store.Ready() && store.Owns(m) && m.store == store && m.size == |m.content|
    modifies store, m
    ensures store.Ready() && store.Grown() && store.Owns(m) && m.content == old(m.content)
    ensures store.reservedBytes - m.reserved == old(store.reservedBytes) - old(m.reserved)
    ensures from == |old(store.commits)| && to == |store.commits|
    ensures Own(store.commits, store.lives, from, to, old(m.content))
    ensures code in {250, 451, 452}
    ensures code == 250 <==>
      Admits(old(store.ledger), m.token, fate.day(k)) && fate.readable && HasRoom(old(store.state), |old(m.content)|)
      && fate.write.Written? && fate.commit.Confirmed?
    ensures old(Healthy(store)) && !old(m.done) ==>
      && (code == 250 <==> old(store.Publishable(|m.content|, fate.day(k), fate.readable))
                           && fate.write.Written? && fate.commit.Confirmed?)
      && (code == 452 <==> !old(store.HasBudget(0, fate.day(k))))
    ensures code == 250 ==> from < to && Finished(store, m)
    ensures from < to ==> code == 250 || store.failure
  {
    from := |store.commits|;
    var published := store.Publish(m, fate.day(k), fate.chargeDay, fate.readable, fate.write, fate.commit);
    to := |store.commits|;
    code := if published.Ok? then 250 else if published.error == DailyLimit then 452 else 451;
  }
}
