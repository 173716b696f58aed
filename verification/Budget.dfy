/** internal/archive/quota.go with the budget half of store.go: the receipt budget as a protocol of
    lock-atomic steps by any number of sessions, with a clock that may move either way and a process
    that may stop anywhere. Days are integers. */
module Budget {
  import opened Prelude

  const MINIMUM_CHARGE: nat := 4096
  const MAX_INT63: nat := 0x7FFF_FFFF_FFFF_FFFF

  datatype Receipt = Receipt(day: int, charged: uint64)

  /** uint64 addition as the machine does it. */
  function Add64(a: nat, b: nat): uint64 { (a + b) % 0x1_0000_0000_0000_0000 }

  /** receiptUsageLocked: the day to charge, and what that day has been charged already. */
  function Usage(receipt: Option<Receipt>, today: int): (int, nat) {
    if receipt.Some? && receipt.value.day >= today then (receipt.value.day, receipt.value.charged) else (today, 0)
  }

  /** canReserveLocked. */
  predicate CanReserve(max: nat, receipt: Option<Receipt>, reserved: nat, extra: nat, today: int) {
    var used := Usage(receipt, today).1;
    used <= max && reserved <= max - used && extra <= max - used - reserved
  }

  /** What a message of this many octets is charged. */
  function ChargeFor(octets: nat): nat { if octets < MINIMUM_CHARGE then MINIMUM_CHARGE else octets }

  // ---------------------------------------------------------------- state

  /** One staged message, from its first reservation to its release. */
  datatype Stage = Stage(consumed: nat, reserved: nat, done: bool)

  /** One durable receipt write: which day it charged, by how much, the day's new total, and whether the
      message it pays for reached HEAD. */
  datatype Charge = Charge(day: int, amount: nat, total: uint64, landed: bool)

  datatype Ledger = Ledger(max: nat, initial: Option<Receipt>, file: Option<Receipt>, receipt: Option<Receipt>,
                           reservedBytes: nat, stages: seq<Stage>, failed: bool, history: seq<Charge>)

  // ---------------------------------------------------------------- steps

  datatype WriteOutcome = Written | WriteLost | WriteUnconfirmed
  datatype CommitOutcome = Refused | Confirmed | Uncertain(moved: bool, headSeen: bool)

  datatype Event =
    | Begin(today: int)
    | Chunk(token: nat, octets: nat, today: int)
    | Discard(token: nat)
    | Publish(token: nat, day1: int, day2: int, refused: bool, write: WriteOutcome, commit: CommitOutcome)
    | OtherFailure
    | Restart

  /** Stage, first critical section. */
  function BeginStage(l: Ledger, today: int): Ledger {
    if l.failed || !CanReserve(l.max, l.receipt, l.reservedBytes, MINIMUM_CHARGE, today) then l
    else l.(reservedBytes := l.reservedBytes + MINIMUM_CHARGE, stages := l.stages + [Stage(0, MINIMUM_CHARGE, false)])
  }

  /** quotaReader.Read after `octets` arrived from the source. */
  function ReadChunk(l: Ledger, token: nat, octets: nat, today: int): Ledger
    requires token < |l.stages| && StageOk(l.stages[token])
  {
    var stage := l.stages[token];
    var charge := ChargeFor(stage.consumed + octets);
    var extra := charge - stage.reserved;
    if octets == 0 || !CanReserve(l.max, l.receipt, l.reservedBytes, extra, today) then l
    else l.(reservedBytes := l.reservedBytes + extra,
            stages := l.stages[token := Stage(stage.consumed + octets, charge, stage.done)])
  }

  /** discardLocked. */
  function Release(l: Ledger, token: nat): Ledger
    requires token < |l.stages| && l.stages[token].reserved <= l.reservedBytes
  {
    var stage := l.stages[token];
    if stage.done then l
    else l.(reservedBytes := l.reservedBytes - stage.reserved,
            stages := l.stages[token := Stage(stage.consumed, 0, true)])
  }

  predicate Admits(l: Ledger, token: nat, day1: int)
    requires token < |l.stages|
  {
    !l.failed && !l.stages[token].done && CanReserve(l.max, l.receipt, l.reservedBytes, 0, day1)
  }

  /** The receipt Publish writes, from its second reading of the clock. */
  function NextReceipt(l: Ledger, token: nat, day2: int): Receipt
    requires token < |l.stages|
  {
    var (day, used) := Usage(l.receipt, day2);
    Receipt(day, Add64(used, l.stages[token].reserved))
  }

  function Landed(commit: CommitOutcome): bool { commit.Confirmed? || (commit.Uncertain? && commit.moved) }

  /** Publish. `refused` stands for every refusal between admission and the receipt write. */
  function PublishStage(l: Ledger, token: nat, day1: int, day2: int, refused: bool, write: WriteOutcome,
                        commit: CommitOutcome): Ledger
    requires token < |l.stages| && l.stages[token].reserved <= l.reservedBytes
  {
    if !Admits(l, token, day1) || refused then l
    else
      var next := NextReceipt(l, token, day2);
      var amount := l.stages[token].reserved;
      match write
      case WriteLost => l.(failed := true)
      case WriteUnconfirmed =>
        l.(failed := true, file := Some(next), history := l.history + [Charge(next.day, amount, next.charged, false)])
      case Written =>
        var charged := l.(file := Some(next), receipt := Some(next),
                          history := l.history + [Charge(next.day, amount, next.charged, Landed(commit))]);
        Release(charged, token).(failed := commit.Uncertain?)
  }

  /** A new process: reservations are gone, the receipt comes back from its file. */
  function Reopen(l: Ledger): Ledger {
    l.(receipt := l.file, reservedBytes := 0, failed := false,
       stages := seq(|l.stages|, i requires 0 <= i < |l.stages| => Stage(l.stages[i].consumed, 0, true)))
  }

  /** A step names a staged message that its session still owns. */
  predicate Enabled(l: Ledger, e: Event) {
    match e
    case Chunk(token, _, _) => token < |l.stages| && !l.stages[token].done
    case Discard(token) => token < |l.stages|
    case Publish(token, _, _, _, _, _) => token < |l.stages|
    case _ => true
  }

  function Apply(l: Ledger, e: Event): Ledger
    requires Valid(l) && Enabled(l, e)
  {
    StageBounds(l);
    match e
    case Begin(today) => BeginStage(l, today)
    case Chunk(token, octets, today) => ReadChunk(l, token, octets, today)
    case Discard(token) => Release(l, token)
    case Publish(token, day1, day2, refused, write, commit) =>
      PublishStage(l, token, day1, day2, refused, write, commit)
    case OtherFailure => l.(failed := true)
    case Restart => Reopen(l)
  }

  // ---------------------------------------------------------------- reservations

  function Reserved(stages: seq<Stage>): nat {
    if stages == [] then 0 else Reserved(stages[..|stages| - 1]) + stages[|stages| - 1].reserved
  }

  /** An unfinished message holds exactly the charge of what it has read, a finished one nothing. */
  predicate StageOk(stage: Stage) {
    stage.reserved == if stage.done then 0 else ChargeFor(stage.consumed)
  }

  /** At every lock release the reservation counter is the sum over unfinished messages, each of which holds
      exactly the charge of what it has read. */
  ghost predicate Valid(l: Ledger) {
    && l.max <= MAX_INT63
    && l.reservedBytes == Reserved(l.stages) <= l.max
    && forall i :: 0 <= i < |l.stages| ==> StageOk(l.stages[i])
  }

  lemma {:induction false} ReservedUpdate(stages: seq<Stage>, i: nat, stage: Stage)
    requires i < |stages|
    ensures Reserved(stages[i := stage]) == Reserved(stages) - stages[i].reserved + stage.reserved
  {
    var n := |stages| - 1;
    if i < n {
      ReservedUpdate(stages[..n], i, stage);
      assert stages[i := stage][..n] == stages[..n][i := stage];
    } else {
      assert stages[i := stage][..n] == stages[..n];
    }
  }

  lemma {:induction false} ReservedAtLeast(stages: seq<Stage>, i: nat)
    requires i < |stages|
    ensures stages[i].reserved <= Reserved(stages)
  {
    if i < |stages| - 1 { ReservedAtLeast(stages[..|stages| - 1], i); }
  }

  lemma {:induction false} StageBounds(l: Ledger)
    requires Valid(l)
    ensures forall i :: 0 <= i < |l.stages| ==> l.stages[i].reserved <= l.reservedBytes
  {
    forall i | 0 <= i < |l.stages| ensures l.stages[i].reserved <= l.reservedBytes { ReservedAtLeast(l.stages, i); }
  }

  lemma {:induction false} NothingReserved(stages: seq<Stage>)
    requires forall i :: 0 <= i < |stages| ==> stages[i].reserved == 0
    ensures Reserved(stages) == 0
  {
    if stages != [] { NothingReserved(stages[..|stages| - 1]); }
  }

  lemma {:induction false} ReleaseKeepsValid(l: Ledger, token: nat)
    requires Valid(l) && token < |l.stages| && l.stages[token].reserved <= l.reservedBytes
    ensures Valid(Release(l, token)) && Release(l, token).stages[token].done
    ensures Release(l, token).stages[token].reserved == 0
    ensures l.stages[token].done ==> Release(l, token) == l
  {
    assert StageOk(l.stages[token]);
    ReservedUpdate(l.stages, token, Stage(l.stages[token].consumed, 0, true));
  }

  lemma {:induction false} ChunkKeepsValid(l: Ledger, token: nat, octets: nat, today: int)
    requires Valid(l) && token < |l.stages| && !l.stages[token].done
    ensures StageOk(l.stages[token]) && Valid(ReadChunk(l, token, octets, today))
  {
    var stage := l.stages[token];
    assert StageOk(stage);
    ReservedUpdate(l.stages, token, Stage(stage.consumed + octets, ChargeFor(stage.consumed + octets), stage.done));
  }

  lemma {:induction false} PublishKeepsValid(l: Ledger, token: nat, day1: int, day2: int, refused: bool,
                                             write: WriteOutcome, commit: CommitOutcome)
    requires Valid(l) && token < |l.stages| && l.stages[token].reserved <= l.reservedBytes
    ensures Valid(PublishStage(l, token, day1, day2, refused, write, commit))
  {
    if Admits(l, token, day1) && !refused && write.Written? {
      var next := NextReceipt(l, token, day2);
      var charged := l.(file := Some(next), receipt := Some(next),
                        history := l.history
                                   + [Charge(next.day, l.stages[token].reserved, next.charged, Landed(commit))]);
      ReleaseKeepsValid(charged, token);
    }
  }

  lemma {:induction false} BeginKeepsValid(l: Ledger, today: int)
    requires Valid(l)
    ensures Valid(BeginStage(l, today))
  {
    if !l.failed && CanReserve(l.max, l.receipt, l.reservedBytes, MINIMUM_CHARGE, today) { NewStage(l); }
  }

  lemma {:induction false} NewStage(l: Ledger)
    requires Valid(l) && l.reservedBytes + MINIMUM_CHARGE <= l.max
    ensures Valid(l.(reservedBytes := l.reservedBytes + MINIMUM_CHARGE,
                     stages := l.stages + [Stage(0, MINIMUM_CHARGE, false)]))
  {
    ReservedSnoc(l.stages, Stage(0, MINIMUM_CHARGE, false));
  }

  lemma {:induction false} ReservedSnoc(stages: seq<Stage>, stage: Stage)
    ensures Reserved(stages + [stage]) == Reserved(stages) + stage.reserved
  {
    assert (stages + [stage])[..|stages|] == stages;
  }

  lemma {:induction false} ReopenKeepsValid(l: Ledger)
    requires Valid(l)
    ensures Valid(Reopen(l))
  {
    NothingReserved(Reopen(l).stages);
  }

  /** Every step by any session keeps the reservations exact. */
  lemma {:induction false} StepKeepsReservations(l: Ledger, e: Event)
    requires Valid(l) && Enabled(l, e)
    ensures Valid(Apply(l, e))
  {
    StageBounds(l);
    match e
    case Begin(today) => BeginKeepsValid(l, today);
    case Chunk(token, octets, today) => ChunkKeepsValid(l, token, octets, today);
    case Discard(token) => ReleaseKeepsValid(l, token);
    case Publish(token, day1, day2, refused, write, commit) =>
      PublishKeepsValid(l, token, day1, day2, refused, write, commit);
    case OtherFailure =>
    case Restart => ReopenKeepsValid(l);
  }

  // ---------------------------------------------------------------- the durable budget

  function InitialCharge(initial: Option<Receipt>, day: int): nat {
    if initial.Some? && initial.value.day == day then initial.value.charged else 0
  }

  /** The last durable total recorded for a day. */
  function Durable(initial: Option<Receipt>, history: seq<Charge>, day: int): nat {
    if history == [] then InitialCharge(initial, day)
    else if history[|history| - 1].day == day then history[|history| - 1].total
    else Durable(initial, history[..|history| - 1], day)
  }

  /** What the receipt file holds after these writes. */
  function Latest(initial: Option<Receipt>, history: seq<Charge>): Option<Receipt> {
    if history == [] then initial
    else Some(Receipt(history[|history| - 1].day, history[|history| - 1].total))
  }

  /** Every write charged the latest day or a later one, added its amount to that day's total, and stayed
      within the limit. */
  ghost predicate Sound(max: nat, initial: Option<Receipt>, history: seq<Charge>) {
    history == [] ||
      var front, last := history[..|history| - 1], history[|history| - 1];
      && Sound(max, initial, front)
      && (Latest(initial, front).Some? ==> Latest(initial, front).value.day <= last.day)
      && last.total == Durable(initial, front, last.day) + last.amount <= max
      && last.amount >= MINIMUM_CHARGE
  }

  /** The durable state is what the writes left, and a healthy process agrees with it. */
  ghost predicate Accounted(l: Ledger) {
    && Sound(l.max, l.initial, l.history)
    && l.file == Latest(l.initial, l.history)
    && (!l.failed ==> l.receipt == l.file)
  }

  /** Within one Publish the second clock reading is no earlier day than the first. */
  predicate ClockSteady(e: Event) { e.Publish? ==> e.day1 <= e.day2 }

  lemma {:induction false} DurableOfLatest(max: nat, initial: Option<Receipt>, history: seq<Charge>, today: int)
    requires Sound(max, initial, history)
    ensures var (day, used) := Usage(Latest(initial, history), today);
            used == Durable(initial, history, day) && day >= today
            && (Latest(initial, history).Some? ==> Latest(initial, history).value.day <= day)
  {
    var latest := Latest(initial, history);
    if latest.Some? && latest.value.day < today { NoLaterCharge(max, initial, history, today); }
  }

  lemma {:induction false} NoLaterCharge(max: nat, initial: Option<Receipt>, history: seq<Charge>, day: int)
    requires Sound(max, initial, history)
    requires Latest(initial, history).Some? ==> Latest(initial, history).value.day < day
    ensures Durable(initial, history, day) == 0
  {
    if history != [] { NoLaterCharge(max, initial, history[..|history| - 1], day); }
  }

  /** An admitted message fits whatever day the second reading picks, as long as it is not an earlier one. */
  lemma {:induction false} AdmittedFits(l: Ledger, token: nat, day1: int, day2: int)
    requires Valid(l) && token < |l.stages| && Admits(l, token, day1) && day1 <= day2
    ensures Usage(l.receipt, day2).1 + l.stages[token].reserved <= l.max
    ensures NextReceipt(l, token, day2).charged == Usage(l.receipt, day2).1 + l.stages[token].reserved
  {
    ReservedAtLeast(l.stages, token);
    assert Usage(l.receipt, day2).1 <= Usage(l.receipt, day1).1;
  }

  lemma {:induction false} ChargeIsSound(l: Ledger, token: nat, day2: int, landed: bool)
    requires Accounted(l) && !l.failed && token < |l.stages|
    requires l.stages[token].reserved >= MINIMUM_CHARGE
    requires NextReceipt(l, token, day2).charged == Usage(l.receipt, day2).1 + l.stages[token].reserved <= l.max
    ensures var next := NextReceipt(l, token, day2);
            var history := l.history + [Charge(next.day, l.stages[token].reserved, next.charged, landed)];
            Sound(l.max, l.initial, history) && Latest(l.initial, history) == Some(next)
  {
    DurableOfLatest(l.max, l.initial, l.history, day2);
    var next := NextReceipt(l, token, day2);
    var history := l.history + [Charge(next.day, l.stages[token].reserved, next.charged, landed)];
    assert history[..|history| - 1] == l.history;
  }

  /** One step of any session keeps the durable accounting sound. */
  lemma {:induction false} StepKeepsAccounts(l: Ledger, e: Event)
    requires Valid(l) && Accounted(l) && Enabled(l, e) && ClockSteady(e)
    ensures Accounted(Apply(l, e))
  {
    if e.Publish? && Admits(l, e.token, e.day1) && !e.refused && !e.write.WriteLost? {
      AdmittedFits(l, e.token, e.day1, e.day2);
      assert StageOk(l.stages[e.token]);
      ChargeIsSound(l, e.token, e.day2, e.write.Written? && Landed(e.commit));
    }
  }

  // ---------------------------------------------------------------- whole runs

  /** A store that has just been opened on a receipt file. */
  function Open(max: nat, initial: Option<Receipt>): Ledger {
    Ledger(max, initial, initial, initial, 0, [], false, [])
  }

  /** The ledger after a run, None when a step was not its session's to take. */
  function Run(l: Ledger, events: seq<Event>): (r: Option<Ledger>)
    requires Valid(l)
    ensures r.Some? ==> Valid(r.value) && r.value.max == l.max && r.value.initial == l.initial
  {
    if events == [] then Some(l)
    else
      var before := Run(l, events[..|events| - 1]);
      var e := events[|events| - 1];
      if before.None? || !Enabled(before.value, e) then None
      else
        StepKeepsReservations(before.value, e);
        Some(Apply(before.value, e))
  }

  /** The ledger is what this run left of a store opened on `initial`. (The quantifier says RunsTo of `l` itself; it
      keeps the run folded until a proof names it.) */
  ghost predicate Reached(max: nat, initial: Option<Receipt>, events: seq<Event>, l: Ledger) {
    max <= MAX_INT63 && forall end :: end == Some(l) ==> RunsTo(max, initial, events, end)
  }

  ghost predicate RunsTo(max: nat, initial: Option<Receipt>, events: seq<Event>, end: Option<Ledger>)
    requires max <= MAX_INT63
  {
    Run(Open(max, initial), events) == end
  }

  lemma {:induction false} ReachedNext(max: nat, initial: Option<Receipt>, events: seq<Event>, l: Ledger, e: Event)
    requires Reached(max, initial, events, l)
    ensures Valid(l) && l.max == max
    ensures Enabled(l, e) ==> Reached(max, initial, events + [e], Apply(l, e))
  {
    assert RunsTo(max, initial, events, Some(l));
    assert (events + [e])[..|events|] == events;
  }

  /** A store's fields hold what the ledger says. */
  predicate Holds(max: nat, receipt: Option<Receipt>, file: Option<Receipt>, reservedBytes: uint64, l: Ledger) {
    l.max == max && l.receipt == receipt && l.file == file && l.reservedBytes == reservedBytes
  }

  lemma {:induction false} StageBound(max: nat, initial: Option<Receipt>, events: seq<Event>, l: Ledger, token: nat)
    requires Reached(max, initial, events, l) && token < |l.stages|
    ensures StageOk(l.stages[token]) && l.stages[token].reserved <= l.reservedBytes <= max <= MAX_INT63
    ensures !l.stages[token].done ==> l.stages[token].consumed <= MAX_INT63
  {
    ReachedNext(max, initial, events, l, OtherFailure);
    assert StageOk(l.stages[token]);
    StageBounds(l);
  }

  lemma {:induction false} ReachedBegin(max: nat, initial: Option<Receipt>, events: seq<Event>, l: Ledger, today: int)
    requires Reached(max, initial, events, l)
    ensures Reached(max, initial, events + [Begin(today)], BeginStage(l, today))
    ensures BeginStage(l, today).reservedBytes <= max <= MAX_INT63
  {
    ReachedNext(max, initial, events, l, Begin(today));
    BeginKeepsValid(l, today);
  }

  lemma {:induction false} ReachedChunk(max: nat, initial: Option<Receipt>, events: seq<Event>, l: Ledger, token: nat,
                                        octets: nat, today: int)
    requires Reached(max, initial, events, l) && token < |l.stages| && !l.stages[token].done && StageOk(l.stages[token])
    ensures Reached(max, initial, events + [Chunk(token, octets, today)], ReadChunk(l, token, octets, today))
    ensures ReadChunk(l, token, octets, today).reservedBytes <= max <= MAX_INT63
  {
    ReachedNext(max, initial, events, l, Chunk(token, octets, today));
    ChunkKeepsValid(l, token, octets, today);
  }

  lemma {:induction false} ReachedDiscard(max: nat, initial: Option<Receipt>, events: seq<Event>, l: Ledger, token: nat)
    requires Reached(max, initial, events, l) && token < |l.stages| && l.stages[token].reserved <= l.reservedBytes
    ensures Reached(max, initial, events + [Event.Discard(token)], Release(l, token))
  {
    ReachedNext(max, initial, events, l, Event.Discard(token));
  }

  lemma {:induction false} ReachedPublish(max: nat, initial: Option<Receipt>, events: seq<Event>, l: Ledger, token: nat,
                                          day1: int, day2: int, refused: bool, write: WriteOutcome,
                                          commit: CommitOutcome)
    requires Reached(max, initial, events, l) && token < |l.stages| && l.stages[token].reserved <= l.reservedBytes
    ensures Reached(max, initial, events + [Event.Publish(token, day1, day2, refused, write, commit)],
                    PublishStage(l, token, day1, day2, refused, write, commit))
  {
    ReachedNext(max, initial, events, l, Event.Publish(token, day1, day2, refused, write, commit));
  }

  lemma {:induction false} ReachedRestart(max: nat, initial: Option<Receipt>, events: seq<Event>, l: Ledger)
    requires Reached(max, initial, events, l)
    ensures Reached(max, initial, events + [Restart], Reopen(l))
  {
    ReachedNext(max, initial, events, l, Restart);
  }

  lemma {:induction false} ReachedFailure(max: nat, initial: Option<Receipt>, events: seq<Event>, l: Ledger)
    requires Reached(max, initial, events, l)
    ensures Reached(max, initial, events + [OtherFailure], l.(failed := true))
  {
    ReachedNext(max, initial, events, l, OtherFailure);
  }

  // ---------------------------------------------------------------- what is admitted

  /** How max(4096, octets) grows when a message grows. */
  function Growth(octets: nat, more: nat): nat {
    var now := octets + more;
    (if now < 4096 then 4096 else now) - (if octets < 4096 then 4096 else octets)
  }

  /** The day that a charge made today goes to: today, or the day of the last receipt if that is later. */
  function ReceiptDay(initial: Option<Receipt>, history: seq<Charge>, today: int): int {
    var last := Latest(initial, history);
    if last.Some? && last.value.day > today then last.value.day else today
  }

  /** What that day has been charged durably. */
  function Spent(initial: Option<Receipt>, history: seq<Charge>, today: int): nat {
    Durable(initial, history, ReceiptDay(initial, history, today))
  }

  /** Whatever the numbers, nothing is refused that fits: the three amounts are added without wrapping. */
  lemma {:induction false} CanReserveIsSum(max: nat, receipt: Option<Receipt>, reserved: nat, extra: nat, today: int)
    ensures CanReserve(max, receipt, reserved, extra, today) <==> Usage(receipt, today).1 + reserved + extra <= max
  {
  }

  /** A healthy process admits exactly what fits: the durable charge of the receipt day, all reservations and the amount
      asked for are together within the limit. */
  lemma {:induction false} AdmissionIsRoom(l: Ledger, extra: nat, today: int)
    requires Accounted(l) && !l.failed
    ensures CanReserve(l.max, l.receipt, l.reservedBytes, extra, today)
            <==> Spent(l.initial, l.history, today) + l.reservedBytes + extra <= l.max
  {
    DurableOfLatest(l.max, l.initial, l.history, today);
    CanReserveIsSum(l.max, l.receipt, l.reservedBytes, extra, today);
  }

  /** ... in every run with a steady clock. */
  lemma {:induction false} ReachedRoom(max: nat, initial: Option<Receipt>, events: seq<Event>, l: Ledger, extra: nat,
                                       today: int)
    requires Reached(max, initial, events, l) && Steady(events) && !l.failed
    ensures CanReserve(max, l.receipt, l.reservedBytes, extra, today)
            <==> Spent(initial, l.history, today) + l.reservedBytes + extra <= max
  {
    assert RunsTo(max, initial, events, Some(l));
    RunKeepsAccounts(Open(max, initial), events);
    AdmissionIsRoom(l, extra, today);
  }

  ghost predicate Steady(events: seq<Event>) { forall e :: e in events ==> ClockSteady(e) }

  lemma {:induction false} RunKeepsAccounts(l: Ledger, events: seq<Event>)
    requires Valid(l) && Accounted(l) && Steady(events)
    ensures Run(l, events).Some? ==> Accounted(Run(l, events).value)
  {
    if events != [] {
      var front, last := events[..|events| - 1], events[|events| - 1];
      assert last in events && forall e :: e in front ==> e in events;
      RunKeepsAccounts(l, front);
      if Run(l, events).Some? { StepKeepsAccounts(Run(l, front).value, last); }
    }
  }

  /** All that was charged to a day, and what of it paid for mail that reached HEAD. */
  function Charged(history: seq<Charge>, day: int): nat {
    if history == [] then 0
    else Charged(history[..|history| - 1], day)
         + if history[|history| - 1].day == day then history[|history| - 1].amount else 0
  }

  function Delivered(history: seq<Charge>, day: int): nat {
    if history == [] then 0
    else Delivered(history[..|history| - 1], day)
         + if history[|history| - 1].day == day && history[|history| - 1].landed
           then history[|history| - 1].amount else 0
  }

  lemma {:induction false} DurableIsSum(max: nat, initial: Option<Receipt>, history: seq<Charge>, day: int)
    requires Sound(max, initial, history)
    ensures Durable(initial, history, day) == InitialCharge(initial, day) + Charged(history, day)
    ensures Delivered(history, day) <= Charged(history, day)
    ensures Charged(history, day) > 0 ==> Durable(initial, history, day) <= max
  {
    if history != [] { DurableIsSum(max, initial, history[..|history| - 1], day); }
  }

  lemma {:induction false} TotalsAndDays(max: nat, initial: Option<Receipt>, history: seq<Charge>, i: nat, j: nat)
    requires Sound(max, initial, history) && i <= j < |history|
    ensures history[i].day <= history[j].day && history[j].total <= max
    ensures initial.Some? ==> initial.value.day <= history[j].day
    decreases |history|
  {
    var n := |history| - 1;
    if j < n {
      TotalsAndDays(max, initial, history[..n], i, j);
    } else if i < n {
      TotalsAndDays(max, initial, history[..n], i, n - 1);
    } else if n > 0 {
      TotalsAndDays(max, initial, history[..n], n - 1, n - 1);
    }
  }

  /** A publication adds at most one charge, of what its message costs, and never shows a message without one. */
  ghost predicate Pays(before: seq<Charge>, after: seq<Charge>, octets: nat, visible: bool) {
    if after == before then !visible
    else |after| == |before| + 1 && before <= after
         && after[|before|].amount == ChargeFor(octets) && after[|before|].landed == visible
  }

  /** The budget theorem. However sessions interleave, whatever fails, and however often the process restarts:
      every receipt Publish writes is within the limit and receipt days never fall; a day's durable charge is the
      initial receipt plus everything charged to it, of which the charges that landed are a part; and a day whose
      initial receipt is within the limit never exceeds it. */
  lemma {:induction false} BudgetHolds(max: nat, initial: Option<Receipt>, events: seq<Event>, day: int)
    requires max <= MAX_INT63 && Steady(events) && Run(Open(max, initial), events).Some?
    ensures var l := Run(Open(max, initial), events).value;
      && (forall i, j :: 0 <= i <= j < |l.history| ==>
            l.history[i].day <= l.history[j].day && l.history[j].total <= max)
      && Durable(initial, l.history, day) == InitialCharge(initial, day) + Charged(l.history, day)
      && Delivered(l.history, day) <= Charged(l.history, day)
      && (InitialCharge(initial, day) <= max ==> Durable(initial, l.history, day) <= max)
      && (l.file.Some? ==> l.file.value.charged == Durable(initial, l.history, l.file.value.day))
  {
    var start := Open(max, initial);
    var l := Run(start, events).value;
    RunKeepsAccounts(start, events);
    forall i, j | 0 <= i <= j < |l.history| ensures l.history[i].day <= l.history[j].day && l.history[j].total <= max {
      TotalsAndDays(max, initial, l.history, i, j);
    }
    DurableIsSum(max, initial, l.history, day);
  }

  /** A finished message stays finished and holds nothing, whatever anybody does next. */
  lemma {:induction false} DoneIsForever(l: Ledger, events: seq<Event>, token: nat)
    requires Valid(l) && token < |l.stages| && l.stages[token].done && Run(l, events).Some?
    ensures var r := Run(l, events).value; token < |r.stages| && r.stages[token].done && r.stages[token].reserved == 0
  {
    if events == [] {
      assert StageOk(l.stages[token]);
    } else {
      var front, last := events[..|events| - 1], events[|events| - 1];
      DoneIsForever(l, front, token);
      StepKeepsDone(Run(l, front).value, last, token);
    }
  }

  lemma {:induction false} StepKeepsDone(l: Ledger, e: Event, token: nat)
    requires Valid(l) && Enabled(l, e) && token < |l.stages| && l.stages[token].done && l.stages[token].reserved == 0
    ensures token < |Apply(l, e).stages| && Apply(l, e).stages[token].done && Apply(l, e).stages[token].reserved == 0
  {
  }

  // ---------------------------------------------------------------- one DATA command

  /** How a DATA command that obtained a staged message can end: a stage error or a policy refusal discards it,
      and a publish error discards it too. */
  datatype Ending = StageError | PolicyRefusal | PublishOutcome(day1: int, day2: int, refused: bool,
                                                               write: WriteOutcome, commit: CommitOutcome)

  /** Publish reports success only when the commit was confirmed. */
  predicate Succeeds(l: Ledger, token: nat, ending: Ending)
    requires token < |l.stages|
  {
    ending.PublishOutcome? && Admits(l, token, ending.day1) && !ending.refused
    && ending.write.Written? && ending.commit.Confirmed?
  }

  /** The ledger when the DATA command has answered. */
  function AnswerData(l: Ledger, token: nat, ending: Ending): Ledger
    requires Valid(l) && token < |l.stages|
  {
    StageBounds(l);
    match ending
    case StageError => Release(l, token)
    case PolicyRefusal => Release(l, token)
    case PublishOutcome(day1, day2, refused, write, commit) =>
      var published := PublishStage(l, token, day1, day2, refused, write, commit);
      PublishKeepsValid(l, token, day1, day2, refused, write, commit);
      StageBounds(published);
      if Succeeds(l, token, ending) then published else Release(published, token)
  }

  /** Every outcome of DATA returns exactly its own reservation. */
  lemma {:induction false} DataReturnsReservation(l: Ledger, token: nat, ending: Ending)
    requires Valid(l) && token < |l.stages|
    ensures var r := AnswerData(l, token, ending);
      && Valid(r) && r.stages[token].done
      && r.reservedBytes == l.reservedBytes - l.stages[token].reserved
      && (forall i :: 0 <= i < |l.stages| && i != token ==> r.stages[i] == l.stages[i])
  {
    StageBounds(l);
    ReleaseKeepsValid(l, token);
    if ending.PublishOutcome? {
      var published := PublishStage(l, token, ending.day1, ending.day2, ending.refused, ending.write, ending.commit);
      PublishKeepsValid(l, token, ending.day1, ending.day2, ending.refused, ending.write, ending.commit);
      StageBounds(published);
      ReleaseKeepsValid(published, token);
    }
  }

  // ---------------------------------------------------------------- where the clock matters

  /** A publication with these clock readings keeps the receipt within the limit if it is admitted. */
  predicate StaysWithin(l: Ledger, token: nat, day1: int, day2: int) {
    token < |l.stages| && Admits(l, token, day1) ==> NextReceipt(l, token, day2).charged <= l.max
  }

  /** The clock assumption of the budget theorem is exact: a pair of readings keeps every admitted publication of every
      run within the limit if and only if the second is not an earlier day than the first. Otherwise it takes one
      staged message, on a store opened on a full receipt of the second day. */
  lemma {:induction false} SteadyClockIsExact(max: nat, day1: int, day2: int)
    requires MINIMUM_CHARGE <= max <= MAX_INT63
    ensures day1 <= day2 <==>
      forall initial: Option<Receipt>, events: seq<Event>, token: nat :: Run(Open(max, initial), events).Some?
        ==> StaysWithin(Run(Open(max, initial), events).value, token, day1, day2)
    ensures day1 > day2 ==> !StaysWithin(BeginStage(Open(max, Some(Receipt(day2, max))), day1), 0, day1, day2)
  {
    if day1 <= day2 {
      forall initial: Option<Receipt>, events: seq<Event>, token: nat | Run(Open(max, initial), events).Some?
        ensures StaysWithin(Run(Open(max, initial), events).value, token, day1, day2)
      {
        var l := Run(Open(max, initial), events).value;
        if token < |l.stages| && Admits(l, token, day1) { AdmittedFits(l, token, day1, day2); }
      }
    } else {
      OverrunByRollback(max, day1, day2);
      RunOfOne(Open(max, Some(Receipt(day2, max))), Begin(day1));
    }
  }

  lemma {:induction false} OverrunByRollback(max: nat, day1: int, day2: int)
    requires MINIMUM_CHARGE <= max <= MAX_INT63 && day1 > day2
    ensures !StaysWithin(BeginStage(Open(max, Some(Receipt(day2, max))), day1), 0, day1, day2)
  {
    assert NextReceipt(BeginStage(Open(max, Some(Receipt(day2, max))), day1), 0, day2).charged == max + MINIMUM_CHARGE;
  }

  lemma {:induction false} RunOfOne(l: Ledger, e: Event)
    requires Valid(l) && Enabled(l, e)
    ensures Run(l, [e]) == Some(Apply(l, e))
  {
    assert [e][..0] == [];
  }

  /** A rollback between steps can leave used plus reserved above the limit, which is why Publish asks again:
      it then refuses. */
  lemma {:induction false} RollbackBetweenDaysOvercommits(max: nat, day: int)
    requires MINIMUM_CHARGE <= max <= MAX_INT63
    ensures var l := BeginStage(Open(max, Some(Receipt(day, max))), day + 1);
      && |l.stages| == 1 && Usage(l.receipt, day).1 + l.reservedBytes > max
      && !Admits(l, 0, day) && Admits(l, 0, day + 1)
  {
  }
}
