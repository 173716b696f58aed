/** The link between the archive and the receipt budget: which durable charge paid for which visible message. */
module Payments {
  import opened Prelude
  import opened IdPath
  import opened Commits
  import opened Budget
  import opened Updates

  /** The charges whose message reached HEAD, in order. */
  function Landings(history: seq<Charge>): seq<Charge> {
    if history == [] then []
    else Landings(history[..|history| - 1]) + if history[|history| - 1].landed then [history[|history| - 1]] else []
  }

  ghost predicate PaidAt(arrivals: seq<Message>, landings: seq<Charge>, k: nat)
    requires k < |arrivals| && k < |landings|
  {
    landings[k].amount == ChargeFor(arrivals[k].size)
  }

  /** One charge for every arrival, of what that message costs, and no other charge landed. */
  ghost predicate Matched(arrivals: seq<Message>, landings: seq<Charge>) {
    |arrivals| == |landings| && forall k :: 0 <= k < |arrivals| ==> PaidAt(arrivals, landings, k)
  }

  ghost predicate PaidBy(commits: seq<Commit>, lives: seq<seq<Message>>, history: seq<Charge>)
    requires |commits| == |lives|
  {
    Matched(Arrivals(commits, lives), Landings(history))
  }

  /** Every message that ever arrived in this history of commits was paid for by a charge of its own. (The quantifier
      says PaidBy of `history` itself; it keeps the definition folded until a proof names it.) */
  ghost predicate Paid(commits: seq<Commit>, lives: seq<seq<Message>>, history: seq<Charge>) {
    |commits| == |lives| && forall h :: h == history ==> PaidBy(commits, lives, h)
  }

  /** The later history shows no message that the earlier one had not. */
  ghost predicate NoArrival(commits: seq<Commit>, lives: seq<seq<Message>>, after: seq<Commit>,
                            livesAfter: seq<seq<Message>>) {
    if after == commits then livesAfter == lives
    else
      && |after| == |livesAfter| == |commits| + 1 && |commits| > 0 && commits <= after && lives <= livesAfter
      && after[|commits|].state.lastID == commits[|commits| - 1].state.lastID
  }

  /** What the messages charged to a day cost. */
  ghost function Due(arrivals: seq<Message>, landings: seq<Charge>, day: int): nat
    requires |arrivals| == |landings|
  {
    if arrivals == [] then 0
    else
      var n := |arrivals| - 1;
      Due(arrivals[..n], landings[..n], day) + if landings[n].day == day then ChargeFor(arrivals[n].size) else 0
  }

  lemma {:induction false} MatchedFront(arrivals: seq<Message>, landings: seq<Charge>)
    requires Matched(arrivals, landings) && arrivals != []
    ensures Matched(arrivals[..|arrivals| - 1], landings[..|landings| - 1])
    ensures landings[|landings| - 1].amount == ChargeFor(arrivals[|arrivals| - 1].size)
  {
    var n := |arrivals| - 1;
    assert PaidAt(arrivals, landings, n);
    forall k | 0 <= k < n ensures PaidAt(arrivals[..n], landings[..n], k) { assert PaidAt(arrivals, landings, k); }
  }

  lemma {:induction false} MatchedMore(arrivals: seq<Message>, landings: seq<Charge>, m: Message, charge: Charge)
    requires Matched(arrivals, landings) && charge.amount == ChargeFor(m.size)
    ensures Matched(arrivals + [m], landings + [charge])
  {
    forall k | 0 <= k < |arrivals| + 1 ensures PaidAt(arrivals + [m], landings + [charge], k) {
      assert k < |arrivals| ==> PaidAt(arrivals, landings, k);
    }
  }

  /** The charges that landed on a day are what the day's arrivals cost. */
  lemma {:induction false} DueIsDelivered(arrivals: seq<Message>, history: seq<Charge>, day: int)
    requires Matched(arrivals, Landings(history))
    ensures Due(arrivals, Landings(history), day) == Delivered(history, day)
  {
    if history != [] {
      var front, last := history[..|history| - 1], history[|history| - 1];
      if last.landed {
        MatchedFront(arrivals, Landings(history));
        assert Landings(history)[..|Landings(history)| - 1] == Landings(front);
        DueIsDelivered(arrivals[..|arrivals| - 1], front, day);
      } else {
        assert Landings(history) == Landings(front);
        DueIsDelivered(arrivals, front, day);
      }
    }
  }

  lemma {:induction false} LandingsSnoc(before: seq<Charge>, after: seq<Charge>)
    requires |after| == |before| + 1 && before <= after
    ensures Landings(after) == if after[|before|].landed then Landings(before) + [after[|before|]] else Landings(before)
  {
    assert after[..|after| - 1] == before;
  }

  lemma {:induction false} ArrivalsSnoc(commits: seq<Commit>, lives: seq<seq<Message>>, after: seq<Commit>,
                                        livesAfter: seq<seq<Message>>)
    requires |commits| == |lives| > 0 && |after| == |livesAfter| == |commits| + 1
    requires commits <= after && lives <= livesAfter
    requires livesAfter[|lives|] != []
    ensures after[|commits|].state.lastID != commits[|commits| - 1].state.lastID ==>
      Arrivals(after, livesAfter) == Arrivals(commits, lives) + [livesAfter[|lives|][|livesAfter[|lives|]| - 1]]
  {
    assert after[..|commits|] == commits && livesAfter[..|lives|] == lives;
  }

  /** A publication that shows its message has charged for it, and one that shows nothing has landed nothing. */
  lemma {:induction false} PublicationPays(commits: seq<Commit>, lives: seq<seq<Message>>, after: seq<Commit>,
                                           livesAfter: seq<seq<Message>>, before: seq<Charge>, history: seq<Charge>,
                                           content: Bytes, visible: bool)
    requires Paid(commits, lives, before) && Published(commits, lives, after, livesAfter, content, visible)
    requires Pays(before, history, |content|, visible)
    ensures Paid(after, livesAfter, history)
  {
    assert PaidBy(commits, lives, before);
    if history != before { LandingsSnoc(before, history); }
    if visible {
      var n := |commits|;
      assert AppendsAt(after, livesAfter, n, content);
      ArrivalsSnoc(commits, lives, after, livesAfter);
      var m := livesAfter[n][|livesAfter[n]| - 1];
      MatchedMore(Arrivals(commits, lives), Landings(before), m, history[|before|]);
    }
  }

  /** A commit that allocates no ID needs no charge. */
  lemma {:induction false} NoIdNoCharge(commits: seq<Commit>, lives: seq<seq<Message>>, after: seq<Commit>,
                                        livesAfter: seq<seq<Message>>, history: seq<Charge>)
    requires Paid(commits, lives, history) && NoArrival(commits, lives, after, livesAfter)
    ensures Paid(after, livesAfter, history)
  {
    assert PaidBy(commits, lives, history);
    if after != commits {
      assert after[..|commits|] == commits && livesAfter[..|lives|] == lives;
      assert Arrivals(after, livesAfter) == Arrivals(commits, lives) + [] == Arrivals(commits, lives);
    }
  }

  /** Every message that was ever visible after the first commit has its own landed charge of max(4096, size). */
  lemma {:induction false} VisibleMailIsPaid(commits: seq<Commit>, lives: seq<seq<Message>>, history: seq<Charge>,
                                             j: nat, m: Message)
    requires History(commits, lives) && Paid(commits, lives, history)
    requires j < |commits| && m in lives[j] && m !in lives[0]
    ensures var first := commits[0].state.lastID;
            first < m.id <= first + |Landings(history)|
            && Landings(history)[m.id - first - 1].amount == ChargeFor(m.size)
  {
    assert PaidBy(commits, lives, history);
    VisibleMailArrived(commits, lives, j, m);
    assert PaidAt(Arrivals(commits, lives), Landings(history), m.id - commits[0].state.lastID - 1);
  }
}
