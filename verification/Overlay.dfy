/** The view a POP3 session shows of its maildrop: a live list with some of its messages marked. */
module Overlay {
  import opened Prelude
  import opened IdPath
  import opened LiveMail
  import opened Mailbox

  /** Message numbers run from one to the length of the list. */
  ghost predicate Marks(marks: set<uint64>, live: seq<Message>) {
    forall n :: n in marks ==> 1 <= n <= |live|
  }

  /** The rows of the first k messages that are not marked. */
  ghost function Visible(live: seq<Message>, marks: set<uint64>, k: nat): seq<Row>
    requires k <= |live|
  {
    if k == 0 then []
    else Visible(live, marks, k - 1) + if k in marks then [] else [RowOf(k - 1, live[k - 1])]
  }

  ghost function View(live: seq<Message>, marks: set<uint64>): seq<Row> { Visible(live, marks, |live|) }

  ghost function RowOctets(rows: seq<Row>): nat {
    if rows == [] then 0 else RowOctets(rows[..|rows| - 1]) + rows[|rows| - 1].size
  }

  /** The octets of the marked messages among the first k. */
  ghost function MarkedOctets(live: seq<Message>, marks: set<uint64>, k: nat): nat
    requires k <= |live|
  {
    if k == 0 then 0 else MarkedOctets(live, marks, k - 1) + if k in marks then live[k - 1].size else 0
  }

  ghost function MarkedIds(live: seq<Message>, marks: set<uint64>): set<uint64>
    requires Marks(marks, live)
  {
    set n | n in marks :: live[n - 1].id
  }

  ghost function OctetsUpTo(live: seq<Message>, k: nat): nat
    requires k <= |live|
  {
    if k == 0 then 0 else OctetsUpTo(live, k - 1) + live[k - 1].size
  }

  lemma {:induction false} OctetsOfFront(live: seq<Message>, k: nat)
    requires k <= |live|
    ensures Octets(live[..k]) == OctetsUpTo(live, k)
  {
    if k > 0 {
      assert live[..k][..k - 1] == live[..k - 1];
      OctetsOfFront(live, k - 1);
    }
  }

  /** Shown and marked octets make up the whole. */
  lemma {:induction false} OctetsSplit(live: seq<Message>, marks: set<uint64>, k: nat)
    requires k <= |live|
    ensures RowOctets(Visible(live, marks, k)) + MarkedOctets(live, marks, k) == OctetsUpTo(live, k)
  {
    if k > 0 {
      OctetsSplit(live, marks, k - 1);
      RowOctetsSnoc(Visible(live, marks, k - 1), RowOf(k - 1, live[k - 1]));
    }
  }

  lemma {:induction false} RowOctetsSnoc(rows: seq<Row>, row: Row)
    ensures RowOctets(rows + [row]) == RowOctets(rows) + row.size && rows + [] == rows
  {
    assert (rows + [row])[..|rows|] == rows;
  }

  /** Shown and marked messages make up the whole. */
  lemma {:induction false} CountSplit(live: seq<Message>, marks: set<uint64>, k: nat)
    requires k <= |live|
    ensures |Visible(live, marks, k)| + |set n: uint64 | n in marks && 1 <= n <= k| == k
  {
    var below := set n: uint64 | n in marks && 1 <= n <= k;
    if k == 0 {
      assert below == {};
    } else {
      CountSplit(live, marks, k - 1);
      var before := set n: uint64 | n in marks && 1 <= n <= k - 1;
      if k in marks { assert below == before + {k}; } else { assert below == before; }
    }
  }

  /** What STAT computes by subtraction is the count and the octets of the listing. */
  lemma {:induction false} StatIsListing(live: seq<Message>, marks: set<uint64>)
    requires Marks(marks, live)
    ensures |View(live, marks)| == |live| - |marks|
    ensures RowOctets(View(live, marks)) == Octets(live) - MarkedOctets(live, marks, |live|)
  {
    OctetsSplit(live, marks, |live|);
    OctetsOfFront(live, |live|);
    assert live[..|live|] == live;
    CountSplit(live, marks, |live|);
    assert marks == set n: uint64 | n in marks && 1 <= n <= |live|;
  }

  /** Marking one more message adds its octets and takes its row away. */
  lemma {:induction false} MarkOne(live: seq<Message>, marks: set<uint64>, n: uint64, k: nat)
    requires 1 <= n <= |live| && n !in marks && k <= |live|
    ensures MarkedOctets(live, marks + {n}, k) == MarkedOctets(live, marks, k) + if n <= k then live[n - 1].size else 0
  {
    if k > 0 { MarkOne(live, marks, n, k - 1); }
  }

  /** Marked octets are part of the maildrop's octets. */
  lemma {:induction false} MarkedWithin(live: seq<Message>, marks: set<uint64>)
    ensures MarkedOctets(live, marks, |live|) <= Octets(live)
  {
    OctetsSplit(live, marks, |live|);
    OctetsOfFront(live, |live|);
    assert live[..|live|] == live;
  }

  lemma {:induction false} NothingMarked(live: seq<Message>, k: nat)
    requires k <= |live|
    ensures MarkedOctets(live, {}, k) == 0 && |Visible(live, {}, k)| == k
    ensures forall i :: 0 <= i < k ==> Visible(live, {}, k)[i] == RowOf(i, live[i])
  {
    if k > 0 { NothingMarked(live, k - 1); }
  }

  /** A message number is in the view exactly when the maildrop has it and it is not marked. */
  lemma {:induction false} ViewMember(live: seq<Message>, marks: set<uint64>, k: nat, row: Row)
    requires k <= |live|
    ensures row in Visible(live, marks, k) <==>
            1 <= row.number <= k && row.number !in marks && row == RowOf(row.number - 1, live[row.number - 1])
  {
    if k > 0 { ViewMember(live, marks, k - 1, row); }
  }

  /** Deleting the marked messages leaves exactly the messages the view showed. */
  lemma {:induction false} ViewSurvives(live: seq<Message>, marks: set<uint64>, row: Row)
    requires IdList(live) && Marks(marks, live) && |live| <= MAX64
    ensures row in View(live, marks) <==>
            1 <= row.number <= |live| && row == RowOf(row.number - 1, live[row.number - 1])
            && live[row.number - 1] in Without(live, MarkedIds(live, marks))
  {
    ViewMember(live, marks, |live|, row);
    if 1 <= row.number <= |live| { Survives(live, marks, row.number); }
  }

  lemma {:induction false} Survives(live: seq<Message>, marks: set<uint64>, n: uint64)
    requires IdList(live) && Marks(marks, live) && 1 <= n <= |live|
    ensures live[n - 1] in Without(live, MarkedIds(live, marks)) <==> n !in marks
  {
    WithoutMembers(live, MarkedIds(live, marks));
    assert live[n - 1] in live;
    forall m | m in marks && live[m - 1].id == live[n - 1].id ensures m == n { SameNumber(live, m, n); }
    assert n in marks ==> live[n - 1].id in MarkedIds(live, marks);
  }

  lemma {:induction false} SameNumber(live: seq<Message>, m: nat, n: nat)
    requires IdList(live) && 1 <= m <= |live| && 1 <= n <= |live| && live[m - 1].id == live[n - 1].id
    ensures m == n
  {
    assert m < n ==> ById(live[m - 1], live[n - 1]);
    assert n < m ==> ById(live[n - 1], live[m - 1]);
  }
}
