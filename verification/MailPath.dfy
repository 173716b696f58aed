/** The way of a message through the whole system: what the contracts of the DATA command, the archive and the POP3
    session say together. */
module MailPath {
  import opened Prelude
  import opened Text
  import opened IdPath
  import opened Lines
  import opened Commits
  import opened Updates
  import opened SmtpData
  import opened Pop3Stream
  import opened Pop3Replies
  import opened Pop3Session
  import opened SmtpReceive

  lemma {:induction false} PlainParts(a: string, b: string, c: string)
    requires Unbroken(a) && Alphanumeric(b) && Unbroken(c)
    ensures Unbroken(a + b + c)
  {
  }

  lemma {:induction false} GreetingIsPlain(size: uint64)
    ensures Unbroken(OK + " " + Pair(size, "octets"))
  {
    FormatAlphabet(size, 10);
    PlainParts(OK + " ", FormatUint(size, 10), " octets");
    assert OK + " " + Pair(size, "octets") == OK + " " + FormatUint(size, 10) + " octets";
  }

  /** A message that arrived in commit i has its octets in every commit that shows its ID. */
  lemma {:induction false} StoredForGood(commits: seq<Commit>, lives: seq<seq<Message>>, i: nat, j: nat, m: Message,
                                         content: Bytes)
    requires History(commits, lives) && 0 < i < |commits| && j < |commits|
    requires AppendsAt(commits, lives, i, content) && m in lives[j] && m.id == commits[i].state.lastID
    ensures m.path in commits[j].tree && commits[j].tree[m.path] == content
  {
    var id := commits[i].state.lastID;
    var first := Message(id, |content|, MessagePath(id, |content|));
    assert lives[i][|lives[i]| - 1] == first;
    IdNamesOneMessage(commits, lives, i, j, first, m);
  }

  /** A message that DATA showed in commit `from` is what RETR sends, behind the delivery headers and octet for octet,
      to every session pinned to a commit that still has it: however many other messages came and went, and whatever
      failed or restarted in between. */
  lemma {:induction false} DeliveredIsRetrieved(
      commits: seq<Commit>, lives: seq<seq<Message>>, from: nat, to: nat, message: Bytes, headers: Bytes, max: nat,
      afterData: Bytes, j: nat, n: nat, reply: Reply, afterReply: Bytes)
    requires History(commits, lives) && from < to
    requires Own(commits, lives, from, to, headers + Decode(Stuff(message) + END + afterData, 0, max).output)
    requires Decode(Stuff(message) + END + afterData, 0, max).end.Complete?
    requires CrlfLined(message) && (headers == [] || EndsLF(headers))
    requires j < |commits| && 1 <= n <= |lives[j]| && lives[j][n - 1].id == commits[from].state.lastID
    requires Sends(reply, commits[j], lives[j][n - 1], None)
    ensures reply.Block? && ClientBlock(reply.octets + afterReply) == Some((headers + message, afterReply))
  {
    assert SendsTop(reply, commits[j], lives[j][n - 1], None);
    AcceptsExactly(message, afterData, 0, max);
    var m := lives[j][n - 1];
    var stored := EndToEnd(message, headers, max, afterData, afterReply);
    assert AppendsAt(commits, lives, from, stored);
    StoredForGood(commits, lives, from, j, m, stored);
    GreetingIsPlain(m.size);
    StatusAside(Greeting(m, None), Transparent(Shown(stored, None)), afterReply);
  }
}
