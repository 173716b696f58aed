# picomx: proofs about the mail path

picomx receives mail over SMTP, keeps it in a bare Git repository and serves it over POP3. This project models the
parts of it that are hard to get right and proves what they are for:

- **The archive** (`internal/archive`). Live mail is a tree of message files, fanned out in base 1024, in a chain of
  commits; memory holds one count per directory. `LiveMail.dfy` defines the simple thing, one commit's live messages
  as a sequence in ID order. `IdPath.dfy`, `Directories.dfy`, `DirectoryCounts.dfy` and `Tally.dfy` prove that the
  paths, the counts and the rank index say the same; `Tree.dfy` and `Mailbox.dfy` prove that every reader is a view of
  that sequence; `Commits.dfy`, `Updates.dfy` and `Store.dfy` prove that appending, deleting, failing and restarting
  keep it so over every run. A commit is refused, confirmed, or left uncertain with HEAD moved or not.
- **The receipt budget.** `Budget.dfy` is the reservation and charging protocol as interleaved lock-atomic steps of
  any number of sessions, with a clock that may move both ways and a process that may stop between any two durable
  writes. `Store.dfy` contains the methods that take these steps, each proved equal to a step of the protocol.
  `Payments.dfy` ties the two halves together: in every store that a run can reach (`Archive.Store.Ready`) each message
  that ever arrived, whoever published it, has a durable charge of its own.
- **The octets.** `Lines.dfy`, `SmtpData.dfy` and `Pop3Stream.dfy` are the two directions of dot transparency;
  `SmtpReceive.dfy` is the whole DATA command against the store; `Pop3Commands.dfy` and `Pop3Replies.dfy` are what a
  client may send and what it reads; `Overlay.dfy` and `Pop3Session.dfy` are the POP3 session over its pinned snapshot,
  up to whole sessions; `MailPath.dfy` puts them together: what DATA accepted is what RETR sends. In commands and sessions other sessions act between any two critical
  sections: they stage, stream, discard, publish and delete.
- **The readers' machinery.** `Cache.dfy` and `CachedDirectory.dfy` (least recently used, content addressed),
  `TreeObject.dfy` (Git's tree encoding), `LeafObject.dfy` (a directory from those octets) and `BlobReader.dfy` (the
  framing of `git cat-file --batch-command`).

Objects whose methods change fields are classes whose methods state the whole new state: `Archive.Store`,
`Archive.StagedMessage`, `SmtpData.DataReader`, `Pop3Session.Session`, `Cache.DirectoryCache`, `BlobReader.Reader`.
Loops of the source are loops here. Commits are identified by their position in HEAD's ancestry. Outcomes the code
cannot decide (clock readings, the fate of a file write or of a commit, the policy's decision, the verdict on a
password, what other sessions do between two critical sections) are parameters, so a theorem holds for all of them.

`dafny verify dfyconfig.toml` checks everything.

## What came out false, and exactly when it holds

- **A failed commit can leave memory that describes no commit.** When the commit reaches HEAD and the time limit of
  the Git call expires afterwards (`internal/archive/deadline.go:19-40`, `internal/archive/import.go:218-221`, `324`),
  the store keeps the new head with the old index. `Archive.Store.CommitAppend` and `Archive.Store.DeleteLocked` state
  it exactly: after an append or a deletion memory mirrors the commit it names if and only if that did not happen.
  Only `Restart` helps; the reader theorems are about snapshots taken while nothing had failed.
- **The DATA line limit counts the doubled dot.** Section 4.5.3.1.6 of RFC 5321 allows 1000 octets without it.
  `SmtpData.StuffedDotCounts`: a line of exactly 1000 octets is accepted if and only if it does not start with a dot.
  `SmtpData.AcceptsExactly` gives the condition for whole messages: every stuffed line, and the message, within limits.
- **The budget needs the clock to stand still inside one Publish.** It reads the clock twice
  (`internal/archive/store.go:211`, `245`). `Budget.SteadyClockIsExact`: every admitted publication of every run stays
  within the limit if and only if the second reading is no earlier day than the first; one staged message on a store
  opened on a full receipt is a run that shows it. Between publications the clock is free;
  `Budget.RollbackBetweenDaysOvercommits` shows why Publish asks again.
- **An accepted directory may be out of reach.** `validDirectory` holds only full sets of digits against the largest
  ID (`internal/archive/directories.go:38-44`). `DirectoryCounts.InnerHasLeaf`: an accepted directory has a leaf of
  64-bit IDs below it if and only if its least leaf is not too large; `7/010` is accepted and has none
  (`DirectoryCounts.EmptyInnerDirectory`). Count maps are not affected, since every directory in an index has mail.
- **The path belongs in the cache key.** `CachedDirectory.PathIsNeededFor`: two messages of one size whose IDs differ by
  a multiple of 1024 (1 and 1025 in `CachedDirectory.PathIsNeededForOne`) make equal trees with different listings.

`docs/policy-api.md:92-109` still describes deleted ID ranges; the code keeps directory counts, and so does the model.

## Model

| member | source | states |
|---|---|---|
| IdPath.MessageRelativePath | internal/archive/idpath.go:14-35 | zero has no path; any other ID is spelled as its depth and its base-1024 digits, most significant first |
| IdPath.MessageIDFromPath | internal/archive/idpath.go:37-55 | accepts a path if and only if it is the canonical path of some non-zero 64-bit ID, and returns that ID |
| IdPath.MessagePathInjective | internal/archive/idpath.go:58-64 | different IDs or sizes never share a path |
| IdPath.MessageFromPath | internal/archive/idpath.go:66-85 | accepts exactly the canonical paths of messages and returns the message, so parsing and printing are inverse both ways |
| IdPath.FmtDigitIsPaddedNumeral | internal/archive/directories.go:47-50 | the three-character digit is the hexadecimal numeral padded with zeros, with no negative repeat count |
| IdPath.LeafOrderIsIdOrder | internal/archive/directories.go:66 | string order of leaf directories, across all depths, is numeric order of the IDs in them |
| IdPath.DirOfMessagePath | internal/archive/mailbox.go:65-66 | the parent directory of a message's path is the leaf directory of its ID |
| Directories.ValidDirectory | internal/archive/directories.go:27-45 | accepts exactly the canonical names of depth one to seven with fewer digits than the depth, and calls a leaf exactly the parents of 64-bit IDs, depth seven included |
| DirectoryCounts.InnerHasLeaf | internal/archive/directories.go:27-45 | an accepted directory has a 64-bit ID below it if and only if its least leaf prefix is within the largest one |
| DirectoryCounts.EmptyInnerDirectory | internal/archive/directories.go:27-45 | 7/010 is accepted and no 64-bit ID lives below it |
| Directories.DirPathInjective | internal/archive/directories.go:27-45 | depth and prefix are determined by the path |
| DirectoryCounts.Raise | internal/archive/directories.go:75-77 | raises every ancestor by the amount and nothing else, without wrapping; adding one message (lines 108-113) is the case of one |
| DirectoryCounts.Remove | internal/archive/directories.go:115-129 | fails exactly when some ancestor has nothing left; otherwise lowers exactly the ancestors by one and drops empty ones |
| DirectoryCounts.BuildDirectoryIndex | internal/archive/directories.go:52-88 | succeeds if and only if the map is the roll-up of a positive leaf map within fanout and at most lastID messages; the result is sorted with exact prefix sums |
| DirectoryCounts.IndexUnique | internal/archive/directories.go:52-88 | a count map has at most one index, whatever last IDs it is built for |
| DirectoryCounts.SelectLeaf | internal/archive/directories.go:90-98 | finds the leaf and the offset of exactly the numbers 1 to total |
| LiveMail.LeafOwnsRun | internal/archive/directories.go:66-78 | a leaf holds exactly the positions of the live list between its prefix sums |
| LiveMail.TableIsIndex | internal/archive/directories.go:52-88 | the histogram of a live list always has an index, and it is the one read off the list |
| LiveMail.FanoutIsCapacity | internal/archive/directories.go:59-62 | the bound on a leaf's count is exactly the number of different messages that can be in it, zero excluded |
| LiveMail.WithoutOneMore | internal/archive/mailbox.go:166-175 | taking a live message away lowers exactly its ancestors by one and the octets by its size |
| Tree.Directory | internal/archive/tree.go:67-89 | returns the ID-ordered listing of a directory of message files if there is one, and an error exactly otherwise |
| Tree.ListingUnique | internal/archive/tree.go:82-87 | a directory has at most one listing |
| Commits.LeafListing | internal/archive/mailbox.go:51-58 | listing leaf i of a coherent commit yields the i-th run of its live list |
| Commits.AppendedIsCoherent | internal/archive/store.go:227-257 | what Publish commits is coherent with one message more and only grows the history |
| Commits.ReducedIsCoherent | internal/archive/mailbox.go:163-195 | what a deletion commits is coherent with the messages gone, under the same last ID |
| Commits.OldMailOnlyShrinks | internal/archive/import.go:245-249 | between two commits of a history, mail with old IDs is old mail with its old octets |
| Commits.IdNamesOneMessage | internal/archive/store.go:217-230 | no ID in a history ever denotes two messages or two contents, across failures and restarts |
| Commits.VisibleMailArrived | internal/archive/store.go:217-230 | every message of every commit was there from the start or is the one arrival of its ID |
| Mailbox.Lookup | internal/archive/mailbox.go:46-59 | number k gives the k-th smallest live ID with its size for k from 1 to the count; any other k is no such message |
| Mailbox.MessageById | internal/archive/mailbox.go:61-83 | finds an ID if and only if it is live in the snapshot's commit |
| Mailbox.ListAt | internal/archive/mailbox.go:87-111 | visits every live message once, in ID order, numbered from one, and meets no error |
| Mailbox.CompareViews | internal/archive/mailbox.go:46-111 | the three readers are views of one increasing sequence |
| Mailbox.OpenMessage | internal/archive/mailbox.go:203-217 | opens exactly the live messages and returns their octets |
| Mailbox.Resolve | internal/archive/mailbox.go:124-142 | unallocated IDs are an error; otherwise the result is exactly the live messages asked for, in order, once each |
| Mailbox.SnapshotForever | internal/archive/mailbox.go:30-42 | in every later history a snapshot's commit is still there unchanged, and HEAD's old mail is that mail with those octets |
| Budget.CanReserveIsSum | internal/archive/quota.go:34-37 | for any numbers: the three comparisons admit exactly what fits when the amounts are added without wrapping |
| Budget.AdmissionIsRoom | internal/archive/quota.go:25-37 | a healthy process admits exactly what fits beside the durable charge of the receipt day, the later of today and the last receipt's, and all reservations |
| Budget.StepKeepsReservations | internal/archive/quota.go:59-89 | at every lock release the counter is the sum over unfinished messages, each holding max(4096, octets read), and within the limit |
| Budget.StepKeepsAccounts | internal/archive/quota.go:25-37 | every step keeps the receipt file equal to what the receipt writes left, within the limit, its day never falling |
| Budget.BudgetHolds | internal/archive/quota.go:26-37 | over every run with restarts: all receipts within the limit, days monotone, and a day's durable charge is exactly its initial receipt plus all charges to it |
| Payments.PublicationPays | internal/archive/store.go:243-257 | a publication that shows its message has charged max(4096, size) for it, and one that shows nothing has landed no charge |
| Payments.VisibleMailIsPaid | internal/archive/store.go:243-257 | every message visible in any later commit has its own charge, matched by its ID |
| Payments.DueIsDelivered | internal/archive/store.go:245-251 | the charges that landed on a day are what the messages that arrived under it cost |
| Budget.DoneIsForever | internal/archive/quota.go:82-89 | a finished message stays finished and holds nothing, so discarding twice releases once |
| Budget.DataReturnsReservation | internal/smtp/server.go:299-351 | every outcome of DATA returns exactly its own reservation and touches no other |
| Budget.SteadyClockIsExact | internal/archive/store.go:211-246 | admitted publications of all runs stay within the limit if and only if the second clock reading is no earlier day; a run that shows it otherwise |
| Budget.RollbackBetweenDaysOvercommits | internal/archive/store.go:211-213 | a clock rollback can leave used plus reserved above the limit, and Publish then refuses |
| Updates.DecodeMailboxState | internal/archive/state.go:70-86 | accepts a state if and only if it has the version, an index, and no octets without mail |
| Updates.ImportLegacy | internal/archive/git.go:135-174 | succeeds exactly when the octet total agrees; file k becomes message k + 1 with its content, and the commit is coherent |
| Updates.CountRemoved | internal/archive/mailbox.go:166-175 | removing distinct live messages never underflows and leaves the histogram and octets of the rest |
| Updates.AppendExtends | internal/archive/store.go:227-257 | a prepared message extends the history by one commit that shows it last |
| Archive.Store.constructor | internal/archive/git.go:170-175 | a store opened on a coherent first commit is valid |
| Archive.Store.LoadHead | internal/archive/git.go:175-189 | decoding HEAD never fails: memory becomes HEAD's state whatever had failed before |
| Archive.Store.Restart | internal/archive/git.go:175-189 | a new process is healthy, shows HEAD's mail, remembers the receipt and has nothing reserved |
| Archive.Store.TakeSnapshot | internal/archive/mailbox.go:30-42 | a healthy store's snapshot is pinned to HEAD |
| Archive.Store.CommitChanges | internal/archive/import.go:200-230 | the three outcomes of a commit and exactly what each changes; its own refusals are never met |
| Archive.Store.PrepareAppend | internal/archive/store.go:214-237 | refuses exactly when IDs or octets are exhausted; building the new index never fails |
| Archive.Store.CommitAppend | internal/archive/store.go:253-257 | shows one message if and only if HEAD moved; memory mirrors its commit if and only if the store was not poisoned |
| Archive.Store.DeleteLocked | internal/archive/mailbox.go:156-196 | none of its underflow or index errors is met; HEAD's list loses exactly these messages; memory mirrors its commit if and only if the store was not poisoned |
| Archive.Store.DeleteAs | internal/archive/mailbox.go:119-154 | success means one moment at which the newest list became that list less the IDs; concurrent mail and the last ID stay; unallocated IDs change nothing; retries are at most other writers' commits; it succeeds under any interference unless something failed |
| Archive.Store.OtherSessions | internal/archive/store.go:106-259 | any critical sections of other sessions, in any order, keep the store sound, only extend the history, and leave this session's messages alone; each does what it says |
| Archive.Store.CheckReceive | internal/archive/quota.go:41-51 | on a healthy store succeeds if and only if the durable charge of the receipt day, the reservations and 4096 octets are within the limit, as staging at that moment would; names the cause of a refusal |
| Archive.Store.BeginStage | internal/archive/store.go:106-147 | is the protocol's first step: 4096 octets are reserved, exactly when they fit, or nothing changes |
| Archive.Store.Receive | internal/archive/quota.go:59-80 | is the protocol's streaming step: a chunk passes exactly when the growth of max(4096, octets so far) fits, and the file is what passed |
| Archive.Store.Discard | internal/archive/quota.go:82-89 | is the protocol's release step |
| Archive.Store.ChargeReceipt | internal/archive/store.go:245-252 | the receipt is durable before the reservation is released |
| Archive.Store.Publish | internal/archive/store.go:197-259 | is the protocol's publish step and one archive append: a message is visible only after a durable charge of max(4096, size), under the next ID, with its staged content; on a healthy store it succeeds exactly when the budget holds, IDs and octets have room, the file is readable and both writes succeed |
| Archive.Store.AdmitPublish | internal/archive/store.go:205-237 | the refusals that change nothing, each exactly for its own cause |
| Archive.Store.WithinBudget | internal/archive/store.go:211-251 | on every reachable store: receipts within the limit, and the initial receipt plus max(4096, size) of every message that arrived under a day is at most that day's durable charge |
| Archive.Store.NoMailWithoutCharge | internal/archive/store.go:243-244 | whatever message is or ever was visible, the first commit's apart, has a landed charge of its own |
| Lines.UnstuffStuff | internal/pop3/server.go:508-515 | un-stuffing inverts stuffing for any LF-terminated octets and stops exactly after the terminator |
| Lines.TerminatorOnlyAtEnd | internal/pop3/server.go:529-536 | for any stored octets the terminator appears only at the end of the response |
| SmtpData.DataReader.Read | internal/smtp/server.go:515-548 | hands out the next octets of the one-shot decoding, as many as fit of the next line; octets read equal those handed out plus those pending and stay within the limit |
| SmtpData.ReadAll | internal/smtp/server.go:515-548 | any schedule of buffer sizes yields the one-shot decoding and its ending |
| SmtpData.Drain | internal/archive/store.go:144-147 | copying to the end yields the whole decoding, with the input left where the decoder leaves it |
| SmtpData.DecodeIsCanonical | internal/smtp/server.go:550-558 | decoded octets are CRLF lines without a bare LF and within the size limit |
| SmtpData.MessageDecodes | internal/smtp/server.go:515-558 | every message, whatever its line ends, decodes into the texts of its lines, each with CRLF; it is complete if and only if every line has at most 1000 octets, as sent and as stored, and the texts are within the limit |
| SmtpData.LineRefused | internal/smtp/server.go:526-548 | the first line that is too long or passes the limit ends the decoding, with that error and the texts before it |
| SmtpData.UnterminatedIsRefused | internal/smtp/server.go:522-530 | a message without its end is refused after the texts of its lines |
| SmtpData.EveryInput | internal/smtp/server.go:515-548 | every input is one of these: lines up to a lone dot, or lines and a last one without LF |
| SmtpData.StopsAfterTerminator | internal/smtp/server.go:531-534 | a complete message ends at the first terminator line and the input is exactly after it |
| SmtpData.AcceptsExactly | internal/smtp/server.go:515-577 | a CRLF-lined message comes back unchanged if and only if every stuffed line and the total are within the limits, and is refused otherwise |
| SmtpData.StuffedDotCounts | internal/smtp/server.go:568-577 | a 1000-octet line is accepted if and only if it does not start with a dot |
| Pop3Stream.StreamMessage | internal/pop3/server.go:490-538 | sends the greeting, the stuffed header block and first n body lines (or everything), a closing CRLF if needed, and the terminator |
| Pop3Stream.HeaderBlockMeaning | internal/pop3/server.go:503-526 | the header block is every line up to the first empty one, which it includes, or the whole message when there is none |
| Pop3Stream.FirstLinesMeaning | internal/pop3/server.go:503-526 | the body of TOP is as many whole lines as asked for, or all there are |
| Pop3Stream.ClientReads | internal/pop3/server.go:490-538 | a client reads back exactly what is shown and stops at the end of the response |
| Pop3Stream.EndToEnd | internal/pop3/server.go:490-538 | the decoder, the stuffing and a client's un-stuffing compose to headers plus message, octet for octet |
| SmtpReceive.ReceiveData | internal/smtp/server.go:283-366 | whatever it and other sessions do in between, its own reservation is returned; at most one commit is its own, which holds the headers and the decoded data, and only on 250 or an uncertain commit; alone on a healthy store its answer is exactly Verdict, the first thing in its way |
| SmtpReceive.AcceptedIff | internal/smtp/server.go:283-366 | Verdict is 250 if and only if there is budget at every step, the data are complete, the policy accepts, the file is readable, IDs and octets have room, the receipt is written and the commit confirmed |
| SmtpReceive.LengthsAreSteps | internal/archive/store.go:144-147 | the steps of the copy grow the file by at most a buffer up to the whole message |
| SmtpReceive.PublishOrDiscard | internal/smtp/server.go:336-351 | answers 250 exactly when publication is admitted, has room, is charged and is confirmed |
| MailPath.StoredForGood | internal/archive/mailbox.go:203-217 | a message that arrived has its octets in every commit that shows its ID |
| MailPath.DeliveredIsRetrieved | internal/pop3/server.go:277-301 | a message that DATA showed is what RETR sends to every session pinned to a commit that still has it, behind the delivery headers and octet for octet |
| Overlay.StatIsListing | internal/pop3/server.go:211-216 | the count and octets obtained by subtraction are those of the listing |
| Overlay.ViewSurvives | internal/pop3/server.go:354-370 | deleting the marked messages leaves exactly the rows that were shown |
| Text.ParseMeaning | internal/pop3/server.go:468-471 | a decimal numeral is read as n exactly when it is n as printed behind any number of zeros |
| Pop3Commands.SplitCommandMeaning | internal/pop3/server.go:402-408 | a verb, one space and an argument come back as the verb in capitals and that argument; without a space the argument is empty |
| Pop3Commands.ToUpperAt | internal/pop3/server.go:402-408 | capitals, letter by letter |
| Pop3Commands.TrimSpaceMeaning | internal/pop3/server.go:468-471 | trimming takes away the white space at both ends and nothing else |
| Pop3Commands.MessageNumberMeaning | internal/pop3/server.go:468-471 | a message number is any decimal numeral of it between white space, within the maildrop |
| Pop3Commands.FieldsCons | internal/pop3/server.go:477-481 | the fields are the words between white space |
| Pop3Commands.TopArgumentsMeaning | internal/pop3/server.go:477-488 | TOP takes exactly two fields, a message number and a number of lines |
| Pop3Commands.NumbersRoundTrip | internal/pop3/server.go:468-471 | a printed message number is accepted back exactly within the maildrop |
| Pop3Commands.TopRoundTrip | internal/pop3/server.go:477-488 | the same for the arguments of TOP |
| Pop3Commands.UniqueIdsAreUnique | internal/pop3/server.go:473-475 | different IDs have different unique IDs, within section 7 of RFC 1939; the ID can be read back in base 36 behind "picomx-" |
| Pop3Replies.TotalsRead | internal/pop3/server.go:211-216 | in the reply to STAT a client reads the number of messages and then their octets |
| Pop3Replies.RowReads | internal/pop3/server.go:222-264 | in a row of LIST or UIDL, alone or behind "+OK", a client reads the number and then the size, or the unique ID |
| Pop3Replies.RowsRead | internal/pop3/server.go:235-276 | row by row, in order |
| Pop3Replies.Indicators | internal/pop3/server.go:143-376 | every refusal starts with "-ERR " and every other status line with "+OK " |
| Pop3Replies.GreetingReads | internal/pop3/server.go:297 | in the reply to RETR a client reads the size of the message |
| Pop3Replies.WelcomeReads | internal/pop3/server.go:210 | in the reply to PASS a client reads the number of messages |
| Pop3Replies.WriteReply | internal/pop3/server.go:410-453 | a reply on the wire: one line, or a status line, lines and the terminator |
| Pop3Replies.ListedRowsRead | internal/pop3/server.go:435-453 | whatever rows are listed, a client reads back their lines and stops at the end of the response |
| Pop3Session.Session.User | internal/pop3/server.go:174-180 | keeps the trimmed name exactly when it is not empty and nobody is logged in |
| Pop3Session.Session.Pass | internal/pop3/server.go:181-210 | logs in exactly on an accepted password after USER and pins the snapshot of that moment; counts refused ones and closes exactly when they reach the limit |
| Pop3Session.Session.Stat | internal/pop3/server.go:211-216 | a client reads the number and the size sum of the rows LIST shows, with no underflow |
| Pop3Session.Session.List | internal/pop3/server.go:217-276 | in LIST and UIDL a client reads exactly the unmarked messages, under the same numbers, each with its size or unique ID |
| Pop3Session.Session.Inspect | internal/pop3/server.go:222-234 | a number is answered if and only if its message is in the view; the client reads the number and the size, or the unique ID |
| Pop3Session.Session.Retr | internal/pop3/server.go:277-301 | RETR sends exactly the stored octets of a message in the view |
| Pop3Session.Session.Top | internal/pop3/server.go:302-321 | TOP sends the top of exactly the messages in the view |
| Pop3Session.Session.Dele | internal/pop3/server.go:322-339 | marks exactly a visible message with its permanent ID, and no octet sum overflows |
| Pop3Session.Session.Rset | internal/pop3/server.go:340-347 | restores the view of the login |
| Pop3Session.Session.Quit | internal/pop3/server.go:354-372 | commits exactly the marked IDs in one deletion, and nothing when none is marked; on a healthy store a confirmed commit is answered with success |
| Pop3Session.Session.ViewIsWhatRemains | internal/pop3/server.go:354-372 | the rows shown are exactly those of the messages that the deletion of QUIT keeps |
| Pop3Session.Session.Serve | internal/pop3/server.go:143-376 | the exact reply to every command, before and after the login; how the name, the refused passwords and the marks move; exactly when a login happens, what it pins, and when the connection closes; only QUIT writes, and it deletes exactly what is marked |
| Pop3Session.Session.ServeAll | internal/pop3/server.go:143-376 | over any commands, password verdicts and acts of other sessions in between: before an accepted PASS every reply is the one that name and refused passwords call for; after it every reply is read off the mail of that moment and the marks so far; the archive only moves by others until QUIT, which deletes exactly the marked messages in one commit |
| Pop3Session.Session.UserThenPassLogsIn | internal/pop3/server.go:174-210 | a new session of USER with a name and PASS with the right password is logged in |
| Pop3Session.Session.RefusedTooOftenCloses | internal/pop3/server.go:185-203 | a session that gets as many passwords refused as are allowed is closed |
| Cache.TouchFront | internal/archive/cache.go:27-53 | one more access of the cut list is the cut of one more access |
| Cache.DirectoryCache.Get | internal/archive/cache.go:27-36 | finds exactly the listed keys and makes the key most recent; map and list stay in step |
| Cache.DirectoryCache.Put | internal/archive/cache.go:38-53 | the list is the most recent access of each key cut to the capacity, so the least recently used key goes |
| Cache.LatestValue | internal/archive/cache.go:38-53 | what is remembered for a key is its latest value |
| Cache.LatestByAge | internal/archive/cache.go:27-53 | the list is in the order of last use |
| CachedDirectory.Directory | internal/archive/tree.go:58-90 | through the cache a directory lists what it lists without it |
| CachedDirectory.PathIsNeeded | internal/archive/tree.go:63 | one tree under two paths has two listings, so the object ID alone would be wrong |
| CachedDirectory.PathIsNeededFor | internal/archive/tree.go:63 | that happens for any two messages of one size whose IDs differ by a multiple of 1024 |
| TreeObject.ParseEncode | internal/archive/tree.go:16-33 | parsing inverts encoding for valid entries with distinct names, for any hash length |
| TreeObject.EncodeParse | internal/archive/tree.go:16-33 | accepted data is the encoding of valid entries with distinct names |
| TreeObject.ReadTree | internal/archive/tree.go:35-56 | returns the entries that the data encodes, and fails exactly when there are none or a guard is exceeded |
| TreeObject.ValidEntriesMeaning | internal/archive/tree.go:22-27 | what is accepted, octet by octet: two modes, names without NUL, LF, CR and slash that are not empty, "." or "..", no name twice |
| LeafObject.LeafIsRead | internal/archive/tree.go:35-90 | the Git tree of any leaf directory of a coherent commit, in any entry order and with either hash, passes both guards and the parser and yields that leaf's run of the live mail |
| LeafObject.MessageNameFits | internal/archive/idpath.go:58-64 | a message's file name is at most 29 characters, all of them letters, digits, hyphens and dots |
| LeafObject.Directory | internal/archive/tree.go:35-90 | from the octets of a tree: the one listing there is, or an error exactly when a guard, the parser or the listing fails |
| BlobReader.Reader.Read | internal/archive/read.go:170-190 | hands out the next octets of the object, as many as fit and are there, and never more than remain; each error exactly for its own cause |
| BlobReader.Reader.Close | internal/archive/read.go:192-214 | succeeds exactly on a framed rest, then leaves the pipe at the next header; only the first call returns the lease; a second call changes nothing |
| BlobReader.ReadAndClose | internal/archive/read.go:131-214 | any read sizes, any delivery at each read, and then a close: a prefix of the object, all of it after enough reads, and the pipe exactly at what follows |

## Left out

- Git child processes, their pipes, timeouts, environment, maintenance and idle timers: a commit is one step with three outcomes, a read succeeds on what is committed.
- Outside writers and repository corruption: the store is the only writer of the repository, so commitChanges never finds HEAD moved by somebody else.
- File system calls, fsync and temporary names: replacing the receipt file is atomic, and after a failure it is old or new.
- JSON text of the state and the receipt, and the one-time transfer of a receipt from an old state: only the validation of the state's numbers is modelled.
- recoverMailboxTail and the file checks of the legacy import: the legacy files are given.
- validArchivePath, commit titles and the quoting of user names: they do not change what is stored.
- TLS, certificates, listeners, logging, deadlines, write errors to the client and connection limits.
- Password hashing: the verdict is a parameter. SMTP address, domain and parameter syntax and the SMTP session before DATA. The policy is an arbitrary decision.
- Visitor errors inside ListAt, and non-ASCII white space and capitals in POP3 command lines.
- SmtpReceive.ReceiveData: which step refuses is stated for a DATA command that no other session interrupts; under interference an answer is only stated to be true.
- Archive.Store.CheckReceive: after a Publish whose clock fell between its two readings, admission is stated against the receipt in memory only (Budget.CanReserveIsSum), here and in BeginStage, Receive and Publish.
- Archive.Store.CommitAppend: the poisoned case is shown as memory that describes no commit; which error each reader then returns is not stated.
- Pop3Session.Session.Pass: a session opened on a failed store works on an unpinned snapshot; nothing is promised about what it shows, here or in Serve and ServeAll.
- BlobReader.Reader.Read: a time limit that expires during a read is not modelled.
- Cache.DirectoryCache.Get: list elements are values, not shared pointers.
- TreeObject.EncodeParse: object IDs stay raw octets; their hexadecimal text is not modelled.
- SmtpData.AcceptsExactly: it is about conforming senders; the reader strips only a doubled leading dot, so a single leading dot from a non-conforming sender is kept.
