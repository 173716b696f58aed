/** internal/archive/tree.go: a directory from the octets of its Git tree. The guards and the parser of TreeObject and
    the entry loop of Tree read the leaf directories of the archive completely. */
module LeafObject {
  import opened Prelude
  import opened Text
  import opened IdPath
  import opened DirectoryCounts
  import opened LiveMail
  import opened Tree
  import opened Commits
  import opened TreeObject

  predicate FileChars(name: string) {
    forall c :: c in name ==> '0' <= c <= '9' || 'a' <= c <= 'z' || c == '-' || c == '.'
  }

  lemma {:induction false} TwentyDigits()
    ensures MAX64 < Power10(20)
  {
    assert Power10(4) == 10000;
    assert Power10(8) == 10000 * 10000;
    assert Power10(12) == 10000 * 10000 * 10000;
    assert Power10(16) == 10000 * 10000 * 10000 * 10000;
    assert Power10(20) == 10000 * 10000 * 10000 * 10000 * 10000;
  }

  /** A file name is at most three digits, "-s", twenty digits and ".eml" long, and made of plain characters. */
  lemma {:induction false} MessageNameFits(m: Message)
    requires IsMessage(m)
    ensures m.path == LeafOf(m.id) + "/" + FileName(m.id, m.size)
    ensures 3 <= |FileName(m.id, m.size)| <= MAX_NAME && FileChars(FileName(m.id, m.size))
  {
    TwentyDigits();
    DecimalLength(m.size, 20);
    FormatAlphabet(m.size, 10);
    DigitsArePlain(m.id % 1024);
    PlainParts(FmtDigit(m.id % 1024), FormatUint(m.size, 10));
    PathIsLeafAndName(m.id, m.size);
  }

  lemma {:induction false} DigitsArePlain(d: nat)
    requires d < 1024
    ensures FileChars(FmtDigit(d))
  {
  }

  lemma {:induction false} PlainParts(digit: string, size: string)
    requires FileChars(digit) && |digit| == 3 && Alphanumeric(size) && |size| <= 20
    ensures FileChars(digit + "-s" + size + ".eml") && 3 <= |digit + "-s" + size + ".eml"| <= MAX_NAME
  {
  }

  function Chars(name: Bytes): string { seq(|name|, i requires 0 <= i < |name| => name[i] as char) }

  lemma {:induction false} NameOctets(name: string)
    requires FileChars(name)
    ensures |Octets8(name)| == |name| && Chars(Octets8(name)) == name
    ensures |name| >= 3 ==> ValidName(Octets8(name)) && NUL !in Octets8(name)
  {
    if name != [] { OctetAt(name, 0); }
    forall i | 0 <= i < |name| ensures name[i] in name && Octets8(name)[i] as int == name[i] as int {
      OctetAt(name, i);
      assert name[i] in name;
    }
  }

  /** The entries, in whatever order, are the files of this directory. */
  ghost predicate TreeOf(entries: seq<TreeEntry>, paths: set<string>, path: string, hashBytes: nat) {
    && (forall e :: e in entries ==> e.mode == FILE && |e.oid| == hashBytes)
    && DistinctNames(entries)
    && (forall e :: e in entries ==> HasPath(e, paths, path))
    && (forall p :: p in Under(paths, path) ==> HasEntry(p, entries, path))
  }

  ghost predicate HasPath(e: TreeEntry, paths: set<string>, path: string) {
    exists p :: p in Under(paths, path) && NamedAs(e, p, path)
  }

  ghost predicate HasEntry(p: string, entries: seq<TreeEntry>, path: string) {
    exists e :: e in entries && NamedAs(e, p, path)
  }

  /** The entry of the directory has the name that the path has in it. */
  predicate NamedAs(e: TreeEntry, p: string, path: string) {
    |path| < |p| && e.name == Octets8(p[|path| + 1..])
  }

  /** The paths that Store.directory makes of the entries. */
  function PathsOf(entries: seq<TreeEntry>, path: string): set<string> {
    set e | e in entries :: path + "/" + Chars(e.name)
  }

  /** Each entry is the file of a message of the run. */
  ghost predicate FileOf(e: TreeEntry, m: Message, path: string) {
    && e.name == Octets8(FileName(m.id, m.size)) && path + "/" + Chars(e.name) == m.path
    && ValidName(e.name) && NUL !in e.name && |e.name| <= MAX_NAME
  }

  lemma {:induction false} FileOfMessage(e: TreeEntry, m: Message, path: string)
    requires IsMessage(m) && LeafOf(m.id) == path && NamedAs(e, m.path, path)
    ensures FileOf(e, m, path)
  {
    MessageNameFits(m);
    assert m.path[|path| + 1..] == FileName(m.id, m.size);
    NameOctets(FileName(m.id, m.size));
  }

  /** A run of messages in one leaf directory, listed there. */
  ghost predicate RunOf(run: seq<Message>, paths: set<string>, path: string) {
    IsListing(run, paths, path) && forall m :: m in run ==> LeafOf(m.id) == path
  }

  lemma {:induction false} EntryHasMessage(entries: seq<TreeEntry>, run: seq<Message>, paths: set<string>, path: string,
                                           hashBytes: nat, e: TreeEntry) returns (m: Message)
    requires TreeOf(entries, paths, path, hashBytes) && RunOf(run, paths, path) && e in entries
    ensures m in run && FileOf(e, m, path)
  {
    var p :| p in Under(paths, path) && NamedAs(e, p, path);
    NamesMember(run, p);
    m :| m in run && m.path == p;
    FileOfMessage(e, m, path);
  }

  lemma {:induction false} MessageHasEntry(entries: seq<TreeEntry>, run: seq<Message>, paths: set<string>, path: string,
                                           hashBytes: nat, m: Message) returns (e: TreeEntry)
    requires TreeOf(entries, paths, path, hashBytes) && RunOf(run, paths, path) && m in run
    ensures e in entries && FileOf(e, m, path)
  {
    NamesMember(run, m.path);
    e :| e in entries && NamedAs(e, m.path, path);
    FileOfMessage(e, m, path);
  }

  /** The entries name exactly the paths of the directory. */
  lemma {:induction false} SamePaths(entries: seq<TreeEntry>, run: seq<Message>, paths: set<string>, path: string,
                                     hashBytes: nat)
    requires TreeOf(entries, paths, path, hashBytes) && RunOf(run, paths, path)
    ensures PathsOf(entries, path) == Under(paths, path)
    ensures IsListing(run, PathsOf(entries, path), path)
  {
    forall p ensures p in PathsOf(entries, path) <==> p in Under(paths, path) {
      NamesMember(run, p);
      if p in PathsOf(entries, path) {
        var e :| e in entries && p == path + "/" + Chars(e.name);
        var _ := EntryHasMessage(entries, run, paths, path, hashBytes, e);
      }
      if p in Under(paths, path) {
        var m :| m in run && m.path == p;
        var _ := MessageHasEntry(entries, run, paths, path, hashBytes, m);
      }
    }
    assert Under(PathsOf(entries, path), path) == Under(paths, path);
  }

  ghost function FileNames(run: seq<Message>): (names: set<Bytes>)
    ensures |names| <= |run|
  {
    if run == [] then {} else FileNames(run[..|run| - 1]) + {Octets8(FileName(run[|run| - 1].id, run[|run| - 1].size))}
  }

  lemma {:induction false} FileNamesMember(run: seq<Message>, m: Message)
    requires m in run
    ensures Octets8(FileName(m.id, m.size)) in FileNames(run)
  {
    if m != run[|run| - 1] { FileNamesMember(run[..|run| - 1], m); }
  }

  lemma {:induction false} DistinctCount(entries: seq<TreeEntry>, names: set<Bytes>)
    requires DistinctNames(entries) && forall e :: e in entries ==> e.name in names
    ensures |entries| <= |names|
  {
    if entries != [] {
      var front, last := entries[..|entries| - 1], entries[|entries| - 1];
      assert last in entries;
      forall e | e in front ensures e.name in names - {last.name} { assert e in entries; }
      DistinctCount(front, names - {last.name});
    }
  }

  /** These octets pass the guards and the parser and list these messages. */
  ghost predicate Lists(messages: seq<Message>, data: Bytes, hashBytes: nat, path: string) {
    && |data| <= MAX_TREE
    && var entries := ParseFrom(data, hashBytes, {});
       entries.Some? && |entries.value| <= MAX_ENTRIES && (forall e :: e in entries.value ==> e.mode == FILE)
       && IsListing(messages, PathsOf(entries.value, path), path)
  }

  /** Whatever order Git keeps its entries in and whichever hash it uses, the tree of a listed leaf directory passes
      both guards and yields its listing. */
  lemma {:induction false} RunIsRead(entries: seq<TreeEntry>, run: seq<Message>, paths: set<string>, path: string,
                                     hashBytes: nat)
    requires TreeOf(entries, paths, path, hashBytes) && RunOf(run, paths, path) && |run| <= 1024 && hashBytes <= 32
    ensures ParseFrom(Encode(entries), hashBytes, {}) == Some(entries)
    ensures Lists(run, Encode(entries), hashBytes, path)
  {
    forall e | e in entries ensures ValidEntry(e, hashBytes) && |e.name| <= MAX_NAME && e.name in FileNames(run) {
      var m := EntryHasMessage(entries, run, paths, path, hashBytes, e);
      FileNamesMember(run, m);
    }
    DistinctCount(entries, FileNames(run));
    forall i | 0 <= i < |entries| ensures Acceptable(entries[i], hashBytes) {
      assert entries[i] in entries && ValidEntry(entries[i], hashBytes);
    }
    ValidEntriesMeaning(entries, hashBytes, {});
    FullLeafFits(entries, hashBytes);
    SamePaths(entries, run, paths, path, hashBytes);
  }

  /** Leaf directory i of a coherent commit, read from the octets of its Git tree, is the i-th run of the live mail. */
  lemma {:induction false} LeafIsRead(c: Commit, live: seq<Message>, i: nat, leaf: DirectoryCount,
                                      entries: seq<TreeEntry>, hashBytes: nat)
    requires Coherent(c, live) && |live| <= MAX64 && i < |Table(live)| && Table(live)[i] == leaf
    requires TreeOf(entries, c.tree.Keys, leaf.path, hashBytes) && hashBytes <= 32
    ensures 0 < leaf.count <= leaf.accumulated <= |live|
    ensures Lists(live[leaf.accumulated - leaf.count..leaf.accumulated], Encode(entries), hashBytes, leaf.path)
  {
    var run := LeafListing(c, live, i, leaf);
    TableEntry(live, i);
    TableRun(live, i);
    forall m | m in run ensures LeafOf(m.id) == leaf.path {
      var k :| 0 <= k < |run| && run[k] == m;
      assert m == live[leaf.accumulated - leaf.count + k];
    }
    RunIsRead(entries, run, c.tree.Keys, leaf.path, hashBytes);
  }

  /** Store.directory from the object's octets: it answers with the one listing there is, or with an error. */
  method Directory(data: Bytes, hashBytes: nat, path: string) returns (r: Result<seq<Message>, ReadError>)
    ensures r.Ok? ==> Lists(r.value, data, hashBytes, path)
    ensures r.Err? ==> forall messages :: !Lists(messages, data, hashBytes, path)
  {
    var entries := ReadTree(data, hashBytes);
    if entries.None? {
      Refused(data, hashBytes, path);
      return Err(CorruptDirectory);
    }
    ParseEncode(entries.value, hashBytes, {});
    var files := OnlyFiles(entries.value);
    if !files { return Err(CorruptDirectory); }
    r := Tree.Directory(PathsOf(entries.value, path), path);
  }

  method OnlyFiles(entries: seq<TreeEntry>) returns (all: bool)
    ensures all <==> forall e :: e in entries ==> e.mode == FILE
  {
    var i := 0;
    while i < |entries|
      invariant 0 <= i <= |entries| && forall j :: 0 <= j < i ==> entries[j].mode == FILE
    {
      if entries[i].mode != FILE {
        assert entries[i] in entries;
        return false;
      }
      i := i + 1;
    }
    all := true;
  }

  lemma {:induction false} Refused(data: Bytes, hashBytes: nat, path: string)
    requires forall entries :: ValidEntries(entries, hashBytes, {}) && Encode(entries) == data ==>
                                 |data| > MAX_TREE || |entries| > MAX_ENTRIES
    ensures forall messages :: !Lists(messages, data, hashBytes, path)
  {
    forall messages ensures !Lists(messages, data, hashBytes, path) {
      if Lists(messages, data, hashBytes, path) { EncodeParse(data, hashBytes, {}); }
    }
  }
}
