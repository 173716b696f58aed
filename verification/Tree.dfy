/** internal/archive/tree.go: one directory of a committed tree, listed in ID order. A commit's tree is
    modelled as the map from stored path to octets; Git's object encoding is in TreeObject. */
module Tree {
  import opened Prelude
  import opened Text
  import opened IdPath
  import opened LiveMail

  type FileTree = map<string, Bytes>

  datatype ReadError = NoSuchMessage | CorruptDirectory | CountMismatch | SizeMismatch

  /** The paths at or below a directory. */
  function Under(paths: set<string>, path: string): set<string> {
    set p | p in paths && path + "/" <= p
  }

  /** The stored paths of some messages. */
  ghost function Names(messages: seq<Message>): set<string> {
    if messages == [] then {} else Names(messages[..|messages| - 1]) + {messages[|messages| - 1].path}
  }

  lemma {:induction false} NamesMember(messages: seq<Message>, p: string)
    ensures p in Names(messages) <==> exists m :: m in messages && m.path == p
  {
    if messages != [] {
      var front, last := messages[..|messages| - 1], messages[|messages| - 1];
      NamesMember(front, p);
      assert forall m :: m in messages <==> m in front || m == last;
    }
  }

  ghost predicate Entries(messages: seq<Message>, path: string) {
    forall m :: m in messages ==> IsMessage(m) && Dir(m.path) == path
  }

  /** `messages` lists the directory: every entry a message file directly inside it, in ID order. */
  ghost predicate IsListing(messages: seq<Message>, paths: set<string>, path: string) {
    messages != [] && Ascending(ById, messages) && Entries(messages, path) && Names(messages) == Under(paths, path)
  }

  lemma {:induction false} ListingUnique(a: seq<Message>, b: seq<Message>, paths: set<string>, path: string)
    requires IsListing(a, paths, path) && IsListing(b, paths, path)
    ensures a == b
  {
    forall m ensures m in a <==> m in b {
      if m in a { ListingMember(m, a, b, path); }
      if m in b { ListingMember(m, b, a, path); }
    }
    AscendingUnique(ById, a, b);
  }

  lemma {:induction false} ListingMember(m: Message, a: seq<Message>, b: seq<Message>, path: string)
    requires m in a && Entries(a, path) && Entries(b, path) && Names(a) == Names(b)
    ensures m in b
  {
    NamesMember(a, m.path);
    NamesMember(b, m.path);
    var n :| n in b && n.path == m.path;
    MessagePathInjective(m.id, m.size, n.id, n.size);
  }

  /** The messages parsed from the entries seen so far, none of them twice. */
  ghost predicate Parsed(messages: seq<Message>, seen: set<string>, path: string) {
    && Entries(messages, path) && Names(messages) == seen
    && forall m :: m in messages ==> multiset(messages)[m] == 1
  }

  lemma {:induction false} ParsedOneMore(messages: seq<Message>, seen: set<string>, path: string, m: Message,
                                         name: string)
    requires Parsed(messages, seen, path) && IsMessage(m) && m.path == name && name !in seen && Dir(name) == path
    ensures Parsed(messages + [m], seen + {name}, path)
  {
    NamesMember(messages, name);
    assert m !in messages && multiset(messages + [m]) == multiset(messages) + multiset{m};
    assert (messages + [m])[..|messages|] == messages;
  }

  /** A message file directly inside the directory. */
  ghost predicate IsEntry(p: string, path: string) { Dir(p) == path && exists m :: IsMessage(m) && m.path == p }

  /** The entry loop of Store.directory: every entry must be a message file, in whatever order Git lists them. */
  method ReadEntries(entries: set<string>, path: string) returns (r: Option<seq<Message>>)
    ensures r.Some? ==> Parsed(r.value, entries, path)
    ensures r.None? ==> exists p :: p in entries && !IsEntry(p, path)
  {
    var todo := entries;
    var messages: seq<Message> := [];
    ghost var seen: set<string> := {};
    while todo != {}
      invariant seen + todo == entries && seen !! todo
      invariant Parsed(messages, seen, path)
      decreases |todo|
    {
      var p :| p in todo;
      var m := MessageFromPath(p);
      if Dir(p) != path || m.None? { // a subtree, or a name that is not a message
        assert !IsEntry(p, path);
        return None;
      }
      ParsedOneMore(messages, seen, path, m.value, p);
      messages := messages + [m.value];
      todo, seen := todo - {p}, seen + {p};
    }
    r := Some(messages);
  }

  /** Store.directory without its cache: parse every entry, sort by ID, reject duplicates. */
  method Directory(paths: set<string>, path: string) returns (r: Result<seq<Message>, ReadError>)
    ensures r.Ok? ==> IsListing(r.value, paths, path)
    ensures r.Err? ==> forall messages :: !IsListing(messages, paths, path)
  {
    var entries := Under(paths, path);
    if entries == {} {
      NothingToList(paths, path);
      return Err(NoSuchMessage);
    }
    var messages := ReadEntries(entries, path);
    if messages.None? {
      ghost var p :| p in entries && !IsEntry(p, path);
      BadEntryRefutes(p, paths, path);
      return Err(CorruptDirectory);
    }
    r := SortListing(messages.value, paths, path);
  }

  /** Sort the entries by ID and reject duplicates. */
  method SortListing(messages: seq<Message>, paths: set<string>, path: string)
    returns (r: Result<seq<Message>, ReadError>)
    requires Parsed(messages, Under(paths, path), path) && messages != []
    ensures r.Ok? ==> IsListing(r.value, paths, path)
    ensures r.Err? ==> forall listing :: !IsListing(listing, paths, path)
  {
    var sorted := Sort(ById, messages);
    SortSortsById(messages);
    SameNames(sorted, messages);
    var duplicate := HasDuplicate(sorted);
    if duplicate {
      ghost var i :| 0 < i < |sorted| && sorted[i - 1].id == sorted[i].id;
      NeighboursDiffer(sorted, i);
      DuplicateRefutes(sorted, i, paths, path);
      return Err(CorruptDirectory);
    }
    r := Ok(sorted);
  }

  lemma {:induction false} NothingToList(paths: set<string>, path: string)
    requires Under(paths, path) == {}
    ensures forall messages :: !IsListing(messages, paths, path)
  {
  }

  lemma {:induction false} BadEntryRefutes(p: string, paths: set<string>, path: string)
    requires p in Under(paths, path) && !IsEntry(p, path)
    ensures forall messages :: !IsListing(messages, paths, path)
  {
    forall messages ensures !IsListing(messages, paths, path) { NamesMember(messages, p); }
  }

  lemma {:induction false} SortSortsById(messages: seq<Message>)
    ensures forall i, j :: 0 <= i < j < |messages| ==> Sort(ById, messages)[i].id <= Sort(ById, messages)[j].id
  {
    SortSorts(ById, messages);
  }

  lemma {:induction false} SameNames(a: seq<Message>, b: seq<Message>)
    requires multiset(a) == multiset(b)
    ensures Names(a) == Names(b)
    ensures forall m :: m in a <==> m in b
  {
    SameElements(a, b);
    forall p ensures p in Names(a) <==> p in Names(b) {
      NamesMember(a, p);
      NamesMember(b, p);
    }
  }

  lemma {:induction false} NeighboursDiffer(sorted: seq<Message>, i: nat)
    requires 0 < i < |sorted| && multiset(sorted)[sorted[i]] == 1
    ensures sorted[i - 1] != sorted[i]
  {
    if sorted[i - 1] == sorted[i] { Repeated(sorted, i - 1, i); }
  }

  /** Two entries with one ID cannot both be in an ID-ordered listing. */
  lemma {:induction false} DuplicateRefutes(sorted: seq<Message>, i: nat, paths: set<string>, path: string)
    requires 0 < i < |sorted| && sorted[i - 1] != sorted[i] && sorted[i - 1].id == sorted[i].id
    requires Entries(sorted, path) && Names(sorted) == Under(paths, path)
    ensures forall messages :: !IsListing(messages, paths, path)
  {
    var a, b := sorted[i - 1], sorted[i];
    assert a in sorted && b in sorted;
    forall messages: seq<Message> ensures !IsListing(messages, paths, path) {
      if IsListing(messages, paths, path) {
        ListingMember(a, sorted, messages, path);
        ListingMember(b, sorted, messages, path);
        OneMessagePerId(messages, a, b);
      }
    }
  }

  /** The duplicate check over the sorted messages. */
  method HasDuplicate(sorted: seq<Message>) returns (duplicate: bool)
    requires forall i, j :: 0 <= i < j < |sorted| ==> sorted[i].id <= sorted[j].id
    ensures duplicate <==> exists i :: 0 < i < |sorted| && sorted[i - 1].id == sorted[i].id
    ensures !duplicate ==> Ascending(ById, sorted)
  {
    var i := 0;
    while i < |sorted|
      invariant 0 <= i <= |sorted|
      invariant forall a, b :: 0 <= a < b < i ==> sorted[a].id < sorted[b].id
    {
      if i > 0 && sorted[i - 1].id == sorted[i].id { return true; }
      i := i + 1;
    }
    duplicate := false;
  }
}
