/** internal/archive/tree.go: the octets of a Git tree object. Object IDs are kept as raw octets, not as hex text. */
module TreeObject {
  import opened Prelude

  const NUL: byte := 0
  const SPACE: byte := 32
  const SLASH: byte := 47
  const SUBTREE: Bytes := [52, 48, 48, 48, 48]
  const FILE: Bytes := [49, 48, 48, 54, 52, 52]
  const MAX_TREE: nat := 256 * 1024
  const MAX_ENTRIES: nat := 1024 + 3

  datatype TreeEntry = TreeEntry(mode: Bytes, name: Bytes, oid: Bytes)

  /** Position of the first `c`, |b| when there is none. */
  function Find(b: Bytes, c: byte, i: nat): (k: nat)
    requires i <= |b|
    ensures i <= k <= |b| && (k < |b| ==> b[k] == c)
    decreases |b| - i
  {
    if i == |b| || b[i] == c then i else Find(b, c, i + 1)
  }

  lemma {:induction false} FindIs(b: Bytes, c: byte, i: nat, k: nat)
    requires i <= k < |b| && b[k] == c && forall j :: i <= j < k ==> b[j] != c
    ensures Find(b, c, i) == k
    decreases k - i
  {
    if i < k { FindIs(b, c, i + 1, k); }
  }

  lemma {:induction false} FindFirst(b: Bytes, c: byte, i: nat, j: nat)
    requires i <= |b| && i <= j < Find(b, c, i)
    ensures b[j] != c
    decreases |b| - i
  {
    if i < j { FindFirst(b, c, i + 1, j); }
  }

  predicate ValidName(name: Bytes) {
    && name != [] && name != [46] && name != [46, 46]
    && SLASH !in name && CR !in name && LF !in name
  }

  /** An entry that the archive writes: a known mode, a plain name and a whole object ID. */
  predicate ValidEntry(e: TreeEntry, hashBytes: nat) {
    (e.mode == SUBTREE || e.mode == FILE) && ValidName(e.name) && NUL !in e.name && |e.oid| == hashBytes
  }

  function EncodeEntry(e: TreeEntry): Bytes { e.mode + [SPACE] + e.name + [NUL] + e.oid }

  /** Git's tree encoding. */
  function Encode(entries: seq<TreeEntry>): Bytes {
    if entries == [] then [] else EncodeEntry(entries[0]) + Encode(entries[1..])
  }

  /** Valid entries under names not seen before. */
  predicate ValidEntries(entries: seq<TreeEntry>, hashBytes: nat, seen: set<Bytes>) {
    entries == [] ||
    (ValidEntry(entries[0], hashBytes) && entries[0].name !in seen
     && ValidEntries(entries[1..], hashBytes, seen + {entries[0].name}))
  }

  ghost predicate DistinctNames(entries: seq<TreeEntry>) {
    forall i, j :: 0 <= i < j < |entries| ==> entries[i].name != entries[j].name
  }

  /** What an archive tree may contain, octet by octet: "40000" or "100644", and a name that is not empty, not "." or
      "..", and has no NUL, LF, CR or slash. */
  predicate Acceptable(e: TreeEntry, hashBytes: nat) {
    && e.mode in {[52, 48, 48, 48, 48], [49, 48, 48, 54, 52, 52]}
    && e.name !in {[], [46], [46, 46]} && 0 !in e.name && 10 !in e.name && 13 !in e.name && 47 !in e.name
    && |e.oid| == hashBytes
  }

  /** Valid entries are acceptable ones under different names, none of them seen before. */
  lemma {:induction false} ValidEntriesMeaning(entries: seq<TreeEntry>, hashBytes: nat, seen: set<Bytes>)
    ensures ValidEntries(entries, hashBytes, seen) <==>
              && DistinctNames(entries)
              && (forall i :: 0 <= i < |entries| ==> Acceptable(entries[i], hashBytes))
              && (forall i :: 0 <= i < |entries| ==> entries[i].name !in seen)
  {
    if entries != [] {
      var first, rest := entries[0], entries[1..];
      ValidEntriesMeaning(rest, hashBytes, seen + {first.name});
      assert forall i :: 0 < i < |entries| ==> entries[i] == rest[i - 1];
      assert forall i :: 0 <= i < |rest| ==> rest[i] == entries[i + 1];
      assert ValidEntry(first, hashBytes) <==> Acceptable(first, hashBytes);
      if DistinctNames(entries) {
        forall i | 0 <= i < |rest| ensures rest[i].name != first.name { assert entries[0].name != entries[i + 1].name; }
      }
    }
  }

  /** One round of parseTree: the entry at the front of the data and what follows it. */
  function ParseEntry(data: Bytes, hashBytes: nat): (r: Option<(TreeEntry, Bytes)>)
    ensures r.Some? ==> |r.value.1| < |data|
  {
    var end := Find(data, NUL, 0);
    if end == |data| || |data| - end - 1 < hashBytes then None
    else
      var head := data[..end];
      var cut := Find(head, SPACE, 0);
      if cut == |head| then None
      else
        var mode, name := head[..cut], head[cut + 1..];
        if !ValidName(name) || (mode != SUBTREE && mode != FILE) then None
        else Some((TreeEntry(mode, name, data[end + 1..end + 1 + hashBytes]), data[end + 1 + hashBytes..]))
  }

  function ParseFrom(data: Bytes, hashBytes: nat, seen: set<Bytes>): Option<seq<TreeEntry>>
    decreases |data|
  {
    if data == [] then Some([])
    else
      var first := ParseEntry(data, hashBytes);
      if first.None? || first.value.0.name in seen then None
      else
        var rest := ParseFrom(first.value.1, hashBytes, seen + {first.value.0.name});
        if rest.None? then None else Some([first.value.0] + rest.value)
  }

  function Prepend(entries: seq<TreeEntry>, tail: Option<seq<TreeEntry>>): Option<seq<TreeEntry>> {
    if tail.None? then None else Some(entries + tail.value)
  }

  lemma {:induction false} PrependStep(entries: seq<TreeEntry>, rest: Bytes, hashBytes: nat, seen: set<Bytes>)
    requires rest != []
    ensures var first := ParseEntry(rest, hashBytes);
      Prepend(entries, ParseFrom(rest, hashBytes, seen)) ==
        if first.None? || first.value.0.name in seen then None
        else Prepend(entries + [first.value.0], ParseFrom(first.value.1, hashBytes, seen + {first.value.0.name}))
  {
    var first := ParseEntry(rest, hashBytes);
    if first.Some? {
      var tail := ParseFrom(first.value.1, hashBytes, seen + {first.value.0.name});
      if tail.Some? { assert entries + ([first.value.0] + tail.value) == (entries + [first.value.0]) + tail.value; }
    }
  }

  /** parseTree. */
  method ParseTree(data: Bytes, hashBytes: nat) returns (r: Option<seq<TreeEntry>>)
    ensures r == ParseFrom(data, hashBytes, {})
  {
    var rest := data;
    var seen: set<Bytes> := {};
    var entries: seq<TreeEntry> := [];
    ghost var all := ParseFrom(data, hashBytes, {});
    if all.Some? { assert [] + all.value == all.value; }
    while rest != []
      invariant all == Prepend(entries, ParseFrom(rest, hashBytes, seen))
      decreases |rest|
    {
      PrependStep(entries, rest, hashBytes, seen);
      var first := ParseEntry(rest, hashBytes);
      if first.None? || first.value.0.name in seen { return None; }
      seen, entries, rest := seen + {first.value.0.name}, entries + [first.value.0], first.value.1;
    }
    assert entries + [] == entries;
    r := Some(entries);
  }

  lemma {:induction false} ParsedEntry(data: Bytes, hashBytes: nat)
    requires ParseEntry(data, hashBytes).Some?
    ensures var (e, rest) := ParseEntry(data, hashBytes).value;
            ValidEntry(e, hashBytes) && data == EncodeEntry(e) + rest
  {
    var end := Find(data, NUL, 0);
    var head := data[..end];
    var cut := Find(head, SPACE, 0);
    var (e, rest) := ParseEntry(data, hashBytes).value;
    forall j | 0 <= j < |e.name| ensures e.name[j] != NUL { FindFirst(data, NUL, 0, cut + 1 + j); }
    assert head == e.mode + [SPACE] + e.name;
    assert data == head + [NUL] + e.oid + rest;
  }

  lemma {:induction false} ModeHasNoSpace(mode: Bytes)
    requires mode == SUBTREE || mode == FILE
    ensures forall j :: 0 <= j < |mode| ==> mode[j] != SPACE && mode[j] != NUL
  {
  }

  lemma {:induction false} EncodedHead(e: TreeEntry, hashBytes: nat, tail: Bytes)
    requires ValidEntry(e, hashBytes)
    ensures Find(e.mode + [SPACE] + e.name, SPACE, 0) == |e.mode|
    ensures Find(e.mode + [SPACE] + e.name + [NUL] + tail, NUL, 0) == |e.mode| + 1 + |e.name|
  {
    ModeHasNoSpace(e.mode);
    FindIs(e.mode + [SPACE] + e.name, SPACE, 0, |e.mode|);
    var data, end := e.mode + [SPACE] + e.name + [NUL] + tail, |e.mode| + 1 + |e.name|;
    forall j | 0 <= j < end ensures data[j] != NUL {
      if j > |e.mode| { assert data[j] == e.name[j - |e.mode| - 1]; }
    }
    FindIs(data, NUL, 0, end);
  }

  lemma {:induction false} EntryParses(e: TreeEntry, hashBytes: nat, rest: Bytes)
    requires ValidEntry(e, hashBytes)
    ensures ParseEntry(EncodeEntry(e) + rest, hashBytes) == Some((e, rest))
  {
    var head, tail := e.mode + [SPACE] + e.name, e.oid + rest;
    var data := EncodeEntry(e) + rest;
    assert data == head + [NUL] + tail;
    EncodedHead(e, hashBytes, tail);
    var end := |head|;
    assert data[..end] == head && head[..|e.mode|] == e.mode && head[|e.mode| + 1..] == e.name;
    assert data[end + 1..] == tail;
    assert data[end + 1..end + 1 + hashBytes] == e.oid && data[end + 1 + hashBytes..] == rest;
  }

  /** Parsing inverts encoding: valid entries with distinct names come back. */
  lemma {:induction false} ParseEncode(entries: seq<TreeEntry>, hashBytes: nat, seen: set<Bytes>)
    requires ValidEntries(entries, hashBytes, seen)
    ensures ParseFrom(Encode(entries), hashBytes, seen) == Some(entries)
  {
    if entries != [] {
      var e, rest := entries[0], entries[1..];
      ParseEncode(rest, hashBytes, seen + {e.name});
      EntryParses(e, hashBytes, Encode(rest));
      assert entries == [e] + rest;
    }
  }

  /** Encoding inverts parsing: accepted data is the encoding of valid entries with distinct names. */
  lemma {:induction false} EncodeParse(data: Bytes, hashBytes: nat, seen: set<Bytes>)
    requires ParseFrom(data, hashBytes, seen).Some?
    ensures var entries := ParseFrom(data, hashBytes, seen).value;
            Encode(entries) == data && ValidEntries(entries, hashBytes, seen)
    decreases |data|
  {
    if data != [] {
      ParsedEntry(data, hashBytes);
      var (e, rest) := ParseEntry(data, hashBytes).value;
      EncodeParse(rest, hashBytes, seen + {e.name});
      var tail := ParseFrom(rest, hashBytes, seen + {e.name}).value;
      assert ([e] + tail)[1..] == tail;
    }
  }

  /** Store.tree, once the object's octets are there: the size guard, the parser and the fanout guard. */
  method ReadTree(data: Bytes, hashBytes: nat) returns (r: Option<seq<TreeEntry>>)
    ensures r.Some? ==> Encode(r.value) == data && ValidEntries(r.value, hashBytes, {})
    ensures r.Some? ==> |data| <= MAX_TREE && |r.value| <= MAX_ENTRIES
    ensures r.None? ==> forall entries :: ValidEntries(entries, hashBytes, {}) && Encode(entries) == data ==>
                          |data| > MAX_TREE || |entries| > MAX_ENTRIES
  {
    forall entries | ValidEntries(entries, hashBytes, {}) && Encode(entries) == data
      ensures ParseFrom(data, hashBytes, {}) == Some(entries)
    {
      ParseEncode(entries, hashBytes, {});
    }
    if |data| > MAX_TREE { return None; }
    r := ParseTree(data, hashBytes);
    if r.None? { return None; }
    EncodeParse(data, hashBytes, {});
    if |r.value| > MAX_ENTRIES { return None; }
  }

  /** The longest name in a message directory: three digits, "-s", twenty digits, ".eml". */
  const MAX_NAME: nat := 3 + 2 + 20 + 4

  lemma {:induction false} EncodedLength(entries: seq<TreeEntry>, hashBytes: nat, seen: set<Bytes>)
    requires ValidEntries(entries, hashBytes, seen) && hashBytes <= 32
    requires forall e :: e in entries ==> |e.name| <= MAX_NAME
    ensures |Encode(entries)| <= |entries| * 69
  {
    if entries != [] {
      assert entries[0] in entries && forall e :: e in entries[1..] ==> e in entries;
      EncodedLength(entries[1..], hashBytes, seen + {entries[0].name});
    }
  }

  /** A full leaf directory is well within both guards, whichever hash the repository uses. */
  lemma {:induction false} FullLeafFits(entries: seq<TreeEntry>, hashBytes: nat)
    requires ValidEntries(entries, hashBytes, {}) && hashBytes <= 32 && |entries| <= 1024
    requires forall e :: e in entries ==> |e.name| <= MAX_NAME
    ensures |Encode(entries)| <= MAX_TREE && |entries| <= MAX_ENTRIES
    ensures ParseFrom(Encode(entries), hashBytes, {}) == Some(entries)
  {
    EncodedLength(entries, hashBytes, {});
    ParseEncode(entries, hashBytes, {});
  }
}
