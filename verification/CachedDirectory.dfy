/** internal/archive/tree.go: Store.directory through its cache. Directories are cached under their path and the
    object ID of their tree. */
module CachedDirectory {
  import opened Prelude
  import opened Text
  import opened IdPath
  import opened Tree
  import opened Cache

  /** Object IDs are content addresses. This one stands for the names below a directory; the real one also fixes what
      the names hold, which only makes equal IDs rarer. */
  type TreeId = set<string>

  datatype DirectoryKey = DirectoryKey(path: string, tree: TreeId)

  function TreeIdOf(paths: set<string>, path: string): TreeId {
    set p | p in paths && path + "/" <= p :: p[|path| + 1..]
  }

  lemma {:induction false} SameTreeSamePaths(a: set<string>, b: set<string>, path: string, p: string)
    requires TreeIdOf(a, path) == TreeIdOf(b, path) && p in Under(a, path)
    ensures p in Under(b, path)
  {
    assert p[|path| + 1..] in TreeIdOf(a, path);
    var q :| q in b && path + "/" <= q && q[|path| + 1..] == p[|path| + 1..];
    assert p == (path + "/") + p[|path| + 1..] == q;
  }

  /** Under one path, the tree's ID decides the listing. */
  lemma {:induction false} SameTreeSameListing(a: set<string>, b: set<string>, path: string, messages: seq<Message>)
    requires TreeIdOf(a, path) == TreeIdOf(b, path) && IsListing(messages, a, path)
    ensures IsListing(messages, b, path)
  {
    forall p ensures p in Under(a, path) <==> p in Under(b, path) {
      if p in Under(a, path) { SameTreeSamePaths(a, b, path, p); }
      if p in Under(b, path) { SameTreeSamePaths(b, a, path, p); }
    }
    assert Under(a, path) == Under(b, path);
  }

  /** A remembered listing is the listing of every tree with its ID under its path. */
  ghost predicate TrueEntry(key: DirectoryKey, messages: seq<Message>) {
    exists paths :: TreeIdOf(paths, key.path) == key.tree && IsListing(messages, paths, key.path)
  }

  ghost predicate TrueHistory(history: seq<Entry<DirectoryKey, seq<Message>>>) {
    forall i :: 0 <= i < |history| ==> TrueEntry(history[i].key, history[i].value)
  }

  lemma {:induction false} ValueIsTrue(history: seq<Entry<DirectoryKey, seq<Message>>>, key: DirectoryKey)
    requires TrueHistory(history) && key in KeysOf(history)
    ensures TrueEntry(key, ValueOf(history, key))
  {
    assert TrueEntry(history[0].key, history[0].value);
    if history[0].key != key {
      forall i | 0 <= i < |history| - 1 ensures TrueEntry(history[1..][i].key, history[1..][i].value) {
        assert TrueEntry(history[i + 1].key, history[i + 1].value);
      }
      ValueIsTrue(history[1..], key);
    }
  }

  lemma {:induction false} FrontValue<K, V>(list: seq<Entry<K, V>>, n: nat, key: K)
    requires key in KeysOf(Front(list, n))
    ensures key in KeysOf(list) && ValueOf(Front(list, n), key) == ValueOf(list, key)
  {
    FrontTail(list, n);
    var rest := Front(list[1..], n - 1);
    KeysCons(list[0], rest);
    if list[0].key != key { FrontValue(list[1..], n - 1, key); }
    ValueCons(list[0], rest, key);
  }

  lemma {:induction false} TrueMore(history: seq<Entry<DirectoryKey, seq<Message>>>, key: DirectoryKey,
                                    messages: seq<Message>)
    requires TrueHistory(history) && TrueEntry(key, messages)
    ensures TrueHistory([Entry(key, messages)] + history)
  {
    var more := [Entry(key, messages)] + history;
    forall i | 0 <= i < |more| ensures TrueEntry(more[i].key, more[i].value) {
      if i > 0 { assert TrueEntry(history[i - 1].key, history[i - 1].value); }
    }
  }

  lemma {:induction false} HitIsTrue(cache: DirectoryCache<DirectoryKey, seq<Message>>, key: DirectoryKey)
    requires cache.Valid() && TrueHistory(cache.history) && key in KeysOf(cache.recency)
    ensures TrueEntry(key, ValueOf(cache.recency, key))
  {
    FrontValue(Latest(cache.history), cache.capacity, key);
    LatestValue(cache.history, key);
    ValueIsTrue(cache.history, key);
  }

  /** Store.directory: with the cache it answers what it answers without, whatever was asked before. */
  method Directory(cache: DirectoryCache<DirectoryKey, seq<Message>>, paths: set<string>, path: string)
    returns (r: Result<seq<Message>, ReadError>)
    requires cache.Valid() && TrueHistory(cache.history)
    modifies cache
    ensures cache.Valid() && TrueHistory(cache.history)
    ensures cache.history == // a listing becomes the most recent entry, an error is not remembered
      if r.Ok? then [Entry(DirectoryKey(path, TreeIdOf(paths, path)), r.value)] + old(cache.history)
      else old(cache.history)
    ensures r.Ok? ==> IsListing(r.value, paths, path)
    ensures r.Err? ==> forall messages :: !IsListing(messages, paths, path)
  {
    if Under(paths, path) == {} {
      NothingToList(paths, path);
      return Err(NoSuchMessage);
    }
    var key := DirectoryKey(path, TreeIdOf(paths, path));
    if key in KeysOf(cache.recency) { HitIsTrue(cache, key); }
    var hit := cache.Get(key);
    if hit.Some? {
      TrueMore(old(cache.history), key, hit.value);
      ghost var other :| TreeIdOf(other, path) == key.tree && IsListing(hit.value, other, path);
      SameTreeSameListing(other, paths, path, hit.value);
      return Ok(hit.value);
    }
    r := Tree.Directory(paths, path);
    if r.Ok? {
      assert TrueEntry(key, r.value);
      TrueMore(cache.history, key, r.value);
      cache.Put(key, r.value);
    }
  }

  /** The path belongs in the key. Two messages of one size whose IDs share their last digit make one tree, and one
      object ID, under two directories with different listings. */
  lemma {:induction false} PathIsNeeded(m: Message, n: Message, a: string, b: string, name: string)
    requires IsMessage(m) && IsMessage(n) && m != n
    requires m.path == a + "/" + name && n.path == b + "/" + name && Dir(m.path) == a && Dir(n.path) == b
    ensures TreeIdOf({m.path}, a) == TreeIdOf({n.path}, b)
    ensures IsListing([m], {m.path}, a) && !IsListing([m], {n.path}, b)
  {
    OnlyName(a, name);
    OnlyName(b, name);
    NamesMember([m], m.path);
    if m.path == n.path { MessagePathInjective(m.id, m.size, n.id, n.size); }
    assert Under({m.path}, a) == {m.path};
    assert [m][..0] == [] && Names([m]) == {m.path};
    assert n.path in Under({n.path}, b);
  }

  /** That is so for any two messages of one size whose IDs differ by a multiple of the radix: 1 and 1025, say. */
  lemma {:induction false} PathIsNeededFor(id: uint64, other: uint64, size: uint64)
    requires id > 0 && other > 0 && id != other && id % 1024 == other % 1024
    ensures var m, n := MessagePath(id, size), MessagePath(other, size);
            && TreeIdOf({m}, LeafOf(id)) == TreeIdOf({n}, LeafOf(other))
            && IsListing([Message(id, size, m)], {m}, LeafOf(id))
            && !IsListing([Message(id, size, m)], {n}, LeafOf(other))
  {
    PathIsLeafAndName(id, size);
    PathIsLeafAndName(other, size);
    DirOfMessagePath(id, size);
    DirOfMessagePath(other, size);
    PathIsNeeded(Message(id, size, MessagePath(id, size)), Message(other, size, MessagePath(other, size)),
                 LeafOf(id), LeafOf(other), FileName(id, size));
  }

  lemma {:induction false} PathIsNeededForOne()
    ensures var m, n := MessagePath(1, 5), MessagePath(1025, 5);
            TreeIdOf({m}, LeafOf(1)) == TreeIdOf({n}, LeafOf(1025)) && !IsListing([Message(1, 5, m)], {n}, LeafOf(1025))
  {
    PathIsNeededFor(1, 1025, 5);
  }

  lemma {:induction false} OnlyName(a: string, name: string)
    ensures TreeIdOf({a + "/" + name}, a) == {name}
    ensures a + "/" <= a + "/" + name
  {
    assert (a + "/" + name)[|a| + 1..] == name;
    assert name in TreeIdOf({a + "/" + name}, a);
  }
}
