/** internal/archive/cache.go: the least-recently-used cache of parsed directories, and Store.directory through it. */
module Cache {
  import opened Prelude

  datatype Entry<K, V> = Entry(key: K, value: V)

  function KeysOf<K, V>(list: seq<Entry<K, V>>): (keys: seq<K>)
    ensures |keys| == |list|
  {
    if list == [] then [] else [list[0].key] + KeysOf(list[1..])
  }

  function Drop<K(==), V>(list: seq<Entry<K, V>>, key: K): (rest: seq<Entry<K, V>>)
    ensures |rest| <= |list|
  {
    if list == [] then []
    else if list[0].key == key then Drop(list[1..], key)
    else [list[0]] + Drop(list[1..], key)
  }

  /** The most recent access of every key, most recent first. */
  ghost function Latest<K, V>(history: seq<Entry<K, V>>): seq<Entry<K, V>> {
    if history == [] then [] else [history[0]] + Drop(Latest(history[1..]), history[0].key)
  }

  function Front<T>(list: seq<T>, n: nat): seq<T> { if |list| <= n then list else list[..n] }

  lemma {:induction false} DropAbsent<K, V>(list: seq<Entry<K, V>>, key: K)
    requires key !in KeysOf(list)
    ensures Drop(list, key) == list
  {
    if list != [] {
      assert list == [list[0]] + list[1..];
      DropAbsent(list[1..], key);
    }
  }

  lemma {:induction false} DropKeys<K, V>(list: seq<Entry<K, V>>, key: K, k: K)
    ensures k in KeysOf(Drop(list, key)) <==> k in KeysOf(list) && k != key
  {
    if list != [] {
      DropKeys(list[1..], key, k);
      if list[0].key != key {
        assert ([list[0]] + Drop(list[1..], key))[1..] == Drop(list[1..], key);
      }
    }
  }

  /** No key twice. */
  ghost predicate NoRepeats<K, V>(list: seq<Entry<K, V>>) {
    list == [] || (list[0].key !in KeysOf(list[1..]) && NoRepeats(list[1..]))
  }

  lemma {:induction false} DropDistinct<K, V>(list: seq<Entry<K, V>>, key: K)
    requires NoRepeats(list)
    ensures NoRepeats(Drop(list, key))
    ensures |Drop(list, key)| == |list| - if key in KeysOf(list) then 1 else 0
  {
    if list != [] {
      DropDistinct(list[1..], key);
      if list[0].key == key {
        DropAbsent(list[1..], key);
      } else {
        DropKeys(list[1..], key, list[0].key);
        assert ([list[0]] + Drop(list[1..], key))[1..] == Drop(list[1..], key);
      }
    }
  }

  lemma {:induction false} LatestDistinct<K, V>(history: seq<Entry<K, V>>)
    ensures NoRepeats(Latest(history))
  {
    if history != [] {
      LatestDistinct(history[1..]);
      DropDistinct(Latest(history[1..]), history[0].key);
      DropKeys(Latest(history[1..]), history[0].key, history[0].key);
      assert Latest(history)[1..] == Drop(Latest(history[1..]), history[0].key);
    }
  }

  /** Dropping a key that the front holds is dropping it from one more than fits. */
  lemma {:induction false} FrontDrop<K, V>(list: seq<Entry<K, V>>, key: K, n: nat)
    requires NoRepeats(list) && n > 0
    ensures key in KeysOf(Front(list, n)) ==> Front(Drop(list, key), n - 1) == Drop(Front(list, n), key)
    ensures key !in KeysOf(Front(list, n)) ==> Front(Drop(list, key), n - 1) == Front(list, n - 1)
  {
    if list == [] {
    } else if list[0].key == key {
      DropAbsent(list[1..], key);
      FrontTail(list, n);
      FrontKeys(list[1..], n - 1, key);
      DropAbsent(Front(list[1..], n - 1), key);
    } else {
      FrontTail(list, n);
      var rest := Drop(list[1..], key);
      if n > 1 {
        FrontDrop(list[1..], key, n - 1);
        FrontTail([list[0]] + rest, n - 1);
        FrontTail(list, n - 1);
        assert ([list[0]] + rest)[1..] == rest;
      }
    }
  }

  lemma {:induction false} FrontTail<K, V>(list: seq<Entry<K, V>>, n: nat)
    requires list != [] && n > 0
    ensures Front(list, n) == [list[0]] + Front(list[1..], n - 1)
    ensures Front(list, n)[1..] == Front(list[1..], n - 1)
  {
  }

  lemma {:induction false} FrontKeys<K, V>(list: seq<Entry<K, V>>, n: nat, key: K)
    ensures key in KeysOf(Front(list, n)) ==> key in KeysOf(list)
  {
    if list != [] && n > 0 {
      FrontTail(list, n);
      FrontKeys(list[1..], n - 1, key);
      KeysCons(list[0], Front(list[1..], n - 1));
    }
  }

  lemma {:induction false} KeysCons<K, V>(e: Entry<K, V>, rest: seq<Entry<K, V>>)
    ensures KeysOf([e] + rest) == [e.key] + KeysOf(rest)
  {
    assert ([e] + rest)[1..] == rest;
  }

  lemma {:induction false} FrontDistinct<K, V>(list: seq<Entry<K, V>>, n: nat)
    requires NoRepeats(list)
    ensures NoRepeats(Front(list, n))
  {
    if list != [] && n > 0 {
      FrontTail(list, n);
      FrontDistinct(list[1..], n - 1);
      if list[0].key in KeysOf(Front(list[1..], n - 1)) { FrontKeys(list[1..], n - 1, list[0].key); }
    }
  }

  /** One more access, as the cache's list sees it. */
  lemma {:induction false} TouchFront<K, V>(history: seq<Entry<K, V>>, e: Entry<K, V>, n: nat)
    ensures var list := Front(Latest(history), n);
            Front(Latest([e] + history), n) ==
              if n == 0 then [] else if e.key in KeysOf(list) then [e] + Drop(list, e.key) else Front([e] + list, n)
  {
    LatestDistinct(history);
    var whole := Latest(history);
    assert ([e] + history)[1..] == history;
    assert Latest([e] + history) == [e] + Drop(whole, e.key);
    if n > 0 {
      FrontDrop(whole, e.key, n);
      FrontTail([e] + Drop(whole, e.key), n);
      assert ([e] + Drop(whole, e.key))[1..] == Drop(whole, e.key);
      assert Front([e] + Front(whole, n), n) == [e] + Front(whole, n - 1);
    }
  }

  function ValueOf<K(==), V>(list: seq<Entry<K, V>>, key: K): V
    requires key in KeysOf(list)
  {
    if list[0].key == key then list[0].value
    else
      assert key in KeysOf(list[1..]);
      ValueOf(list[1..], key)
  }

  lemma {:induction false} ValueCons<K, V>(e: Entry<K, V>, rest: seq<Entry<K, V>>, key: K)
    requires key == e.key || key in KeysOf(rest)
    ensures key in KeysOf([e] + rest)
    ensures ValueOf([e] + rest, key) == if key == e.key then e.value else ValueOf(rest, key)
  {
    KeysCons(e, rest);
    assert ([e] + rest)[1..] == rest;
  }

  /** The map and the list hold the same keys with the same values. */
  ghost predicate Mirrors<K(!new), V>(entries: map<K, V>, list: seq<Entry<K, V>>) {
    && (forall key :: key in entries <==> key in KeysOf(list))
    && forall key :: key in entries ==> key in KeysOf(list) && entries[key] == ValueOf(list, key)
  }

  lemma {:induction false} DropValue<K, V>(list: seq<Entry<K, V>>, key: K, k: K)
    requires k in KeysOf(list) && k != key
    ensures k in KeysOf(Drop(list, key)) && ValueOf(Drop(list, key), k) == ValueOf(list, k)
  {
    DropKeys(list, key, k);
    if list[0].key == key {
      DropValue(list[1..], key, k);
    } else if list[0].key != k {
      assert ([list[0]] + Drop(list[1..], key))[1..] == Drop(list[1..], key);
      DropValue(list[1..], key, k);
    }
  }

  lemma {:induction false} MoveToFront<K(!new), V>(entries: map<K, V>, list: seq<Entry<K, V>>, e: Entry<K, V>)
    requires Mirrors(entries, list)
    ensures Mirrors(entries[e.key := e.value], [e] + Drop(list, e.key))
  {
    var more := [e] + Drop(list, e.key);
    assert more[1..] == Drop(list, e.key);
    forall key ensures key in entries[e.key := e.value] <==> key in KeysOf(more) { DropKeys(list, e.key, key); }
    forall key | key in entries[e.key := e.value]
      ensures key in KeysOf(more) && entries[e.key := e.value][key] == ValueOf(more, key)
    {
      if key != e.key { DropValue(list, e.key, key); }
    }
  }

  lemma {:induction false} LastKey<K, V>(list: seq<Entry<K, V>>)
    requires NoRepeats(list) && list != []
    ensures var n := |list| - 1; Drop(list, list[n].key) == list[..n]
  {
    var n := |list| - 1;
    if n == 0 {
      assert Drop(list, list[0].key) == Drop(list[1..], list[0].key) == [];
    } else {
      LastKey(list[1..]);
      KeyOfLast(list[1..]);
      assert list[..n] == [list[0]] + list[1..][..n - 1];
    }
  }

  lemma {:induction false} KeyOfLast<K, V>(list: seq<Entry<K, V>>)
    requires list != []
    ensures list[|list| - 1].key in KeysOf(list)
  {
    if |list| > 1 { KeyOfLast(list[1..]); }
  }

  lemma {:induction false} RemoveLast<K(!new), V>(entries: map<K, V>, list: seq<Entry<K, V>>)
    requires Mirrors(entries, list) && NoRepeats(list) && list != []
    ensures Mirrors(entries - {list[|list| - 1].key}, list[..|list| - 1])
  {
    var last := list[|list| - 1].key;
    LastKey(list);
    forall key ensures key in entries - {last} <==> key in KeysOf(list[..|list| - 1]) { DropKeys(list, last, key); }
    forall key | key in entries - {last}
      ensures key in KeysOf(list[..|list| - 1]) && entries[key] == ValueOf(list[..|list| - 1], key)
    {
      DropValue(list, last, key);
    }
  }

  class DirectoryCache<K(==, !new), V(!new)> {
    const capacity: nat
    var entries: map<K, V>
    var recency: seq<Entry<K, V>>
    ghost var history: seq<Entry<K, V>> // every successful access, most recent first

    /** The list is the most recent access of each key, cut to the capacity; the map mirrors it. */
    ghost predicate Valid()
      reads this
    {
      recency == Front(Latest(history), capacity) && NoRepeats(recency) && Mirrors(entries, recency)
    }

    constructor (capacity: nat)
      ensures Valid() && this.capacity == capacity && history == [] && recency == []
    {
      this.capacity, entries, recency, history := capacity, map[], [], [];
    }

    method Get(key: K) returns (value: Option<V>)
      requires Valid()
      modifies this
      ensures Valid() && |recency| <= capacity
      ensures value == if key in KeysOf(old(recency)) then Some(ValueOf(old(recency), key)) else None
      ensures history == if value.Some? then [Entry(key, value.value)] + old(history) else old(history)
    {
      if key !in entries { return None; }
      var e := Entry(key, entries[key]);
      TouchFront(history, e, capacity);
      MoveToFront(entries, recency, e);
      assert entries[key := e.value] == entries;
      history := [e] + history;
      recency := [e] + Drop(recency, key);
      LatestDistinct(history);
      FrontDistinct(Latest(history), capacity);
      value := Some(e.value);
    }

    method Put(key: K, value: V)
      requires Valid()
      modifies this
      ensures Valid() && |recency| <= capacity
      ensures history == [Entry(key, value)] + old(history)
      ensures capacity > 0 ==> key in KeysOf(recency) && ValueOf(recency, key) == value
    {
      var e := Entry(key, value);
      TouchFront(history, e, capacity);
      MoveToFront(entries, recency, e);
      history := [e] + history;
      LatestDistinct(history);
      FrontDistinct(Latest(history), capacity);
      if key in entries {
        entries, recency := entries[key := value], [e] + Drop(recency, key);
        return;
      }
      DropAbsent(recency, key);
      PushDistinct(recency, e);
      entries, recency := entries[key := value], [e] + recency;
      if |recency| > capacity {
        RemoveLast(entries, recency);
        var oldest := recency[|recency| - 1];
        entries, recency := entries - {oldest.key}, recency[..|recency| - 1];
      }
    }
  }

  lemma {:induction false} PushDistinct<K, V>(list: seq<Entry<K, V>>, e: Entry<K, V>)
    requires NoRepeats(list) && e.key !in KeysOf(list)
    ensures NoRepeats([e] + list)
  {
    assert ([e] + list)[1..] == list;
  }

  /** What the cache remembers for a key is what was put or read last under it. */
  lemma {:induction false} LatestValue<K, V>(history: seq<Entry<K, V>>, key: K)
    ensures key in KeysOf(Latest(history)) <==> key in KeysOf(history)
    ensures key in KeysOf(history) ==> ValueOf(Latest(history), key) == ValueOf(history, key)
  {
    if history != [] {
      var first, rest := history[0], Latest(history[1..]);
      assert Latest(history)[1..] == Drop(rest, first.key);
      LatestValue(history[1..], key);
      DropKeys(rest, first.key, key);
      if key != first.key && key in KeysOf(history[1..]) { DropValue(rest, first.key, key); }
    }
  }

  /** How many accesses ago a key was used last. */
  ghost function Age<K, V>(history: seq<Entry<K, V>>, key: K): nat
    requires key in KeysOf(history)
  {
    if history[0].key == key then 0 else 1 + Age(history[1..], key)
  }

  /** Keys of the history, each used more recently than those behind it. */
  ghost predicate ByAge<K, V>(list: seq<Entry<K, V>>, history: seq<Entry<K, V>>) {
    list == [] || (
      && list[0].key in KeysOf(history) && ByAge(list[1..], history)
      && forall key :: key in KeysOf(list[1..]) && key in KeysOf(history) ==>
           Age(history, list[0].key) < Age(history, key))
  }

  /** The list is in the order of last use. */
  lemma {:induction false} LatestByAge<K, V>(history: seq<Entry<K, V>>)
    ensures ByAge(Latest(history), history)
  {
    if history != [] {
      var first, rest := history[0], Latest(history[1..]);
      LatestByAge(history[1..]);
      DropByAge(rest, history, first.key);
      assert Latest(history)[1..] == Drop(rest, first.key);
      DropKeys(rest, first.key, first.key);
    }
  }

  lemma {:induction false} DropByAge<K, V>(list: seq<Entry<K, V>>, history: seq<Entry<K, V>>, key: K)
    requires history != [] && history[0].key == key && ByAge(list, history[1..])
    ensures ByAge(Drop(list, key), history)
  {
    if list != [] {
      DropByAge(list[1..], history, key);
      if list[0].key != key {
        assert ([list[0]] + Drop(list[1..], key))[1..] == Drop(list[1..], key);
        forall k | k in KeysOf(Drop(list[1..], key)) && k in KeysOf(history)
          ensures Age(history, list[0].key) < Age(history, k)
        {
          DropKeys(list[1..], key, k);
        }
      }
    }
  }
}
