/**
  The abstract meaning of the LRU cache: a key-to-value map together with the
  recency order of its keys, most recently used first and least recently used
  last. `put` and `get` are stated here as functions on that abstract state;
  the linked implementation in module LruCache is proved to follow them.
 */
module LruSpec {
  import opened Wrappers

  /** No key occurs twice in `s`. */
  ghost predicate NoDup<K>(s: seq<K>)
  {
    forall i, j :: 0 <= i < j < |s| ==> s[i] != s[j]
  }

  /** `s` with `k` deleted; the other keys keep their relative order. */
  function Remove<K(==)>(s: seq<K>, k: K): (r: seq<K>)
    ensures |r| <= |s|
  {
    if s == [] then []
    else if s[0] == k then Remove(s[1..], k)
    else [s[0]] + Remove(s[1..], k)
  }

  /** Removal keeps exactly the other keys. */
  lemma {:induction false} RemoveMembers<K>(s: seq<K>, k: K)
    ensures forall x :: x in Remove(s, k) ==> x in s && x != k
    ensures forall x :: x in s && x != k ==> x in Remove(s, k)
  {
    if s != [] {
      RemoveMembers(s[1..], k);
      assert s == [s[0]] + s[1..];
    }
  }

  lemma {:induction false} RemoveAbsent<K>(s: seq<K>, k: K)
    requires k !in s
    ensures Remove(s, k) == s
  {
    if s != [] {
      RemoveAbsent(s[1..], k);
    }
  }

  /** Deleting a key a second time changes nothing. */
  lemma RemoveTwice<K>(s: seq<K>, k: K)
    ensures Remove(Remove(s, k), k) == Remove(s, k)
  {
    RemoveMembers(s, k);
    RemoveAbsent(Remove(s, k), k);
  }

  /** In a list without duplicates, deleting the key at index `i` cuts exactly that position out. */
  lemma {:induction false} RemoveAt<K>(s: seq<K>, i: nat)
    requires NoDup(s) && i < |s|
    ensures Remove(s, s[i]) == s[..i] + s[i + 1..]
  {
    if i == 0 {
      assert s[0] !in s[1..] by {
        forall j | 0 <= j < |s[1..]| ensures s[1..][j] != s[0] {
          assert s[1..][j] == s[j + 1];
        }
      }
      RemoveAbsent(s[1..], s[0]);
    } else {
      assert s[0] != s[i];
      assert NoDup(s[1..]) by {
        forall a, b | 0 <= a < b < |s[1..]| ensures s[1..][a] != s[1..][b] {
          assert s[1..][a] == s[a + 1] && s[1..][b] == s[b + 1];
        }
      }
      RemoveAt(s[1..], i - 1);
      assert s[1..][i - 1] == s[i];
      calc {
        Remove(s, s[i]);
        [s[0]] + Remove(s[1..], s[i]);
        [s[0]] + (s[1..][..i - 1] + s[1..][i..]);
        { assert [s[0]] + s[1..][..i - 1] == s[..i]; assert s[1..][i..] == s[i + 1..]; }
        s[..i] + s[i + 1..];
      }
    }
  }

  /** Cutting one position out of a list without duplicates leaves a list without duplicates. */
  lemma CutNoDup<K>(s: seq<K>, i: nat)
    requires NoDup(s) && i < |s|
    ensures NoDup(s[..i] + s[i + 1..])
  {
    var t := s[..i] + s[i + 1..];
    forall a, b | 0 <= a < b < |t| ensures t[a] != t[b] {
      var a' := if a < i then a else a + 1;
      var b' := if b < i then b else b + 1;
      assert t[a] == s[a'] && t[b] == s[b'];
    }
  }

  /** Deleting a key that occurs once shortens the list by one and keeps it free of duplicates. */
  lemma RemovePresent<K>(s: seq<K>, k: K)
    requires NoDup(s) && k in s
    ensures |Remove(s, k)| == |s| - 1 && NoDup(Remove(s, k))
    ensures forall x :: x in Remove(s, k) ==> x in s && x != k
    ensures forall x :: x in s && x != k ==> x in Remove(s, k)
  {
    RemoveMembers(s, k);
    var i :| 0 <= i < |s| && s[i] == k;
    RemoveAt(s, i);
    CutNoDup(s, i);
  }

  /** A list without duplicates has as many elements as the set of its elements. */
  lemma {:induction false} NoDupSize<K>(s: seq<K>)
    requires NoDup(s)
    ensures |set x | x in s| == |s|
  {
    if s != [] {
      var n := |s| - 1;
      var init := s[..n];
      assert NoDup(init);
      NoDupSize(init);
      assert (set x | x in s) == (set x | x in init) + {s[n]};
      assert s[n] !in (set x | x in init);
    }
  }

  /** Appending a key that is not there keeps a list free of duplicates. */
  lemma SnocNoDup<K>(s: seq<K>, k: K)
    requires NoDup(s) && k !in s
    ensures NoDup(s + [k])
  {
    var t := s + [k];
    forall a, b | 0 <= a < b < |t| ensures t[a] != t[b] {
      assert t[a] == s[a];
    }
  }

  /** Prepending a key that is not there keeps a list free of duplicates. */
  lemma ConsNoDup<K>(k: K, s: seq<K>)
    requires NoDup(s) && k !in s
    ensures NoDup([k] + s)
  {
    var t := [k] + s;
    forall a, b | 0 <= a < b < |t| ensures t[a] != t[b] {
      assert t[b] == s[b - 1];
      if a > 0 {
        assert t[a] == s[a - 1];
      }
    }
  }

  function Last<K(==)>(s: seq<K>): K
    requires s != []
  {
    s[|s| - 1]
  }

  /** The abstract state: what is cached, and the recency order of the keys (head first). */
  datatype State<K, V> = State(contents: map<K, V>, order: seq<K>)

  function Empty<K, V>(): State<K, V>
  {
    State(map[], [])
  }

  /**
    The state invariant: the order lists every cached key exactly once, and a
    positive capacity bounds the number of entries. A capacity of 0 bounds
    nothing, because eviction is triggered only by an exact size match.
   */
  ghost predicate Wf<K, V>(s: State<K, V>, capacity: nat)
  {
    && NoDup(s.order)
    && (forall k :: k in s.contents ==> k in s.order)
    && (forall k :: k in s.order ==> k in s.contents)
    && |s.order| == |s.contents|
    && (capacity > 0 ==> |s.contents| <= capacity)
  }

  /** Whether putting `key` first evicts: the key is new, the map holds exactly
      `capacity` entries and the list has a tail. */
  predicate Evicts<K(==), V>(s: State<K, V>, capacity: nat, key: K)
  {
    key !in s.contents && |s.contents| == capacity && s.order != []
  }

  /**
    `put`: an existing key gets the new value and moves to the head; a new key
    first evicts the tail when the map is full, and is then inserted at the head.
    Where the other keys end up in the order is stated by `PutKeepsOrder`
    and `PutEvictsTail`.
   */
  function Put<K(==), V>(s: State<K, V>, capacity: nat, key: K, value: V): (r: State<K, V>)
    ensures key in r.contents && r.contents[key] == value
    ensures r.order != [] && r.order[0] == key
    ensures key in s.contents ==> r.contents.Keys == s.contents.Keys
    ensures Evicts(s, capacity, key) ==> r.contents.Keys == s.contents.Keys - {Last(s.order)} + {key}
    ensures !Evicts(s, capacity, key) ==> r.contents.Keys == s.contents.Keys + {key}
    ensures forall k :: k in r.contents && k != key ==> k in s.contents && r.contents[k] == s.contents[k]
  {
    if key in s.contents then
      State(s.contents[key := value], [key] + Remove(s.order, key))
    else if Evicts(s, capacity, key) then
      var lru := Last(s.order);
      State((s.contents - {lru})[key := value], [key] + s.order[..|s.order| - 1])
    else
      State(s.contents[key := value], [key] + s.order)
  }

  /**
    `get`: a present key is returned and moved to the head; an absent one
    changes nothing. Either way the other keys keep their relative order.
   */
  function Get<K(==), V>(s: State<K, V>, key: K): (r: (Option<V>, State<K, V>))
    ensures r.0.Some? <==> key in s.contents
    ensures r.0.Some? ==> r.0.value == s.contents[key] && r.1.order != [] && r.1.order[0] == key
    ensures r.1.contents == s.contents
    ensures key !in s.contents ==> r.1 == s
    ensures Remove(r.1.order, key) == Remove(s.order, key)
  {
    if key in s.contents then
      RemoveTwice(s.order, key);
      (Some(s.contents[key]), State(s.contents, [key] + Remove(s.order, key)))
    else
      (None, s)
  }

  /**
    Unless the tail is evicted, a put leaves the other keys in their relative
    order: on an update and on an insert that evicts nothing, deleting the key
    from the order before and after gives the same list.
   */
  lemma PutKeepsOrder<K, V>(s: State<K, V>, capacity: nat, key: K, value: V)
    requires !Evicts(s, capacity, key)
    ensures Remove(Put(s, capacity, key, value).order, key) == Remove(s.order, key)
  {
    if key in s.contents {
      RemoveTwice(s.order, key);
    }
  }

  /** Dropping the last key of a list without duplicates drops exactly that key. */
  lemma DropLast<K>(s: seq<K>)
    requires NoDup(s) && s != []
    ensures NoDup(s[..|s| - 1])
    ensures forall k :: k in s[..|s| - 1] ==> k in s && k != Last(s)
    ensures forall k :: k in s && k != Last(s) ==> k in s[..|s| - 1]
  {
    var n := |s| - 1;
    forall k | k in s && k != Last(s) ensures k in s[..n] {
      var i :| 0 <= i < |s| && s[i] == k;
      assert s[..n][i] == k;
    }
  }

  lemma UpdateKeepsWf<K, V>(s: State<K, V>, capacity: nat, key: K, value: V)
    requires Wf(s, capacity) && key in s.contents
    ensures Wf(Put(s, capacity, key, value), capacity)
    ensures |Put(s, capacity, key, value).contents| == |s.contents|
  {
    RemovePresent(s.order, key);
    ConsNoDup(key, Remove(s.order, key));
    assert Put(s, capacity, key, value) == State(s.contents[key := value], [key] + Remove(s.order, key));
  }

  lemma EvictKeepsWf<K, V>(s: State<K, V>, capacity: nat, key: K, value: V)
    requires Wf(s, capacity) && Evicts(s, capacity, key)
    ensures Wf(State((s.contents - {Last(s.order)})[key := value], [key] + s.order[..|s.order| - 1]), capacity)
    ensures |(s.contents - {Last(s.order)})[key := value]| == |s.contents|
  {
    var o := s.order;
    var lru := Last(o);
    var rest := o[..|o| - 1];
    var c := (s.contents - {lru})[key := value];
    DropLast(o);
    ConsNoDup(key, rest);
    ReplaceSize(s.contents, lru, key, value);
    forall k | k in c ensures k in [key] + rest {
      if k != key {
        assert k in s.contents && k != lru;
      }
    }
    forall k | k in [key] + rest ensures k in c {
      if k != key {
        assert k in rest;
      }
    }
  }

  /** Swapping a present key for an absent one keeps the size of a map. */
  lemma ReplaceSize<K, V>(c: map<K, V>, old_key: K, key: K, value: V)
    requires old_key in c && key !in c
    ensures |(c - {old_key})[key := value]| == |c|
  {
    assert |c - {old_key}| == |c| - 1;
  }

  lemma InsertKeepsWf<K, V>(s: State<K, V>, capacity: nat, key: K, value: V)
    requires Wf(s, capacity) && key !in s.contents && !Evicts(s, capacity, key)
    ensures Wf(Put(s, capacity, key, value), capacity)
    ensures |Put(s, capacity, key, value).contents| == |s.contents| + 1
  {
    ConsNoDup(key, s.order);
    assert Put(s, capacity, key, value) == State(s.contents[key := value], [key] + s.order);
  }

  /** Every `put` keeps the invariant, and so the bound on the number of entries. */
  lemma PutPreservesWf<K, V>(s: State<K, V>, capacity: nat, key: K, value: V)
    requires Wf(s, capacity)
    ensures Wf(Put(s, capacity, key, value), capacity)
    ensures |Put(s, capacity, key, value).contents| ==
      if key in s.contents || Evicts(s, capacity, key) then |s.contents| else |s.contents| + 1
  {
    if key in s.contents {
      UpdateKeepsWf(s, capacity, key, value);
    } else if Evicts(s, capacity, key) {
      EvictKeepsWf(s, capacity, key, value);
      assert Put(s, capacity, key, value) ==
        State((s.contents - {Last(s.order)})[key := value], [key] + s.order[..|s.order| - 1]);
    } else {
      InsertKeepsWf(s, capacity, key, value);
    }
  }

  /** A new key put into a full cache of positive capacity evicts exactly the
      least recently used key, and nothing else. */
  lemma PutEvictsTail<K, V>(s: State<K, V>, capacity: nat, key: K, value: V)
    requires Wf(s, capacity) && capacity > 0
    requires key !in s.contents && |s.contents| == capacity
    ensures var r := Put(s, capacity, key, value);
      && Evicts(s, capacity, key)
      && Last(s.order) !in r.contents
      && r.contents.Keys == s.contents.Keys - {Last(s.order)} + {key}
      && r.order == [key] + s.order[..|s.order| - 1]
      && |r.contents| == capacity
  {
    assert s.order != [];
    assert Last(s.order) in s.contents;
    PutPreservesWf(s, capacity, key, value);
  }

  /** `get` keeps the invariant. */
  lemma GetPreservesWf<K, V>(s: State<K, V>, capacity: nat, key: K)
    requires Wf(s, capacity)
    ensures Wf(Get(s, key).1, capacity)
  {
    if key in s.contents {
      RemovePresent(s.order, key);
      ConsNoDup(key, Remove(s.order, key));
    }
  }

  /** Promoting the key that is already at the head changes nothing. */
  lemma GetHeadKeepsOrder<K, V>(s: State<K, V>, capacity: nat)
    requires Wf(s, capacity) && s.order != []
    ensures Get(s, s.order[0]).1 == s
  {
    var o := s.order;
    assert o[0] in s.contents;
    assert Remove(o, o[0]) == o[1..] by {
      RemoveAt(o, 0);
    }
    assert [o[0]] + o[1..] == o;
  }

  /**
    Puts the pairs into `s` one after another, in sequence order. The last
    pair put is the most recent entry and holds its value, and every key
    cached afterwards was cached before or is the key of one of the pairs.
   */
  function PutAll<K(==), V>(s: State<K, V>, capacity: nat, pairs: seq<(K, V)>): (r: State<K, V>)
    ensures pairs != [] ==>
      var last := pairs[|pairs| - 1];
      r.order != [] && r.order[0] == last.0 && last.0 in r.contents && r.contents[last.0] == last.1
    ensures forall k :: k in r.contents ==> k in s.contents || k in KeysOf(pairs)
    decreases |pairs|
  {
    if pairs == [] then s
    else
      var n := |pairs| - 1;
      var prev := PutAll(s, capacity, pairs[..n]);
      assert forall k :: k in prev.contents ==> k in s.contents || k in KeysOf(pairs) by {
        forall k | k in prev.contents && k !in s.contents ensures k in KeysOf(pairs) {
          var i :| 0 <= i < n && KeysOf(pairs[..n])[i] == k;
          assert pairs[..n][i] == pairs[i];
          assert KeysOf(pairs)[i] == k;
        }
      }
      assert KeysOf(pairs)[n] == pairs[n].0;
      Put(prev, capacity, pairs[n].0, pairs[n].1)
  }

  /** The capacity invariant holds after any sequence of puts. */
  lemma {:induction false} PutAllPreservesWf<K, V>(s: State<K, V>, capacity: nat, pairs: seq<(K, V)>)
    requires Wf(s, capacity)
    ensures Wf(PutAll(s, capacity, pairs), capacity)
    decreases |pairs|
  {
    if pairs != [] {
      var n := |pairs| - 1;
      PutAllPreservesWf(s, capacity, pairs[..n]);
      PutPreservesWf(PutAll(s, capacity, pairs[..n]), capacity, pairs[n].0, pairs[n].1);
    }
  }

  /** The keys of the pairs, in sequence order. */
  function KeysOf<K(==), V>(pairs: seq<(K, V)>): (ks: seq<K>)
    ensures |ks| == |pairs|
    ensures forall i :: 0 <= i < |pairs| ==> ks[i] == pairs[i].0
  {
    if pairs == [] then [] else KeysOf(pairs[..|pairs| - 1]) + [pairs[|pairs| - 1].0]
  }

  /** The map the pairs describe when a later pair overrides an earlier one for the same key. */
  function MapOf<K(==), V>(pairs: seq<(K, V)>): (m: map<K, V>)
    ensures m.Keys == set k | k in KeysOf(pairs)
  {
    if pairs == [] then map[]
    else
      var n := |pairs| - 1;
      MapOf(pairs[..n])[pairs[n].0 := pairs[n].1]
  }

  function Reversed<K(==)>(s: seq<K>): (r: seq<K>)
    ensures |r| == |s|
    ensures forall i :: 0 <= i < |s| ==> r[i] == s[|s| - 1 - i]
  {
    if s == [] then [] else [s[|s| - 1]] + Reversed(s[..|s| - 1])
  }

  /**
    Putting at most `capacity` distinct keys into an empty cache evicts nothing:
    the cache holds exactly those pairs, the last one put at the head.
    With capacity 0 the same holds for any number of distinct keys.
   */
  lemma {:induction false} PutAllDistinct<K, V>(capacity: nat, pairs: seq<(K, V)>)
    requires NoDup(KeysOf(pairs))
    requires capacity == 0 || |pairs| <= capacity
    ensures PutAll(Empty(), capacity, pairs) == State(MapOf(pairs), Reversed(KeysOf(pairs)))
    ensures |MapOf(pairs)| == |pairs|
    decreases |pairs|
  {
    if pairs != [] {
      var n := |pairs| - 1;
      var init := pairs[..n];
      assert KeysOf(init) == KeysOf(pairs)[..n];
      assert NoDup(KeysOf(init));
      PutAllDistinct(capacity, init);
      var k := pairs[n].0;
      assert KeysOf(pairs)[n] == k;
      assert k !in KeysOf(init) by {
        forall j | 0 <= j < n ensures KeysOf(init)[j] != k {
          assert KeysOf(init)[j] == KeysOf(pairs)[j];
        }
      }
      var s := PutAll(Empty<K, V>(), capacity, init);
      assert !Evicts(s, capacity, k);
      assert Reversed(KeysOf(pairs)) == [k] + Reversed(KeysOf(init));
    }
  }

  /** With distinct keys, each pair's value is the one the map records for its key. */
  lemma {:induction false} MapOfAt<K, V>(pairs: seq<(K, V)>, i: nat)
    requires NoDup(KeysOf(pairs)) && i < |pairs|
    ensures pairs[i].0 in MapOf(pairs) && MapOf(pairs)[pairs[i].0] == pairs[i].1
    decreases |pairs|
  {
    var n := |pairs| - 1;
    if i < n {
      var init := pairs[..n];
      assert KeysOf(init) == KeysOf(pairs)[..n];
      MapOfAt(init, i);
      assert KeysOf(pairs)[i] != KeysOf(pairs)[n];
    }
  }

  /**
    Eviction correctness: putting `capacity + 1` distinct keys into an empty
    cache with no lookups in between evicts the first key and keeps all others.
   */
  lemma FirstOfOneTooManyIsEvicted<K, V>(capacity: nat, pairs: seq<(K, V)>)
    requires capacity > 0 && |pairs| == capacity + 1
    requires NoDup(KeysOf(pairs))
    ensures var r := PutAll(Empty(), capacity, pairs);
      && pairs[0].0 !in r.contents
      && forall i :: 1 <= i < |pairs| ==> pairs[i].0 in r.contents && r.contents[pairs[i].0] == pairs[i].1
  {
    var n := |pairs| - 1;
    var init := pairs[..n];
    assert KeysOf(init) == KeysOf(pairs)[..n];
    PutAllDistinct(capacity, init);
    var s := PutAll(Empty<K, V>(), capacity, init);
    var k := pairs[n].0;
    assert k !in KeysOf(init) by {
      forall j | 0 <= j < n ensures KeysOf(init)[j] != k {
        assert KeysOf(pairs)[j] != KeysOf(pairs)[n];
      }
    }
    assert Last(s.order) == pairs[0].0;
    PutAllPreservesWf(Empty<K, V>(), capacity, init);
    PutEvictsTail(s, capacity, k, pairs[n].1);
    var r := Put(s, capacity, k, pairs[n].1);
    assert PutAll(Empty(), capacity, pairs) == r;
    forall i | 1 <= i < n ensures pairs[i].0 in r.contents && r.contents[pairs[i].0] == pairs[i].1 {
      MapOfAt(init, i);
      assert init[i] == pairs[i];
      assert KeysOf(pairs)[i] != KeysOf(pairs)[0] && KeysOf(pairs)[i] != KeysOf(pairs)[n];
      PutKeepsOthers(s, capacity, k, pairs[n].1, pairs[i].0);
    }
    assert k in r.contents && r.contents[k] == pairs[n].1;
    assert forall i :: 1 <= i < |pairs| ==> pairs[i].0 in r.contents && r.contents[pairs[i].0] == pairs[i].1 by {
      forall i | 1 <= i < |pairs| ensures pairs[i].0 in r.contents && r.contents[pairs[i].0] == pairs[i].1 {
        if i == n {
          assert pairs[i].0 == k;
        }
      }
    }
  }

  /** A put leaves every other entry alone, except the tail when it evicts. */
  lemma PutKeepsOthers<K, V>(s: State<K, V>, capacity: nat, key: K, value: V, other: K)
    requires other in s.contents && other != key
    requires Evicts(s, capacity, key) ==> other != Last(s.order)
    ensures other in Put(s, capacity, key, value).contents
    ensures Put(s, capacity, key, value).contents[other] == s.contents[other]
  {
  }

  /**
    Capacity 0: eviction waits for an exact size match that never comes once
    the first entry is in, so the cache keeps every key it has ever been given.
   */
  lemma {:induction false} ZeroCapacityRetainsAll<K, V>(pairs: seq<(K, V)>)
    ensures PutAll(Empty(), 0, pairs).contents == MapOf(pairs)
    decreases |pairs|
  {
    if pairs != [] {
      var n := |pairs| - 1;
      ZeroCapacityRetainsAll(pairs[..n]);
      PutAllPreservesWf(Empty<K, V>(), 0, pairs[..n]);
      var s := PutAll(Empty<K, V>(), 0, pairs[..n]);
      assert !Evicts(s, 0, pairs[n].0);
      assert PutAll(Empty(), 0, pairs) == Put(s, 0, pairs[n].0, pairs[n].1);
      assert Put(s, 0, pairs[n].0, pairs[n].1).contents == s.contents[pairs[n].0 := pairs[n].1];
    }
  }
}
