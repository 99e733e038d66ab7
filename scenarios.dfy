/**
  The repository's usage scenarios, each written against the linked cache and proved to
  give the lookups their stated answers.
 */
module Scenarios {
  import opened Wrappers
  import opened LruSpec
  import opened LruCache
  import opened LineFormat
  import opened Persistence

  /** Two distinct keys fill a two-slot cache, the second one put at the head. */
  lemma FillTwo<K, V>(a: K, x: V, b: K, y: V)
    requires a != b
    ensures Put(Put(Empty(), 2, a, x), 2, b, y) == State(map[a := x, b := y], [b, a])
  {
  }

  /** Looking up the tail of a full two-slot cache moves it to the head. */
  lemma RefreshTail<K, V>(a: K, x: V, b: K, y: V)
    requires a != b
    ensures Get(State(map[a := x, b := y], [b, a]), a) == (Some(x), State(map[a := x, b := y], [a, b]))
  {
    assert Remove([b, a], a) == [b];
    assert [a] + [b] == [a, b];
  }

  /** Putting the tail key again replaces its value and moves it to the head. */
  lemma UpdateTail<K, V>(a: K, x: V, b: K, y: V, z: V)
    requires a != b
    ensures Put(State(map[a := x, b := y], [b, a]), 2, a, z) == State(map[a := z, b := y], [a, b])
  {
    assert Remove([b, a], a) == [b];
  }

  /** A third key put into a full two-slot cache evicts the tail. */
  lemma EvictTail<K, V>(a: K, x: V, b: K, y: V, c: K, z: V)
    requires a != b && c != a && c != b
    ensures Put(State(map[a := x, b := y], [a, b]), 2, c, z) == State(map[a := x, c := z], [c, a])
  {
    assert map[a := x, b := y] - {b} == map[a := x];
  }

  /** The same when the first key put is still the tail: it is the one evicted. */
  lemma EvictFirst<K, V>(a: K, x: V, b: K, y: V, c: K, z: V)
    requires a != b && c != a && c != b
    ensures Put(State(map[a := x, b := y], [b, a]), 2, c, z) == State(map[b := y, c := z], [c, b])
  {
    var m := map[a := x, b := y];
    assert Last([b, a]) == a;
    assert [b, a][..1] == [b];
    assert (m - {a}).Keys == {b} && (m - {a})[b] == y;
    assert m - {a} == map[b := y];
  }

  /** Capacity 2: a lookup refreshes "a", so the third put evicts "b" rather than "a". */
  method BasicOperations() returns (a1: Option<int>, b: Option<int>, a2: Option<int>, c: Option<int>)
    ensures a1 == Some(1) && b == None && a2 == Some(1) && c == Some(3)
  {
    var cache := new Cache<string, int>(2);
    cache.Put("a", 1);
    cache.Put("b", 2);
    FillTwo("a", 1, "b", 2);
    a1 := cache.Get("a");
    RefreshTail("a", 1, "b", 2);
    cache.Put("c", 3);
    EvictTail("a", 1, "b", 2, "c", 3);
    b := cache.Get("b");
    a2 := cache.Get("a");
    c := cache.Get("c");
  }

  /** Capacity 2 and three puts without lookups: the first key put is the one evicted. */
  method CapacityEviction() returns (a: Option<int>, b: Option<int>, c: Option<int>)
    ensures a == None && b == Some(2) && c == Some(3)
  {
    var cache := new Cache<string, int>(2);
    cache.Put("A", 1);
    cache.Put("B", 2);
    FillTwo("A", 1, "B", 2);
    cache.Put("C", 3);
    EvictFirst("A", 1, "B", 2, "C", 3);
    a := cache.Get("A");
    b := cache.Get("B");
    c := cache.Get("C");
  }

  /** Putting an existing key replaces its value and keeps the other entry. */
  method UpdateExisting() returns (a: Option<int>, b: Option<int>)
    ensures a == Some(3) && b == Some(2)
  {
    var cache := new Cache<string, int>(2);
    cache.Put("A", 1);
    cache.Put("B", 2);
    FillTwo("A", 1, "B", 2);
    cache.Put("A", 3);
    UpdateTail("A", 1, "B", 2, 3);
    a := cache.Get("A");
    b := cache.Get("B");
  }

  /**
    An update makes its key the most recently used one, so the next new key
    evicts the other entry and the cache stays within its capacity.
   */
  method UpdateThenInsert() returns (a: Option<int>, b: Option<int>, c: Option<int>, size: nat)
    ensures a == Some(3) && b == None && c == Some(4) && size == 2
  {
    var cache := new Cache<string, int>(2);
    cache.Put("A", 1);
    cache.Put("B", 2);
    FillTwo("A", 1, "B", 2);
    cache.Put("A", 3);
    UpdateTail("A", 1, "B", 2, 3);
    cache.Put("C", 4);
    EvictTail("A", 3, "B", 2, "C", 4);
    size := |cache.entries|;
    a := cache.Get("A");
    b := cache.Get("B");
    c := cache.Get("C");
  }

  /** A lookup of a missing key answers None and does not refresh anything: "A" is still evicted next. */
  method AbsentLookupKeepsOrder() returns (x: Option<int>, a: Option<int>)
    ensures x == None && a == None
  {
    var cache := new Cache<string, int>(2);
    cache.Put("A", 1);
    cache.Put("B", 2);
    FillTwo("A", 1, "B", 2);
    x := cache.Get("X");
    cache.Put("C", 3);
    EvictFirst("A", 1, "B", 2, "C", 3);
    a := cache.Get("A");
  }

  /**
    Persistence: a cache that started without a file saves two entries; a
    new cache loading the written text answers both lookups with the saved values.
   */
  method PersistenceRoundTrip(kc: Codec<string>, vc: Codec<int>) returns (test: Option<int>, test2: Option<int>)
    requires RoundTrips(map["test" := 123, "test2" := 456], kc, vc)
    ensures test == Some(123) && test2 == Some(456)
  {
    var first := NewPersistent(2, None, kc, vc);
    first.Put("test", 123);
    first.Put("test2", 456);
    FillTwo("test", 123, "test2", 456);
    var text := SaveToFile(first, kc, vc);
    LoadSavedRoundTrip(2, first.Contents(), text, kc, vc);
    var second := NewPersistent(2, Some(text), kc, vc);
    test := second.Get("test");
    test2 := second.Get("test2");
  }
}
