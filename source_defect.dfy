/**
  The update path of `put` as the repository writes it: the entry is taken out
  of the map before the node is unlinked, so the unlink finds nothing and does
  nothing. The link-level steps are transcribed here on a plain state value,
  because the state the defect produces no longer satisfies the cache's `Valid`
  invariant, which every method of the `Cache` class demands. The model proper
  (`LruCache.Cache.Put`) unlinks first, as the code evidently intends.
 */
module SourceDefect {
  import opened Wrappers
  import opened LruCache

  /** The cache's fields: the entry map with its links, head (most recent), tail (least recent). */
  datatype Raw<K, V> = Raw(entries: map<K, (V, Node<K>)>, head: Option<K>, tail: Option<K>, capacity: nat)

  /**
    `remove_node` as written: an absent key changes nothing; otherwise the
    neighbours are relinked and head or tail repointed. The key's own entry stays.
   */
  function RawRemoveNode<K, V>(s: Raw<K, V>, key: K): (r: Raw<K, V>)
    ensures key !in s.entries ==> r == s
    ensures r.entries.Keys == s.entries.Keys && r.capacity == s.capacity
  {
    if key !in s.entries then s
    else
      var node := s.entries[key].1;
      match (node.prev, node.next)
      case (Some(p), Some(n)) => s.(entries := SetPrev(SetNext(s.entries, p, Some(n)), n, Some(p)))
      case (None, Some(n)) => s.(head := Some(n), entries := SetPrev(s.entries, n, None))
      case (Some(p), None) => s.(tail := Some(p), entries := SetNext(s.entries, p, None))
      case (None, None) => s.(head := None, tail := None)
  }

  /** `remove_tail` as written: unlink the tail key, then drop its entry; no tail, no change. */
  function RawRemoveTail<K, V>(s: Raw<K, V>): (r: Raw<K, V>)
    ensures s.tail.None? ==> r == s
    ensures s.tail.Some? ==> r.entries.Keys == s.entries.Keys - {s.tail.value}
    ensures r.capacity == s.capacity
  {
    match s.tail
    case None => s
    case Some(t) =>
      var s1 := RawRemoveNode(s, t);
      s1.(entries := s1.entries - {t})
  }

  /**
    `add_to_head` as written: the old head, if it has an entry, points back at
    `key`; an empty list makes `key` the tail; `key` gets the old head as its
    successor and becomes the head.
   */
  function RawAddToHead<K, V>(s: Raw<K, V>, key: K): (r: Raw<K, V>)
    ensures r.head == Some(key) && r.entries.Keys == s.entries.Keys && r.capacity == s.capacity
    ensures key in s.entries ==> r.entries[key] == (s.entries[key].0, Node(None, s.head))
    ensures s.head.Some? ==> r.tail == s.tail
  {
    var m1 := if s.head.Some? then SetPrev(s.entries, s.head.value, Some(key)) else s.entries;
    var m2 := if key in m1 then m1[key := (m1[key].0, Node(None, s.head))] else m1;
    Raw(m2, Some(key), if s.head.Some? then s.tail else Some(key), s.capacity)
  }

  /** `put` as written: on an update the map entry is removed BEFORE `remove_node` runs. */
  function RawPutAsWritten<K, V>(s: Raw<K, V>, key: K, value: V): (r: Raw<K, V>)
    ensures key in r.entries && r.entries[key].0 == value && r.head == Some(key)
  {
    var s1 :=
      if key in s.entries then RawRemoveNode(s.(entries := s.entries - {key}), key)
      else if |s.entries| == s.capacity then RawRemoveTail(s)
      else s;
    RawAddToHead(s1.(entries := s1.entries[key := (value, Node(None, None))]), key)
  }

  /**
    In general: an update of a key in a non-empty cache skips the unlink, so
    head and tail before the new head is linked are untouched and every other
    entry except the old head keeps its links, including links that still
    name `key` at its old place in the list.
   */
  lemma UpdateSkipsUnlink<K, V>(s: Raw<K, V>, key: K, value: V)
    requires key in s.entries && s.head.Some?
    ensures var r := RawPutAsWritten(s, key, value);
      && r.tail == s.tail
      && forall x :: x in s.entries && x != key && x != s.head.value ==> x in r.entries && r.entries[x] == s.entries[x]
  {
    var s1 := RawRemoveNode(s.(entries := s.entries - {key}), key);
    assert s1 == s.(entries := s.entries - {key});
  }

  datatype Key = A | B | C | D

  /** The states of a two-slot cache along the trace `put A; put B; put A; put C; put D`. */
  const S0: Raw<Key, int> := Raw(map[], None, None, 2)
  const S1: Raw<Key, int> := Raw(map[A := (1, Node(None, None))], Some(A), Some(A), 2)
  const S2: Raw<Key, int> := Raw(map[A := (1, Node(Some(B), None)), B := (2, Node(None, Some(A)))], Some(B), Some(A), 2)
  const S3: Raw<Key, int> := Raw(map[B := (2, Node(Some(A), Some(A))), A := (3, Node(None, Some(B)))], Some(A), Some(A), 2)
  const S4: Raw<Key, int> := Raw(map[B := (2, Node(Some(C), Some(A))), C := (4, Node(None, Some(B)))], Some(C), Some(A), 2)
  const S5: Raw<Key, int> :=
    Raw(map[B := (2, Node(Some(C), Some(A))), C := (4, Node(Some(D), Some(B))), D := (5, Node(None, Some(C)))], Some(D), Some(A), 2)

  lemma Step1() ensures RawPutAsWritten(S0, A, 1) == S1 {}
  lemma Step2() ensures RawPutAsWritten(S1, B, 2) == S2 {}

  /** The update of A: B keeps both its links to A, and the tail stays A, now also the head. */
  lemma Step3() ensures RawPutAsWritten(S2, A, 3) == S3 {}

  /** C evicts the tail A, the most recently used key, and the tail is left naming A. */
  lemma Step4()
    ensures RawPutAsWritten(S3, C, 4) == S4
  {
    TwoEntries(S3.entries, A, B);
    assert C !in S3.entries;
  }

  /** D finds a tail with no entry: the eviction drops nothing and the map reaches three entries. */
  lemma Step5()
    ensures RawPutAsWritten(S4, D, 5) == S5
  {
    TwoEntries(S4.entries, B, C);
    assert D !in S4.entries && A !in S4.entries;
    assert RawRemoveTail(S4) == S4 by {
      assert S4.entries - {A} == S4.entries;
    }
  }

  /** A map whose keys are two distinct keys has two entries. */
  lemma TwoEntries<X>(m: map<Key, X>, a: Key, b: Key)
    requires m.Keys == {a, b} && a != b
    ensures |m| == 2
  {
    assert {a, b} == {a} + {b};
  }

  /**
    Capacity 2, `put A; put B; put A; put C; put D`, as written: C evicts A,
    the most recently used key, instead of B, and leaves the tail naming A,
    which has no entry; D then finds nothing to evict and the map outgrows
    the capacity.
   */
  lemma StaleTailTrace()
    ensures RawPutAsWritten(S0, A, 1) == S1 && RawPutAsWritten(S1, B, 2) == S2
    ensures RawPutAsWritten(S2, A, 3) == S3 && RawPutAsWritten(S3, C, 4) == S4
    ensures RawPutAsWritten(S4, D, 5) == S5
    ensures S4.tail == Some(A) && A !in S4.entries && B in S4.entries
    ensures |S5.entries| == 3 > S5.capacity
  {
    Step1(); Step2(); Step3(); Step4(); Step5();
    StaleTail();
    ThreeEntries();
  }

  lemma StaleTail()
    ensures S4.tail == Some(A) && A !in S4.entries && B in S4.entries
  {
    assert S4.entries.Keys == {B, C};
  }

  lemma ThreeEntries()
    ensures |S5.entries| == 3 > S5.capacity
  {
    var keys := S5.entries.Keys;
    assert keys == {B, C, D};
    assert |keys| == 3 by {
      assert {B, C, D} == {B, C} + {D} && D !in {B, C};
    }
  }
}
