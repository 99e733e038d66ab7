/**
  The LRU cache engine. The hash map `entries` is also the node store of a doubly linked
  recency list: every entry keeps its value and the keys of its two neighbours.
  `head` is the most recently used key and `tail` the least recently used one.
  The ghost field `order` is the list those links spell out, head first; every
  operation is proved to act on (Contents(), order) as module LruSpec says.
 */
module LruCache {
  import opened Wrappers
  import opened LruSpec

  /** The neighbour links of an entry: `prev` towards the head, `next` towards the tail. */
  datatype Node<K> = Node(prev: Option<K>, next: Option<K>)

  function HeadOf<K>(order: seq<K>): Option<K>
  {
    if order == [] then None else Some(order[0])
  }

  function TailOf<K>(order: seq<K>): Option<K>
  {
    if order == [] then None else Some(order[|order| - 1])
  }

  /** The entry at position `i` of `order` carries the right neighbour links. */
  ghost predicate LinkedAt<K, V>(m: map<K, (V, Node<K>)>, order: seq<K>, i: int)
    requires 0 <= i < |order|
  {
    && order[i] in m
    && m[order[i]].1.prev == (if i == 0 then None else Some(order[i - 1]))
    && m[order[i]].1.next == (if i == |order| - 1 then None else Some(order[i + 1]))
  }

  /** `head`, `tail` and the links stored in `m` spell out the list `order`. */
  ghost predicate Linked<K, V>(m: map<K, (V, Node<K>)>, order: seq<K>, head: Option<K>, tail: Option<K>)
  {
    && NoDup(order)
    && head == HeadOf(order)
    && tail == TailOf(order)
    && (forall i :: 0 <= i < |order| ==> LinkedAt(m, order, i))
  }

  /** The values of the entries, links left out. */
  function Values<K, V>(m: map<K, (V, Node<K>)>): (r: map<K, V>)
    ensures r.Keys == m.Keys
    ensures forall k :: k in m ==> r[k] == m[k].0
  {
    map k | k in m :: m[k].0
  }

  /** Changing links only leaves the values alone. */
  lemma SameValues<K, V>(m: map<K, (V, Node<K>)>, m': map<K, (V, Node<K>)>)
    requires m'.Keys == m.Keys
    requires forall k :: k in m ==> m'[k].0 == m[k].0
    ensures Values(m') == Values(m)
  {
  }

  lemma ValuesWithout<K, V>(m: map<K, (V, Node<K>)>, k: K)
    ensures Values(m - {k}) == Values(m) - {k}
  {
  }

  lemma ValuesWith<K, V>(m: map<K, (V, Node<K>)>, k: K, e: (V, Node<K>))
    ensures Values(m[k := e]) == Values(m)[k := e.0]
  {
  }

  lemma StoreAfterRemove<K, V>(m: map<K, V>, k: K, v: V)
    ensures (m - {k})[k := v] == m[k := v]
  {
  }

  /** Sets the `next` link of `k`, if `k` has an entry. */
  function SetNext<K, V>(m: map<K, (V, Node<K>)>, k: K, next: Option<K>): (r: map<K, (V, Node<K>)>)
    ensures r.Keys == m.Keys
    ensures k in m ==> r[k] == (m[k].0, m[k].1.(next := next))
    ensures forall x :: x in m && x != k ==> r[x] == m[x]
  {
    if k in m then m[k := (m[k].0, m[k].1.(next := next))] else m
  }

  /** Sets the `prev` link of `k`, if `k` has an entry. */
  function SetPrev<K, V>(m: map<K, (V, Node<K>)>, k: K, prev: Option<K>): (r: map<K, (V, Node<K>)>)
    ensures r.Keys == m.Keys
    ensures k in m ==> r[k] == (m[k].0, m[k].1.(prev := prev))
    ensures forall x :: x in m && x != k ==> r[x] == m[x]
  {
    if k in m then m[k := (m[k].0, m[k].1.(prev := prev))] else m
  }

  /** The links after `key` is unlinked: its neighbours, if any, point at each other. */
  ghost function Unlinked<K, V>(m: map<K, (V, Node<K>)>, key: K): map<K, (V, Node<K>)>
    requires key in m
  {
    var node := m[key].1;
    var m1 := if node.prev.Some? then SetNext(m, node.prev.value, node.next) else m;
    if node.next.Some? then SetPrev(m1, node.next.value, node.prev) else m1
  }

  /** The links after `key` is put in front of `order`. */
  ghost function Prepended<K, V>(m: map<K, (V, Node<K>)>, order: seq<K>, key: K): map<K, (V, Node<K>)>
  {
    var m1 := if order != [] then SetPrev(m, order[0], Some(key)) else m;
    SetPrev(SetNext(m1, key, HeadOf(order)), key, None)
  }

  /**
    Cutting position `i` out of a linked list and relinking its neighbours gives
    a linked list; the head moves to the cut node's successor when the node had
    no predecessor, and the tail to its predecessor when it had no successor.
   */
  lemma UnlinkKeepsLinked<K, V>(m: map<K, (V, Node<K>)>, order: seq<K>, i: nat)
    requires i < |order| && Linked(m, order, HeadOf(order), TailOf(order))
    ensures order[i] in m
    ensures var cut := order[..i] + order[i + 1..];
      var node := m[order[i]].1;
      && Linked(Unlinked(m, order[i]), cut, HeadOf(cut), TailOf(cut))
      && HeadOf(cut) == (if node.prev.None? then node.next else HeadOf(order))
      && TailOf(cut) == (if node.next.None? then node.prev else TailOf(order))
      && Unlinked(m, order[i]).Keys == m.Keys
      && Values(Unlinked(m, order[i])) == Values(m)
  {
    var cut := order[..i] + order[i + 1..];
    assert LinkedAt(m, order, i);
    var m' := Unlinked(m, order[i]);
    SameValues(m, m');
    CutNoDup(order, i);
    forall j | 0 <= j < |cut| ensures LinkedAt(m', cut, j) {
      var j' := if j < i then j else j + 1;
      assert cut[j] == order[j'];
      assert LinkedAt(m, order, j');
      if j > 0 {
        assert cut[j - 1] == order[if j - 1 < i then j - 1 else j];
      }
      if j < |cut| - 1 {
        assert cut[j + 1] == order[if j + 1 < i then j + 1 else j + 2];
      }
      if i > 0 && j' != i - 1 {
        assert order[j'] != order[i - 1];
      }
      if i < |order| - 1 && j' != i + 1 {
        assert order[j'] != order[i + 1];
      }
    }
    if |cut| > 0 {
      assert cut[0] == if i > 0 then order[0] else order[1];
      assert cut[|cut| - 1] == if i < |order| - 1 then order[|order| - 1] else order[i - 1];
    }
  }

  /** Putting a new key in front of a linked list and pointing the old head back at it gives a linked list. */
  lemma PrependKeepsLinked<K, V>(m: map<K, (V, Node<K>)>, order: seq<K>, key: K)
    requires Linked(m, order, HeadOf(order), TailOf(order))
    requires key in m && key !in order
    ensures Linked(Prepended(m, order, key), [key] + order, Some(key), if order == [] then Some(key) else TailOf(order))
    ensures Prepended(m, order, key).Keys == m.Keys && Values(Prepended(m, order, key)) == Values(m)
  {
    var o' := [key] + order;
    var m' := Prepended(m, order, key);
    SameValues(m, m');
    ConsNoDup(key, order);
    forall j | 0 <= j < |o'| ensures LinkedAt(m', o', j) {
      if j > 0 {
        assert o'[j] == order[j - 1];
        assert LinkedAt(m, order, j - 1);
        if j > 1 {
          assert order[j - 1] != order[0];
        }
      }
    }
  }

  /** Removing the entry of a key outside the list keeps the links. */
  lemma LinkedWithout<K, V>(m: map<K, (V, Node<K>)>, order: seq<K>, head: Option<K>, tail: Option<K>, k: K)
    requires Linked(m, order, head, tail) && k !in order
    ensures Linked(m - {k}, order, head, tail)
  {
    forall i | 0 <= i < |order| ensures LinkedAt(m - {k}, order, i) {
      assert LinkedAt(m, order, i);
    }
  }

  /** The links in `m` spell out `order`, which lists exactly the keys of `m`,
      and a positive capacity bounds their number. */
  ghost predicate Represents<K, V>(m: map<K, (V, Node<K>)>, order: seq<K>, head: Option<K>, tail: Option<K>, capacity: nat)
  {
    && Linked(m, order, head, tail)
    && (forall k :: k in m ==> k in order)
    && |order| == |m|
    && (capacity > 0 ==> |m| <= capacity)
  }

  /**
    Once the tail key is unlinked from a list that represented `m`, dropping
    its entry leaves a map that the shortened list represents.
   */
  lemma CutTail<K, V>(m: map<K, (V, Node<K>)>, o: seq<K>, capacity: nat, m1: map<K, (V, Node<K>)>,
                      m2: map<K, (V, Node<K>)>, cut: seq<K>, head: Option<K>, tail: Option<K>)
    requires NoDup(o) && o != [] && Last(o) in m
    requires (forall k :: k in m ==> k in o) && |o| == |m| && (capacity > 0 ==> |m| <= capacity)
    requires m1.Keys == m.Keys && cut == o[..|o| - 1] && Linked(m1, cut, head, tail)
    requires m2 == m1 - {Last(o)}
    ensures Represents(m2, cut, head, tail, capacity)
  {
    DropLast(o);
    LinkedWithout(m1, cut, head, tail, Last(o));
    assert |m2| == |m1| - 1;
  }

  /** Storing an entry for a key outside the list keeps the links. */
  lemma LinkedWith<K, V>(m: map<K, (V, Node<K>)>, order: seq<K>, head: Option<K>, tail: Option<K>, k: K, e: (V, Node<K>))
    requires Linked(m, order, head, tail) && k !in order
    ensures Linked(m[k := e], order, head, tail)
  {
    var m' := m[k := e];
    forall i | 0 <= i < |order| ensures LinkedAt(m', order, i) {
      assert LinkedAt(m, order, i);
    }
  }

  class Cache<K(==), V> {
    const capacity: nat
    var entries: map<K, (V, Node<K>)>
    var head: Option<K>
    var tail: Option<K>
    ghost var order: seq<K>

    /** The object invariant: the links spell out `order`, which lists exactly
        the keys of `entries`, and a positive capacity bounds their number. */
    ghost predicate Valid()
      reads this
    {
      Represents(entries, order, head, tail, capacity)
    }

    /** The cached key-to-value map. */
    function Contents(): map<K, V>
      reads this
    {
      Values(entries)
    }

    ghost function Model(): State<K, V>
      reads this
    {
      State(Contents(), order)
    }

    /** A valid cache is a well-formed abstract state. */
    lemma ValidIsWf()
      requires Valid()
      ensures Wf(Model(), capacity)
    {
      forall k | k in order ensures k in entries {
        var i :| 0 <= i < |order| && order[i] == k;
        assert LinkedAt(entries, order, i);
      }
      assert |Contents()| == |Contents().Keys| == |entries.Keys| == |entries|;
    }

    /** A linked list that forms a well-formed abstract state is a valid cache. */
    lemma WfIsValid()
      requires Linked(entries, order, head, tail) && Wf(Model(), capacity)
      ensures Valid()
    {
      assert Contents().Keys == entries.Keys;
    }

    /** An empty cache with the given capacity. */
    constructor (capacity: nat)
      ensures Valid() && this.capacity == capacity
      ensures Model() == Empty()
    {
      this.capacity := capacity;
      entries := map[];
      head := None;
      tail := None;
      order := [];
    }

    /**
      Unlinks `key` from the recency list: its neighbours are linked to each other,
      and `head` or `tail` move when `key` sat at an end or was alone. The entry
      itself stays in `entries`. When `key` has no entry nothing happens at all.
     */
    method RemoveNode(key: K)
      requires Valid()
      modifies this
      ensures key !in old(entries) ==> entries == old(entries) && head == old(head) && tail == old(tail) && order == old(order)
      ensures key in old(entries) ==>
        && order == Remove(old(order), key)
        && Linked(entries, order, head, tail)
        && entries.Keys == old(entries.Keys)
        && Contents() == old(Contents())
    {
      if key in entries {
        ghost var o, m0 := order, entries;
        ghost var i :| 0 <= i < |o| && o[i] == key;
        var node := entries[key].1;
        match (node.prev, node.next) {
          case (Some(p), Some(n)) =>
            entries := SetNext(entries, p, Some(n));
            entries := SetPrev(entries, n, Some(p));
          case (None, Some(n)) =>
            head := Some(n);
            entries := SetPrev(entries, n, None);
          case (Some(p), None) =>
            tail := Some(p);
            entries := SetNext(entries, p, None);
          case (None, None) =>
            head := None;
            tail := None;
        }
        order := o[..i] + o[i + 1..];
        UnlinkKeepsLinked(m0, o, i);
        RemoveAt(o, i);
      }
    }

    /**
      Evicts the least recently used entry: the tail key leaves both the list
      and the map. Without a tail nothing happens.
     */
    method RemoveTail()
      requires Valid()
      modifies this
      ensures Valid()
      ensures old(tail).None? ==> entries == old(entries) && order == old(order) && head == old(head) && tail == old(tail)
      ensures old(tail).Some? ==>
        && old(order) != []
        && old(tail).value == Last(old(order))
        && order == old(order)[..|old(order)| - 1]
        && Contents() == old(Contents()) - {old(tail).value}
    {
      if tail.Some? {
        var tailKey := tail.value;
        ghost var o, c, m0 := order, Contents(), entries;
        assert NoDup(o) && o != [] && tailKey == o[|o| - 1];
        assert Remove(o, tailKey) == o[..|o| - 1] by {
          RemoveAt(o, |o| - 1);
          assert o[|o|..] == [];
        }
        assert LinkedAt(entries, o, |o| - 1);
        RemoveNode(tailKey);
        assert order == o[..|o| - 1] && Last(o) == tailKey;
        ghost var m1 := entries;
        ValuesWithout(entries, tailKey);
        entries := entries - {tailKey};
        CutTail(m0, o, capacity, m1, entries, order, head, tail);
        assert Contents() == c - {tailKey};
      }
    }

    /** Links `key`, whose entry is in `entries` but not in the list, in front of the head. */
    method AddToHead(key: K)
      requires Linked(entries, order, head, tail)
      requires key in entries && key !in order
      modifies this
      ensures order == [key] + old(order)
      ensures Linked(entries, order, head, tail)
      ensures head == Some(key)
      ensures entries.Keys == old(entries.Keys) && Contents() == old(Contents())
      ensures entries[key].1 == Node(None, old(head))
      ensures old(head).Some? ==> old(head).value in entries && entries[old(head).value].1.prev == Some(key)
      ensures old(head).None? ==> tail == Some(key)
    {
      ghost var o, m0 := order, entries;
      if head.Some? {
        assert LinkedAt(m0, o, 0);
        entries := SetPrev(entries, head.value, Some(key));
      } else {
        tail := Some(key);
      }
      entries := SetNext(entries, key, head);
      entries := SetPrev(entries, key, None);
      head := Some(key);
      assert entries == Prepended(m0, o, key);
      order := [key] + o;
      PrependKeepsLinked(m0, o, key);
    }

    /** Promotes a present key to the head; a key already there stays put. */
    method MoveToHead(key: K)
      requires Valid() && key in entries
      modifies this
      ensures Valid()
      ensures order == [key] + Remove(old(order), key)
      ensures Contents() == old(Contents())
    {
      if head != Some(key) {
        RemovePresent(order, key);
        RemoveNode(key);
        AddToHead(key);
      } else {
        ValidIsWf();
        GetHeadKeepsOrder(Model(), capacity);
      }
    }

    /**
      `put`: stores `value` under `key` and makes `key` the most recently used.
      An existing key is unlinked and replaced, with no eviction; a new key put
      into a map of exactly `capacity` entries first evicts the tail.
      This is the corrected update path: the old entry is unlinked before it
      leaves the map.
     */
    method Put(key: K, value: V)
      requires Valid()
      modifies this
      ensures Valid()
      ensures Model() == LruSpec.Put(old(Model()), capacity, key, value)
    {
      ghost var s := Model();
      ValidIsWf();
      if key in entries {
        RemovePresent(s.order, key);
        RemoveNode(key);
        LinkedWithout(entries, order, head, tail, key);
        ValuesWithout(entries, key);
        entries := entries - {key};
        assert Model() == State(s.contents - {key}, Remove(s.order, key));
      } else if |entries| == capacity {
        RemoveTail();
        ValidIsWf();
      }
      ghost var room := Model();
      assert key in s.contents ==> room == State(s.contents - {key}, Remove(s.order, key));
      assert Evicts(s, capacity, key) ==> room == State(s.contents - {Last(s.order)}, s.order[..|s.order| - 1]);
      assert key !in s.contents && !Evicts(s, capacity, key) ==> room == s;
      assert Linked(entries, order, head, tail) && key !in entries && key !in order;
      LinkedWith(entries, order, head, tail, key, (value, Node(None, None)));
      ValuesWith(entries, key, (value, Node(None, None)));
      entries := entries[key := (value, Node(None, None))];
      AddToHead(key);
      PutPreservesWf(s, capacity, key, value);
      assert Model() == State(room.contents[key := value], [key] + room.order);
      StoreAfterRemove(s.contents, key, value);
      assert Model() == LruSpec.Put(s, capacity, key, value);
      WfIsValid();
    }

    /**
      `get`: a present key is promoted to the head and its value returned; an
      absent key gives None and changes nothing.
     */
    method Get(key: K) returns (r: Option<V>)
      requires Valid()
      modifies this
      ensures Valid()
      ensures (r, Model()) == LruSpec.Get(old(Model()), key)
    {
      if key in entries {
        MoveToHead(key);
        r := Some(entries[key].0);
        return;
      }
      r := None;
    }
  }
}
