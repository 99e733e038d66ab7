/**
  Persistence of the cache as lines of text: loading replays every well-formed
  line as a `put`, in file order; saving writes one line per entry in the
  iteration order of the entry map, which nothing fixes. The file itself is a
  parameter: `None` when it cannot be opened, otherwise the text it holds.
 */
module Persistence {
  import opened Wrappers
  import opened LruSpec
  import opened LruCache
  import opened LineFormat

  /** The entries a load replays: the lines that parse, in file order; the others are skipped. */
  function Accepted<K, V>(lines: seq<string>, kc: Codec<K>, vc: Codec<V>): (pairs: seq<(K, V)>)
    ensures |pairs| <= |lines|
    ensures forall j :: 0 <= j < |pairs| ==>
      exists i :: 0 <= i < |lines| && ParseLine(lines[i], kc, vc) == Some(pairs[j])
    decreases |lines|
  {
    if lines == [] then []
    else
      var n := |lines| - 1;
      var init := Accepted(lines[..n], kc, vc);
      assert forall j :: 0 <= j < |init| ==>
        exists i :: 0 <= i < |lines| && ParseLine(lines[i], kc, vc) == Some(init[j]) by {
        forall j | 0 <= j < |init|
          ensures exists i :: 0 <= i < |lines| && ParseLine(lines[i], kc, vc) == Some(init[j])
        {
          var i :| 0 <= i < n && ParseLine(lines[..n][i], kc, vc) == Some(init[j]);
          assert lines[..n][i] == lines[i];
        }
      }
      match ParseLine(lines[n], kc, vc)
      case Some(p) => init + [p]
      case None => init
  }

  /**
    The abstract state a cache of the given capacity holds once it has loaded
    `file`: the accepted lines of its text put in order into an empty cache.
    Whatever the file holds, that state keeps the capacity bound and the order invariant.
   */
  function Loaded<K(==), V>(capacity: nat, file: Option<string>, kc: Codec<K>, vc: Codec<V>): (r: State<K, V>)
    ensures Wf(r, capacity)
  {
    match file
    case None => Empty()
    case Some(text) =>
      var pairs := Accepted(Lines(text), kc, vc);
      PutAllPreservesWf(Empty<K, V>(), capacity, pairs);
      PutAll(Empty(), capacity, pairs)
  }

  /** Reading one more line appends its entry when it parses and changes nothing otherwise. */
  lemma AcceptedStep<K, V>(lines: seq<string>, i: nat, kc: Codec<K>, vc: Codec<V>)
    requires i < |lines|
    ensures Accepted(lines[..i + 1], kc, vc) ==
      match ParseLine(lines[i], kc, vc)
      case Some(p) => Accepted(lines[..i], kc, vc) + [p]
      case None => Accepted(lines[..i], kc, vc)
  {
    assert lines[..i + 1][..i] == lines[..i];
  }

  lemma PutAllSnoc<K, V>(capacity: nat, pairs: seq<(K, V)>, p: (K, V))
    ensures PutAll(Empty(), capacity, pairs + [p]) == Put(PutAll(Empty(), capacity, pairs), capacity, p.0, p.1)
  {
    assert (pairs + [p])[..|pairs|] == pairs;
  }

  /**
    One line of the load: a line that splits at tabs into exactly two fields
    which both parse is put into the cache; any other line leaves it as it was.
   */
  method LoadLine<K(==), V>(c: Cache<K, V>, line: string, kc: Codec<K>, vc: Codec<V>)
    requires c.Valid()
    modifies c
    ensures c.Valid()
    ensures c.Model() ==
      match ParseLine(line, kc, vc)
      case Some(p) => Put(old(c.Model()), c.capacity, p.0, p.1)
      case None => old(c.Model())
  {
    var parts := Split(line, Tab);
    if |parts| == 2 {
      var key := kc.parse(parts[0]);
      var value := vc.parse(parts[1]);
      if key.Some? && value.Some? {
        c.Put(key.value, value.value);
      }
    }
  }

  /**
    The persistent constructor: an empty cache that then loads every line of
    the file in order; a file that cannot be opened leaves it empty.
   */
  method NewPersistent<K(==), V>(capacity: nat, file: Option<string>, kc: Codec<K>, vc: Codec<V>)
    returns (c: Cache<K, V>)
    ensures fresh(c) && c.Valid() && c.capacity == capacity
    ensures c.Model() == Loaded(capacity, file, kc, vc)
  {
    c := new Cache(capacity);
    if file.Some? {
      var lines := Lines(file.value);
      var i := 0;
      assert lines[..0] == [];
      while i < |lines|
        invariant 0 <= i <= |lines|
        invariant fresh(c) && c.Valid() && c.capacity == capacity
        invariant c.Model() == PutAll(Empty(), capacity, Accepted(lines[..i], kc, vc))
      {
        ghost var loaded := Accepted(lines[..i], kc, vc);
        ghost var parsed := ParseLine(lines[i], kc, vc);
        AcceptedStep(lines, i, kc, vc);
        LoadLine(c, lines[i], kc, vc);
        if parsed.Some? {
          PutAllSnoc(capacity, loaded, parsed.value);
        }
        i := i + 1;
      }
      assert lines[..i] == lines;
    }
  }

  /** The lines for the keys `ks` of `m`, one per key, in the order of `ks`. */
  function RenderAll<K, V>(ks: seq<K>, m: map<K, V>, kc: Codec<K>, vc: Codec<V>): (lines: seq<string>)
    requires forall k :: k in ks ==> k in m
    ensures |lines| == |ks|
    ensures forall i :: 0 <= i < |ks| ==> lines[i] == RenderLine(ks[i], m[ks[i]], kc, vc)
  {
    if ks == [] then []
    else
      var n := |ks| - 1;
      RenderAll(ks[..n], m, kc, vc) + [RenderLine(ks[n], m[ks[n]], kc, vc)]
  }

  /** The entries of `m` for the keys `ks`, in the order of `ks`. */
  function Entries<K, V>(ks: seq<K>, m: map<K, V>): (pairs: seq<(K, V)>)
    requires forall k :: k in ks ==> k in m
    ensures |pairs| == |ks|
    ensures forall i :: 0 <= i < |ks| ==> pairs[i] == (ks[i], m[ks[i]])
  {
    if ks == [] then []
    else
      var n := |ks| - 1;
      Entries(ks[..n], m) + [(ks[n], m[ks[n]])]
  }

  /** `text` holds one written line per entry of `m`, every entry exactly once, in the order of `ks`. */
  ghost predicate SnapshotIn<K, V>(ks: seq<K>, text: string, m: map<K, V>, kc: Codec<K>, vc: Codec<V>)
  {
    && NoDup(ks)
    && (set k | k in ks) == m.Keys
    && |ks| == |m|
    && text == FileText(RenderAll(ks, m, kc, vc))
  }

  /** `text` holds one written line per entry of `m`, every entry exactly once, in some order. */
  ghost predicate IsSnapshot<K(!new), V>(text: string, m: map<K, V>, kc: Codec<K>, vc: Codec<V>)
  {
    exists ks :: SnapshotIn(ks, text, m, kc, vc)
  }

  /** Part way through a save: `done` lists the keys written, once each, and `keys` the keys of `m` still to write. */
  ghost predicate Saving<K, V>(done: seq<K>, keys: set<K>, m: map<K, V>)
  {
    && NoDup(done)
    && (forall k :: k in done ==> k in m && k !in keys)
    && (forall k :: k in m ==> k in done || k in keys)
    && |done| + |keys| == |m|
  }

  /** Writing one more key still to write keeps the bookkeeping of the save. */
  lemma SavingStep<K, V>(done: seq<K>, keys: set<K>, k: K, m: map<K, V>)
    requires Saving(done, keys, m) && k in keys && keys <= m.Keys
    ensures Saving(done + [k], keys - {k}, m)
  {
    SnocNoDup(done, k);
    assert |keys - {k}| == |keys| - 1;
  }

  /** Writing the line of one more key appends it and a line break to the text. */
  lemma WriteStep<K, V>(done: seq<K>, k: K, m: map<K, V>, kc: Codec<K>, vc: Codec<V>)
    requires k in m && forall x :: x in done ==> x in m
    ensures FileText(RenderAll(done + [k], m, kc, vc)) ==
      FileText(RenderAll(done, m, kc, vc)) + RenderLine(k, m[k], kc, vc) + [Newline]
  {
    assert (done + [k])[..|done|] == done;
    FileTextSnoc(RenderAll(done, m, kc, vc), RenderLine(k, m[k], kc, vc));
  }

  /**
    What the save writes: for each entry, in the entry map's iteration order,
    its rendered line followed by a line break, as `writeln!` does.
   */
  method SaveToFile<K(==, !new), V>(c: Cache<K, V>, kc: Codec<K>, vc: Codec<V>) returns (text: string)
    ensures IsSnapshot(text, c.Contents(), kc, vc)
  {
    var m := c.Contents();
    var keys := c.entries.Keys;
    text := [];
    ghost var done: seq<K> := [];
    while keys != {}
      invariant keys <= c.entries.Keys
      invariant Saving(done, keys, m)
      invariant text == FileText(RenderAll(done, m, kc, vc))
      decreases keys
    {
      var k :| k in keys;
      assert c.entries[k].0 == m[k];
      SavingStep(done, keys, k, m);
      WriteStep(done, k, m, kc, vc);
      text := text + RenderLine(k, c.entries[k].0, kc, vc) + [Newline];
      done := done + [k];
      keys := keys - {k};
    }
    assert SnapshotIn(done, text, m, kc, vc);
  }

  /**
    Every entry of `m` renders as texts that survive a write and a read: they
    hold no tab and no line break, the value's text (which ends the line) does
    not end in a carriage return, and each text parses back to itself.
   */
  ghost predicate RoundTrips<K, V>(m: map<K, V>, kc: Codec<K>, vc: Codec<V>)
  {
    forall k :: k in m ==>
      && Tab !in kc.render(k) && Newline !in kc.render(k) && kc.parse(kc.render(k)) == Some(k)
      && Tab !in vc.render(m[k]) && Newline !in vc.render(m[k]) && !EndsInCR(vc.render(m[k]))
      && vc.parse(vc.render(m[k])) == Some(m[k])
  }

  /** The lines rendered from such entries come back unchanged when the written text is read. */
  lemma ReadRendered<K, V>(ks: seq<K>, m: map<K, V>, kc: Codec<K>, vc: Codec<V>)
    requires forall k :: k in ks ==> k in m
    requires RoundTrips(m, kc, vc)
    ensures Lines(FileText(RenderAll(ks, m, kc, vc))) == RenderAll(ks, m, kc, vc)
  {
    var lines := RenderAll(ks, m, kc, vc);
    forall i | 0 <= i < |lines| ensures Newline !in lines[i] && !EndsInCR(lines[i]) {
      assert lines[i] == RenderLine(ks[i], m[ks[i]], kc, vc);
    }
    LinesOfFileText(lines);
  }

  /** Reading rendered lines gives back the entries they were rendered from. */
  lemma {:induction false} AcceptedRendered<K, V>(ks: seq<K>, m: map<K, V>, kc: Codec<K>, vc: Codec<V>)
    requires forall k :: k in ks ==> k in m
    requires RoundTrips(m, kc, vc)
    ensures Accepted(RenderAll(ks, m, kc, vc), kc, vc) == Entries(ks, m)
    decreases |ks|
  {
    if ks != [] {
      var n := |ks| - 1;
      var lines := RenderAll(ks, m, kc, vc);
      assert lines[..n] == RenderAll(ks[..n], m, kc, vc);
      AcceptedRendered(ks[..n], m, kc, vc);
      ParseRenderLine(ks[n], m[ks[n]], kc, vc);
    }
  }

  /**
    Save then load: loading what a save wrote, into a cache big enough for all
    of it, gives back the same key-to-value map, provided every entry's texts
    survive a write and a read (the recency order is that of the file, which
    the save does not fix).
   */
  lemma LoadSavedRoundTrip<K(!new), V>(capacity: nat, m: map<K, V>, text: string, kc: Codec<K>, vc: Codec<V>)
    requires IsSnapshot(text, m, kc, vc)
    requires RoundTrips(m, kc, vc)
    requires capacity == 0 || |m| <= capacity
    ensures Loaded(capacity, Some(text), kc, vc).contents == m
  {
    var ks :| SnapshotIn(ks, text, m, kc, vc);
    ReadRendered(ks, m, kc, vc);
    AcceptedRendered(ks, m, kc, vc);
    EntriesOfAllKeys(ks, m);
    PutAllDistinct(capacity, Entries(ks, m));
  }

  /** The keys of the entries for `ks` are `ks` itself. */
  lemma EntriesKeys<K, V>(ks: seq<K>, m: map<K, V>)
    requires forall k :: k in ks ==> k in m
    ensures KeysOf(Entries(ks, m)) == ks
  {
    var pairs := Entries(ks, m);
    assert |KeysOf(pairs)| == |ks|;
    forall i | 0 <= i < |ks| ensures KeysOf(pairs)[i] == ks[i] {
      assert pairs[i] == (ks[i], m[ks[i]]);
    }
  }

  /** Listing every key of `m` once gives entries with distinct keys that describe `m` itself. */
  lemma EntriesOfAllKeys<K, V>(ks: seq<K>, m: map<K, V>)
    requires NoDup(ks) && (set k | k in ks) == m.Keys
    ensures NoDup(KeysOf(Entries(ks, m)))
    ensures |Entries(ks, m)| == |m|
    ensures MapOf(Entries(ks, m)) == m
  {
    EntriesKeys(ks, m);
    assert |Entries(ks, m)| == |m| by {
      NoDupSize(ks);
      assert |m.Keys| == |m|;
    }
    EntriesMap(ks, m);
  }

  /** The map described by the entries for every key of `m`, listed once each, is `m`. */
  lemma EntriesMap<K, V>(ks: seq<K>, m: map<K, V>)
    requires NoDup(ks) && (set k | k in ks) == m.Keys
    ensures MapOf(Entries(ks, m)) == m
  {
    var pairs := Entries(ks, m);
    EntriesKeys(ks, m);
    var loaded := MapOf(pairs);
    assert loaded.Keys == m.Keys;
    forall k | k in m ensures loaded[k] == m[k] {
      assert k in (set k | k in ks);
      var i :| 0 <= i < |ks| && ks[i] == k;
      MapOfAt(pairs, i);
    }
  }
}
