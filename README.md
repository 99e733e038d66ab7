# LRU cache engine of cacheLRU, modelled in Dafny

The repository implements a generic least-recently-used cache, `Cache<K, V>`.
A single hash map stores, for every key, its value and a `Node` holding the
keys of its previous and next neighbours. The map is therefore also the node
store of a doubly linked recency list. `head` is the most recently used key
and `tail` the least recently used one. `put` updates or inserts an entry at
the head. A new key put into a full map first evicts the tail. `get` promotes a
present key to the head. Both go through the private list helpers
`remove_node`, `remove_tail`, `add_to_head` and `move_to_head`. A persistent
cache fills itself from a text file at construction: it replays every line of
the form `key<TAB>value` through `put`, in file order. `save_to_file` writes
one such line per entry.

The two core files, `src/cache/cache_impl.rs` and `src/cache.rs`, hold the
same logic line for line, so one model covers both. Their line ranges
correspond like this:

- `new`: 55-63 / 29-37
- `new_persistent`: 85-109 / 39-63
- `save_to_file`: 120-128 / 65-73
- `remove_node`: 131-168 / 75-112
- `remove_tail`: 171-176 / 114-119
- `add_to_head`: 179-194 / 121-136
- `move_to_head`: 197-203 / 138-144
- `put`: 208-229 / 149-170
- `get`: 231-239 / 172-180

The project has these modules:

- `LruSpec` (`lru_spec.dfy`) is the abstract meaning of the cache: a
  key-to-value map plus the recency order as a sequence, head first.
  - `Put` and `Get` are functions on that state. `Wf` is the invariant: the
    order lists every key exactly once, and a positive capacity bounds the size.
  - The lemmas about eviction, preservation and folds of puts live here.
- `LruCache` (`lru_cache.dfy`) is the class `Cache`, with the fields
  `entries` (the source's `map`), `head`, `tail` and `capacity`.
  - A ghost `order` holds the list that the links spell out.
  - `Valid()` says every node's `prev`/`next` are its neighbours in `order`,
    `head`/`tail` are its ends, `order` lists exactly the keys of `entries`,
    and a positive capacity bounds their number.
  - Each private helper is a method with its own link-level contract.
  - `Put` and `Get` are proved to be `LruSpec.Put` and `LruSpec.Get` of the
    abstract state `Model()`.
- `LineFormat` (`line_format.dfy`) is the text line format.
  - `Split` mirrors `str::split` with a single-character pattern.
  - `ParseLine` accepts a line only when it splits into exactly two fields
    that both parse.
  - `RenderLine` glues the key text, a tab and the value text together.
  - `FileText` is the text that one `writeln!` per line produces. `Lines`
    reads a text back the way `BufRead::lines` does: it cuts at line breaks
    and drops a carriage return that comes just before a line break.
  - Keys and values are rendered and parsed through an abstract `Codec`,
    which stands for their `Display` and `FromStr` implementations.
- `Persistence` (`persistence.dfy`) covers persistence.
  - `NewPersistent` replays the accepted lines of the file through
    `Cache.Put`, in a loop. The file is a parameter: `None` when it cannot be
    opened, otherwise its text.
  - `SaveToFile` returns the text a save writes. It iterates the key set in
    an unspecified order, as the `HashMap` iteration does.
  - A save followed by a load gives back the same key-to-value map when these
    conditions hold. The capacity must be 0 or at least the number of entries.
    Every key and value text must parse back to itself and hold no tab and no
    line break, and no value text may end in a carriage return. In the
    repository, the saved text must also fit in one fill of the reader's
    buffer, because of the rewrite during a load described under "Left out".
- `Scenarios` (`scenarios.dfy`) contains the repository's integration tests
  and its doc example. They are written as client methods of the verified
  cache, and their `ensures` are the assertions the tests make.
- `SourceDefect` (`source_defect.dfy`) transcribes the update path of `put`
  as it is written. It proves the concrete trace that shows the defect
  described under Findings.

A cache of capacity 0 does not stay empty. The first `put` finds no tail to
evict and inserts its entry. After that the size never again equals 0, so
nothing is ever evicted and every key is retained
(`LruSpec.ZeroCapacityRetainsAll`). `Wf` therefore bounds the size only when
the capacity is positive.

## Model

| member | source | states |
|---|---|---|
| LruSpec.Put | src/cache/cache_impl.rs:208-224 | After `put(k, v)`, `k` maps to `v` and is at the head. An update keeps the key set. A new key in a full cache replaces exactly the last (least recently used) key. Otherwise the key set grows by `k`. Every other surviving entry keeps its value. Where the other keys end up in the order is stated by `LruSpec.PutKeepsOrder` and `LruSpec.PutEvictsTail`. |
| LruSpec.Get | src/cache/cache_impl.rs:231-239 | The result is `Some` exactly when the key is present. It carries the stored value, and the key moves to the head. The contents never change. An absent key leaves the whole state unchanged. In both cases the other keys keep their relative order. |
| LruSpec.RemoveMembers | src/cache/cache_impl.rs:131-168 | Deleting a key from the recency order keeps exactly the other keys. |
| LruSpec.RemoveAt | src/cache/cache_impl.rs:131-168 | In a duplicate-free order, deleting the key at position `i` cuts out exactly that position. The other keys keep their relative order. |
| LruSpec.UpdateKeepsWf | src/cache/cache_impl.rs:209-211 | An update keeps the invariant and leaves the number of entries unchanged, so no eviction happens. |
| LruSpec.EvictKeepsWf | src/cache/cache_impl.rs:212-223 | Evicting the tail and inserting the new key at the head keeps the invariant and the number of entries. |
| LruSpec.InsertKeepsWf | src/cache.rs:153-164 | A new key put into a cache that is not full evicts nothing. The invariant holds and the size grows by exactly one. |
| LruSpec.PutPreservesWf | src/cache/cache_impl.rs:208-224 | Every `put` preserves the invariant, including the size bound for a positive capacity. |
| LruSpec.PutKeepsOrder | src/cache/cache_impl.rs:208-224 | On an update, and on an insert that evicts nothing, the other keys keep their relative order. Deleting the key from the order before and after the put gives the same list. |
| LruSpec.PutEvictsTail | src/cache/cache_impl.rs:212-213 | A new key put into a full cache of positive capacity evicts exactly the least recently used key and no other. The order becomes the new key followed by the old order without its last key. The size stays at the capacity. |
| LruSpec.GetPreservesWf | src/cache/cache_impl.rs:231-239 | A lookup preserves the invariant. |
| LruSpec.GetHeadKeepsOrder | src/cache/cache_impl.rs:197-198 | Promoting the key that is already at the head changes nothing. |
| LruSpec.PutAll | src/cache/cache_impl.rs:97-104 | After a sequence of puts, the last pair put is the most recent key and holds its value. Every cached key was cached before or is one of the keys put. |
| LruSpec.PutAllPreservesWf | src/cache/cache_impl.rs:208-224 | The invariant, and with it the capacity bound, holds after any sequence of puts. |
| LruSpec.PutAllDistinct | src/cache/cache_impl.rs:212-222 | Putting at most `capacity` distinct keys into an empty cache evicts nothing. The cache then holds exactly those pairs, in reverse order of insertion, with one entry per pair. |
| LruSpec.FirstOfOneTooManyIsEvicted | tests/integration_test.rs:16-24 | Putting `capacity + 1` distinct keys into an empty cache, with no lookups, evicts the first key and keeps every other key with its value. |
| LruSpec.PutKeepsOthers | src/cache/cache_impl.rs:208-224 | A put leaves every other entry and its value in place, except the tail when it evicts. |
| LruSpec.ZeroCapacityRetainsAll | src/cache/cache_impl.rs:212 | With capacity 0, a sequence of puts into an empty cache retains every key, each with its last value. |
| LruCache.UnlinkKeepsLinked | src/cache/cache_impl.rs:131-168 | Relinking the neighbours of position `i` turns the links into a list for the order with `i` cut out. The head moves to the successor when the node had no predecessor, and the tail to the predecessor when it had no successor. The key set and the values stay the same. |
| LruCache.PrependKeepsLinked | src/cache/cache_impl.rs:179-194 | Giving an unlisted key the old head as its successor and no predecessor, and pointing the old head back at it, gives a list to which the key has been prepended. |
| LruCache.Cache.ValidIsWf | src/cache/cache_impl.rs:34-40 | A valid linked cache denotes a well-formed abstract state. |
| LruCache.Cache.constructor | src/cache/cache_impl.rs:55-63 | A new cache is valid and empty, with the given capacity. |
| LruCache.Cache.RemoveNode | src/cache/cache_impl.rs:131-168 | A key without an entry changes nothing. For a present key, the order loses exactly that key, the links still spell out the order with head and tail repointed, and the entries and values stay the same. |
| LruCache.Cache.RemoveTail | src/cache.rs:114-119 | Without a tail nothing changes. Otherwise the tail key leaves both the order and the map, the order loses its last key, and the cache stays valid. |
| LruCache.Cache.AddToHead | src/cache.rs:121-136 | The key becomes the head with the old head as its successor. The old head's predecessor becomes the key, and an empty list makes the key the tail. The order gains the key in front, and the entries and values stay the same. |
| LruCache.Cache.MoveToHead | src/cache.rs:138-144 | The key moves to the front of the order. This is a no-op when it is already the head. The cache stays valid and the contents stay the same. |
| LruCache.Cache.Put | src/cache/cache_impl.rs:208-224 | The cache stays valid, and its abstract state afterwards is `LruSpec.Put` of the state before. |
| LruCache.Cache.Get | src/cache/cache_impl.rs:231-239 | The cache stays valid, and the result and the new abstract state are `LruSpec.Get` of the state before. |
| LineFormat.Split | src/cache/cache_impl.rs:99 | Splitting at `n` separators gives `n + 1` pieces, and no piece holds the separator. |
| LineFormat.JoinSplit | src/cache/cache_impl.rs:99 | Joining the pieces with the separator gives the line back. |
| LineFormat.SplitPrefix | src/cache/cache_impl.rs:99 | A separator-free prefix followed by a separator is one piece in front of the pieces of the rest. |
| LineFormat.SplitNoSeparator | src/cache/cache_impl.rs:99 | A text without a separator is a single piece. |
| LineFormat.ParseLine | src/cache/cache_impl.rs:99-101 | A line that is accepted holds exactly one tab. |
| LineFormat.OneTab | src/cache/cache_impl.rs:99-100 | A line with exactly one tab splits into two tab-free fields, which are the line's text before and after the tab. |
| LineFormat.ParseFields | src/cache/cache_impl.rs:99-101 | Two tab-free fields joined by a tab are accepted exactly when both fields parse, and then yield both parsed values. |
| LineFormat.RenderLine | src/cache/cache_impl.rs:124 | When neither text holds a tab, splitting the line at tabs gives back the key text and the value text. The line holds a line break exactly when one of the texts does. It ends in a carriage return exactly when the value text does. |
| LineFormat.FileText | src/cache/cache_impl.rs:123-125 | The written text is at least as long as the number of lines. When no line holds a line break, it holds exactly one line break per line. |
| LineFormat.FileTextSnoc | src/cache/cache_impl.rs:124 | Writing one more line appends that line and a line break to the text. |
| LineFormat.Lines | src/cache/cache_impl.rs:97 | No line read from a text holds a line break. There is at most one line more than there are line breaks. |
| LineFormat.LinesOfFileText | src/cache/cache_impl.rs:97 | Lines that hold no line break and do not end in a carriage return are read back from their written text unchanged and in order. |
| LineFormat.ParseRenderLine | src/cache/cache_impl.rs:124 | A rendered entry whose key and value texts hold no tab and parse back reads back as the same entry. |
| Persistence.Accepted | src/cache/cache_impl.rs:97-104 | The replayed entries are no more than the lines. Each one is what some line of the file parses to. |
| Persistence.AcceptedStep | src/cache/cache_impl.rs:99-104 | Reading one more line appends its entry when the line is accepted, and changes nothing otherwise. |
| Persistence.Loaded | src/cache/cache_impl.rs:85-109 | Whatever the file holds, the state after the load keeps the invariant and the capacity bound. |
| Persistence.LoadLine | src/cache/cache_impl.rs:99-104 | An accepted line is put into the cache. Any other line leaves the cache as it was. The cache stays valid. |
| Persistence.NewPersistent | src/cache/cache_impl.rs:85-109 | The new cache is valid and has the given capacity. Its state is the empty state after the accepted lines, replayed as puts in file order. A missing file gives the empty cache. |
| Persistence.RenderAll | src/cache/cache_impl.rs:123-125 | There is one line per listed key, and line `i` renders key `i` with its value. |
| Persistence.SaveToFile | src/cache.rs:65-73 | The text is the written form of one line per entry. The lines render every entry exactly once, in some order of the keys. |
| Persistence.ReadRendered | src/cache/cache_impl.rs:97 | When the entries' texts survive a write and a read, reading the written text gives back the rendered lines unchanged. |
| Persistence.AcceptedRendered | src/cache/cache_impl.rs:123-124 | Reading back rendered lines whose texts round-trip gives the entries they were rendered from, in the same order. |
| Persistence.LoadSavedRoundTrip | tests/integration_test.rs:37-50 | Loading the text of a save into a cache of capacity 0 or at least the number of entries gives back the same key-to-value map. This needs every key and value text to parse back, to hold no tab and no line break, and every value text not to end in a carriage return. The model reads the text as saved; in the repository the text must also fit in one reader buffer fill (see Left out). |
| Scenarios.BasicOperations | tests/integration_test.rs:4-13 | Capacity 2: after `put a; put b`, `get a` answers 1. After `put c`, "b" is gone and "a" and "c" keep 1 and 3. |
| Scenarios.CapacityEviction | tests/integration_test.rs:16-24 | Capacity 2, `put A; put B; put C` without lookups: "A" is gone, and "B" and "C" keep 2 and 3. |
| Scenarios.UpdateExisting | tests/integration_test.rs:27-34 | Capacity 2: putting "A" again replaces its value with 3 and keeps "B" with 2. |
| Scenarios.UpdateThenInsert | src/cache/cache_impl.rs:209-213 | On the corrected update path (see Findings), capacity 2, `put A; put B; put A; put C`: the update makes "A" the most recent key, so "C" evicts "B", and the map holds exactly 2 entries. |
| Scenarios.AbsentLookupKeepsOrder | src/cache/cache_impl.rs:231-239 | A lookup of a missing key answers None and refreshes nothing, so the next new key still evicts "A". |
| Scenarios.PersistenceRoundTrip | tests/integration_test.rs:37-53 | A cache that saved "test" and "test2" is reloaded from the saved text and answers 123 and 456. |
| SourceDefect.RawRemoveNode | src/cache.rs:75-112 | The as-written `remove_node` leaves the state unchanged for a key without an entry, and never changes the key set. |
| SourceDefect.RawRemoveTail | src/cache.rs:114-119 | The as-written `remove_tail` changes nothing without a tail. Otherwise it drops exactly the tail key from the map. |
| SourceDefect.RawAddToHead | src/cache.rs:121-136 | The as-written `add_to_head` makes the key the head with the old head as its successor. It keeps the key set and the tail when the list was not empty. |
| SourceDefect.RawPutAsWritten | src/cache.rs:149-164 | The as-written `put` stores the value under the key and makes the key the head. |
| SourceDefect.UpdateSkipsUnlink | src/cache.rs:150-152 | An update in a non-empty cache, as written, keeps the previous tail. It also keeps the links of every other entry except the old head, including links that still name the updated key at its old place. |
| SourceDefect.StaleTailTrace | src/cache/cache_impl.rs:209-213 | With capacity 2, `put A; put B; put A; put C` as written leaves the tail naming A, which has no entry, while B survives. One more `put D` leaves 3 entries in the map. |

## Left out

- File I/O is not modelled: opening, buffering, truncating and the write calls themselves. A file is an `Option<string>` holding its text, and a save returns the text it writes.
- NewPersistent: an I/O error on a line (`line?`) is not modelled, and neither is a file that is not valid UTF-8, which causes one. The file's text is given as a sequence of characters.
- The save inside `put` is left out. It runs only for a persistent cache and discards its error, so it does not change the in-memory state.
- The rewriting of the file during a load is left out. The file name is set before the loop (src/cache/cache_impl.rs:91), so every `put` of the replay saves (:226-227), truncating and rewriting the file the reader is still reading (:96, :121).
- Persistence.LoadSavedRoundTrip: it does not capture the effect of that rewrite, and it holds in the repository only while the saved text fits in one fill of the `BufReader` buffer (8 KiB by default). For a longer text, the reader's later fills come from the rewritten file, which holds only the entries put so far. The later entries then do not load. The line cut at the buffer edge may load with a truncated value, or fail in `line?` when the cut splits a UTF-8 character. The model reads the whole text as it was before the load.
- The `filename` field is not modelled, for the same reason.
- Persistence.SaveToFile: the line order is existential, because the `HashMap` iteration order is unspecified. The model proves membership, the count and the round trip, but nothing about the order.
- The `Display` and `FromStr` implementations of the key and value types are abstract `Codec` functions.
- LruCache.Cache.Get: it returns the value rather than a reference that borrows the cache.
- The size of `usize` is not modelled: capacities and sizes are unbounded natural numbers. No operation comes near the bound.
- `src/cache/traits.rs` and `src/cache/persistence.rs` only declare trait signatures. `load_from_file` has no implementation anywhere, so it is not modelled.
- Module wiring (`src/cache/mod.rs`), the demo programs and the benchmarks are not part of this model.

## Findings

| source | as written | input that shows it | evidently intended | confidence | as-written member | corrected member |
|---|---|---|---|---|---|---|
| src/cache/cache_impl.rs:209-211 (also src/cache.rs:150-152) | On an update, `put` removes the key's map entry before calling `remove_node`. `remove_node` starts by looking the key up in the map, so for this key it does nothing. The old neighbours keep pointing at the key, and `tail` can go stale. | Capacity 2, `put A; put B; put A; put C`: C evicts A, the most recent key, instead of B, and `tail` is left as A, which has no entry. A further `put D` evicts nothing, and the map holds 3 entries. | Unlink the node first, then remove the entry. The update path then moves the key to the head, keeps the list invariant and never exceeds the capacity. | high (derived from the code, not executed) | SourceDefect.StaleTailTrace | LruCache.Cache.Put |
