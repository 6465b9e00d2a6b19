# A verified model of five SimpleDB components

This project models five parts of SimpleDB, a small teaching database engine
written in Java, and proves what each of them does:

- **LRUCache**: a bounded key-to-value cache. It keeps a hash map from keys
  to the nodes of a doubly linked recency list with sentinel head and tail
  nodes. `get` promotes the entry it returns. `put` overwrites and promotes
  an existing key, or links a new node at the head and evicts the tail when
  the cache overflows.
- **IntHistogram**: a fixed-width histogram over an integer range. It
  provides the bucket layout, the binary search for a value's bucket, the
  counting, and the selectivity estimates for each comparison operator.
- **AggregateIter**: materialises one COUNT, MIN, MAX, SUM or AVG row per
  group of a group map. It then hands the rows out and can rewind over them.
- **StringAggregator**: files the aggregate field of each merged tuple
  under its group-by value, and hands the map to an `AggregateIter`.
- **HeapFile**: a table stored as a file of fixed-size pages. It covers
  page-count and offset arithmetic, reading and writing pages, first-fit
  insertion with a fresh page appended when nothing fits, deletion, and
  the page-by-page iterator.

Each stateful Java class becomes a Dafny class with the same fields, and
its methods change them in place. Each class is proved against a value
model in a separate module of functions and lemmas:

- `common.dfy` (module `Common`): fields, tuples, record ids, exceptions as `Failure`, `Result`, integer helper lemmas
- `lru_spec.dfy` (module `LruSpec`): the cache as a recency order plus a map
- `lru_cache.dfy` (module `LruCache`): classes `Node` and `LRUCache` over real linked nodes
- `histogram_spec.dfy` (module `HistogramSpec`): the histogram as a value, and the estimates
- `int_histogram.dfy` (module `Histogram`): class `IntHistogram` over an array of buckets
- `aggregate_spec.dfy` (module `AggregateSpec`): the aggregate of one group and the rows of `open`
- `aggregate_iter.dfy` (module `Aggregation`): class `AggregateIter`
- `string_aggregator.dfy` (module `StringAggregation`): class `StringAggregator` and the group map after a sequence of merges
- `heap_spec.dfy` (module `HeapSpec`): pages as slot vectors, file arithmetic, first fit, scan order
- `heap_file.dfy` (module `HeapStorage`): classes `HeapFile` and `HeapFileIterator`

Some parts of the engine are parameters of the model:

- The buffer pool is a function `fetch` from page numbers to pages. It
  returns `None` where `getPage` returns null.
- The order in which a `HashMap` yields its keys is a parameter `keys`. The
  model requires only that `keys` lists every key exactly once.
- `HeapPage.java` is not part of this model. A page is its vector of slots.
  Inserting fills the lowest empty slot and stamps the tuple with that
  slot's record id. Deleting clears the slot that the record id names.
- The field `iterator` of `HeapFileIterator` is named `pageIterator`,
  because `iterator` is a Dafny keyword.
- The cache capacity is any integer, as in the source. A negative
  capacity behaves like capacity zero: every new key is evicted as soon
  as it is linked.

IntHistogram stores its bucket bounds in `double`. They are always whole
numbers here, so the model keeps them as exact integers. The estimates are
computed over `real`. The source divides 0.0 by 0.0 when no value has been
counted, and the model names that case `NaN`.

The code and its documentation disagree in two places; the model follows
the code:

- NOT_EQUALS is computed as one minus the bucket's share of all values,
  not as one minus the EQUALS estimate.
- The `StringAggregator` constructor records any operator. Its
  documentation says it rejects every operator except COUNT.

## Model

| member | source | states |
|---|---|---|
| `LruSpec.Empty` | src/java/simpledb/storage/LRUCache.java:27-36 | a new cache holds no key and satisfies the cache invariant |
| `LruSpec.WithoutMembers` | src/java/simpledb/storage/LRUCache.java:114-117 | unlinking a key keeps exactly the other keys, and leaves a list without that key unchanged |
| `LruSpec.WithoutDistinct` | src/java/simpledb/storage/LRUCache.java:114-117 | unlinking keeps the list duplicate-free and shortens it by one when the key was listed |
| `LruSpec.WithoutAt` | src/java/simpledb/storage/LRUCache.java:114-117 | unlinking the key at position i of a duplicate-free list closes the gap and keeps every other key in its relative order |
| `LruSpec.TouchKeepsKeys` | src/java/simpledb/storage/LRUCache.java:105-108 | moving a key to the head keeps the same keys, the same length and no duplicates |
| `LruSpec.TouchLast` | src/java/simpledb/storage/LRUCache.java:105-108 | promoting the tail key rotates it to the head and leaves the others in order |
| `LruSpec.GetAbsent` | src/java/simpledb/storage/LRUCache.java:63-67 | `get` of an absent key returns nothing and leaves the cache unchanged |
| `LruSpec.GetPresent` | src/java/simpledb/storage/LRUCache.java:63-71 | `get` of a present key returns its value, puts the key at the head, keeps the other keys in their relative order, keeps the map, and keeps the invariant |
| `LruSpec.DiscardRemovesTail` | src/java/simpledb/storage/LRUCache.java:132-144 | `discard` removes exactly the least recently used key from both the list and the map, shortens the list by one, and keeps the invariant |
| `LruSpec.RemovePreservesInv` | src/java/simpledb/storage/LRUCache.java:119-123 | `remove` keeps the invariant and shrinks the cache by one when the key was cached |
| `LruSpec.PutNewFits` | src/java/simpledb/storage/LRUCache.java:80-85 | `put` of a new key into a cache with room puts the key at the head, adds its entry, evicts nothing, and keeps the invariant |
| `LruSpec.PutNewEvicts` | src/java/simpledb/storage/LRUCache.java:80-94 | `put` of a new key into a full cache puts it at the head and removes the tail key from the list and the map; every other key stays |
| `LruSpec.PutNewZeroCapacity` | src/java/simpledb/storage/LRUCache.java:80-94 | with capacity zero or below, a new entry is evicted as soon as it is linked, leaving the cache unchanged |
| `LruSpec.PutExisting` | src/java/simpledb/storage/LRUCache.java:95-98 | `put` of a cached key replaces its value, moves it to the head, and keeps the key set, the size and the invariant |
| `LruSpec.PutPreservesInv` | src/java/simpledb/storage/LRUCache.java:78-99 | every `put` keeps the invariant: the list and the map hold the same keys without duplicates, and the size stays within capacity |
| `LruSpec.PutAllFits` | src/java/simpledb/storage/LRUCache.java:78-99 | putting at most `capacity` new distinct keys evicts nothing and lists them newest first |
| `LruSpec.PutAllSplit` | src/java/simpledb/storage/LRUCache.java:78-99 | a run of puts is the same as its first part followed by its second part |
| `LruSpec.FullThenPutNew` | src/java/simpledb/storage/LRUCache.java:80-94 | on a full cache filled in the order `front`, a new key evicts `front[0]` and keeps every other key |
| `LruSpec.EvictsFirst` | src/java/simpledb/storage/LRUCache.java:78-99 | putting `capacity + 1` distinct keys into an empty cache evicts exactly the first one |
| `LruSpec.PromoteTailThenPut` | src/java/simpledb/storage/LRUCache.java:63-99 | on a full cache, `get` of the tail key and then `put` of a new key evicts the key second from the tail instead |
| `LruSpec.FullThenTouchPut` | src/java/simpledb/storage/LRUCache.java:63-99 | on a cache filled in the order `front`, `get(front[0])` and then a new `put` evict `front[1]` and keep `front[0]` |
| `LruSpec.GetSavesFirst` | src/java/simpledb/storage/LRUCache.java:63-99 | with `capacity + 1` distinct keys, a `get` of the first key before the last `put` makes the second key the victim |
| `LruCache.LRUCache.constructor` | src/java/simpledb/storage/LRUCache.java:27-36 | the sentinels point at each other, the object invariant holds, and the cache represents the empty abstract cache |
| `LruCache.LRUCache.ValidState` | src/java/simpledb/storage/LRUCache.java:22-25 | a valid cache represents an abstract cache that meets the invariant: list keys equal map keys, no duplicates, size within capacity |
| `LruCache.LRUCache.RemoveAtIndexed` | src/java/simpledb/storage/LRUCache.java:119-123 | dropping a node from the list and its key from the map keeps the map consistent with the list, and removes exactly that key from the key order |
| `LruCache.LRUCache.MoveIndexed` | src/java/simpledb/storage/LRUCache.java:105-108 | moving a node to the front keeps the map consistent with the list and moves its key to the head of the key order |
| `LruCache.LRUCache.RemoveNode` | src/java/simpledb/storage/LRUCache.java:114-117 | the node's neighbours are linked to each other, the node leaves the list, the other nodes keep their order, and no value changes |
| `LruCache.LRUCache.Bypassed` | src/java/simpledb/storage/LRUCache.java:114-117 | pointing the two neighbours of a node at each other leaves a well-linked list without that node |
| `LruCache.LRUCache.AddToHead` | src/java/simpledb/storage/LRUCache.java:125-130 | the node is linked right after the head sentinel, in front of the old list, and no value changes |
| `LruCache.LRUCache.MoveToHead` | src/java/simpledb/storage/LRUCache.java:105-108 | the node moves from position i to the front, the other nodes keep their order, and no value changes |
| `LruCache.LRUCache.RemoveTail` | src/java/simpledb/storage/LRUCache.java:140-144 | returns the last node before the tail sentinel and unlinks it, keeping the rest of the list in order |
| `LruCache.LRUCache.Get` | src/java/simpledb/storage/LRUCache.java:63-71 | the result and the new abstract state are exactly what `LruSpec.Get` gives, and the invariant is kept |
| `LruCache.LRUCache.Put` | src/java/simpledb/storage/LRUCache.java:78-99 | the new abstract state is exactly what `LruSpec.Put` gives, and the invariant (size within capacity) is kept |
| `LruCache.LRUCache.Insert` | src/java/simpledb/storage/LRUCache.java:80-94 | the new-key branch of `put` follows `LruSpec.Put` and restores the size bound |
| `LruCache.LRUCache.LinkNew` | src/java/simpledb/storage/LRUCache.java:82-85 | a fresh node is in the map and at the head, its key is first in the order and its entry is added, and the size may be one over capacity |
| `LruCache.LRUCache.LinkedState` | src/java/simpledb/storage/LRUCache.java:82-85 | after a new node is linked in front, the represented map gains exactly that entry and the key order gains that key at the front |
| `LruCache.LRUCache.Overwrite` | src/java/simpledb/storage/LRUCache.java:95-98 | the existing-key branch of `put` follows `LruSpec.Put`: the value is replaced and the key moves to the head |
| `LruCache.LRUCache.MovedState` | src/java/simpledb/storage/LRUCache.java:105-108 | after a node moves to the front, the represented map holds that node's current value for its key, and every other entry is unchanged |
| `LruCache.LRUCache.Remove` | src/java/simpledb/storage/LRUCache.java:119-123 | the new abstract state is `LruSpec.Remove`: the key leaves the list and the map, and the others keep their order |
| `LruCache.LRUCache.Discard` | src/java/simpledb/storage/LRUCache.java:132-138 | the new abstract state is `LruSpec.Discard`: the least recently used entry is gone, and a cache one over capacity is valid again |
| `LruCache.LRUCache.DiscardedState` | src/java/simpledb/storage/LRUCache.java:132-138 | after the last node is unlinked and its key dropped from the map, the represented map has lost exactly that entry and the key order has lost its last key |
| `HistogramSpec.Width` | src/java/simpledb/optimizer/IntHistogram.java:78-84 | the bucket width is the ceiling of `(max - min) / buckets`: the smallest w with `w * buckets >= max - min` |
| `HistogramSpec.InitialLayout` | src/java/simpledb/optimizer/IntHistogram.java:86-91 | the buckets start at `min`, each ends where the next begins, all counts are 0, and the last bucket ends at or above `max` |
| `HistogramSpec.IndexOfCovered` | src/java/simpledb/optimizer/IntHistogram.java:37-43 | a bucket whose range `[left, right)` holds `v` is the bucket the lookup names |
| `HistogramSpec.IndexInside` | src/java/simpledb/optimizer/IntHistogram.java:107-122 | every `v` from `min` up to the end of the last bucket lies in the bucket the lookup names |
| `HistogramSpec.BucketIndexMeans` | src/java/simpledb/optimizer/IntHistogram.java:107-122 | the lookup names a bucket exactly when `min <= v` and `v` lies below the end of the last bucket; the bucket it names holds `v`, and it gives -1 exactly when no bucket holds `v` |
| `HistogramSpec.AddCounts` | src/java/simpledb/optimizer/IntHistogram.java:98-105 | `addValue` raises exactly one bucket count and `ntups` by one when `v` lies in a bucket, changes nothing otherwise, and keeps `ntups` equal to the sum of the counts |
| `HistogramSpec.ShareTotal` | src/java/simpledb/optimizer/IntHistogram.java:157-159 | the summed shares of a range of buckets are the fraction of all counted values lying in those buckets |
| `HistogramSpec.MassSplit` | src/java/simpledb/optimizer/IntHistogram.java:98-105 | the buckets below i, bucket i and the buckets above i hold all `ntups` values between them |
| `HistogramSpec.InitialTop` | src/java/simpledb/optimizer/IntHistogram.java:86-91 | the last bucket ends at or above `max` |
| `HistogramSpec.Saturating` | src/java/simpledb/optimizer/IntHistogram.java:150-195 | outside `[min, max]`, GREATER_THAN, LESS_THAN, GREATER_THAN_OR_EQ and LESS_THAN_OR_EQ answer 1.0 or 0.0 at the boundaries the source uses |
| `HistogramSpec.EqualityEstimates` | src/java/simpledb/optimizer/IntHistogram.java:144-178 | for a value in no bucket, EQUALS is 0 and NOT_EQUALS is 1; for a value in a bucket, EQUALS is its count over the width over `ntups`, and NOT_EQUALS is one minus its share |
| `HistogramSpec.RangeEstimates` | src/java/simpledb/optimizer/IntHistogram.java:150-202 | inside `[min, max)`, GREATER_THAN is the part of v's bucket above v plus every value in higher buckets, and LESS_THAN_OR_EQ is the part up to v plus every value in lower buckets, over `ntups` |
| `HistogramSpec.LessThanAboveAll` | src/java/simpledb/optimizer/IntHistogram.java:162-173 | with the corrected LESS_THAN, a value above `min` and beyond every bucket gets 1.0 |
| `HistogramSpec.LessThanInside` | src/java/simpledb/optimizer/IntHistogram.java:162-173 | inside the buckets, LESS_THAN is the part of v's bucket below v plus every value in lower buckets, over `ntups` |
| `HistogramSpec.LessThanAtMaxAsWritten` | src/java/simpledb/optimizer/IntHistogram.java:162-173 | for two buckets over [0, 4] holding one value each, LESS_THAN 4 as written gives 0.0 although every counted value is below 4; the corrected estimate gives 1.0 |
| `Histogram.IntHistogram.constructor` | src/java/simpledb/optimizer/IntHistogram.java:73-92 | the loop fills the array with buckets of the ceiling width laid end to end from `min`, all empty, and the histogram is well formed |
| `Histogram.IntHistogram.BinarySearch` | src/java/simpledb/optimizer/IntHistogram.java:107-122 | the halving search returns the index of the bucket holding `v`, or -1 when none does |
| `Histogram.IntHistogram.AddValue` | src/java/simpledb/optimizer/IntHistogram.java:98-105 | the new state is `Add` of the old one, so it counts `v` in its bucket or drops it, and keeps the histogram well formed |
| `Histogram.IntHistogram.SharesUp` | src/java/simpledb/optimizer/IntHistogram.java:157-159 | the ascending loop returns the summed shares of buckets lo up to hi |
| `Histogram.IntHistogram.SharesDown` | src/java/simpledb/optimizer/IntHistogram.java:198-200 | the descending loop returns the summed shares of the buckets below hi |
| `Histogram.IntHistogram.EstimateSelectivity` | src/java/simpledb/optimizer/IntHistogram.java:134-205 | the estimate for every operator is `Selectivity`, whose branches are described by the lemmas above; LIKE gives 0.0 |
| `Histogram.IntHistogram.AvgSelectivity` | src/java/simpledb/optimizer/IntHistogram.java:215-219 | the result is the width of every bucket |
| `AggregateSpec.CastAllMeans` | src/java/simpledb/execution/AggregateIter.java:55-119 | the casts to `IntField` succeed exactly when every field is an integer, and then yield the values in order |
| `AggregateSpec.MinMeans` | src/java/simpledb/execution/AggregateIter.java:55-70 | MIN of a non-empty list of 32-bit values is one of the values and at most each of them; for an empty list it is the seed `Integer.MAX_VALUE` |
| `AggregateSpec.MaxMeans` | src/java/simpledb/execution/AggregateIter.java:71-85 | MAX of a non-empty list of 32-bit values is one of the values and at least each of them; for an empty list it is the seed `Integer.MIN_VALUE` |
| `AggregateSpec.SumSplits` | src/java/simpledb/execution/AggregateIter.java:104-119 | SUM of a concatenation is the sum of the two parts |
| `AggregateSpec.AvgTruncates` | src/java/simpledb/execution/AggregateIter.java:86-103 | AVG divides as Java does, truncating toward zero: for a non-negative sum, quotient times count is at most the sum and within one count below it; for a negative sum, at least the sum and within one count above it |
| `AggregateSpec.BuildFailStays` | src/java/simpledb/execution/AggregateIter.java:42-121 | once a group's aggregate raises, the later groups add no row |
| `AggregateSpec.OneRowPerGroup` | src/java/simpledb/execution/AggregateIter.java:42-121 | `open` completes exactly when every group's aggregate succeeds, and then yields one row per key, in key order, holding that key's aggregate |
| `AggregateSpec.RowsFitDesc` | src/java/simpledb/execution/AggregateIter.java:24-121 | every result row has one field per column of the output schema |
| `AggregateSpec.CountRows` | src/java/simpledb/execution/AggregateIter.java:44-54 | COUNT never raises and yields, for each group, the size of its list |
| `AggregateSpec.RowsPerGroup` | src/java/simpledb/execution/AggregateIter.java:42-121 | a completed `open` yields as many rows as there are groups, and an empty map yields no row for every operator |
| `Aggregation.AggregateIter.constructor` | src/java/simpledb/execution/AggregateIter.java:24-39 | records the map and the operator, chooses the output schema by `Desc`, and starts with no result and no iterator |
| `Aggregation.AggregateIter.Fold` | src/java/simpledb/execution/AggregateIter.java:44-119 | the inner loop over one group's list computes `Aggregate`, including the exception a null or string field raises |
| `Aggregation.AggregateIter.Open` | src/java/simpledb/execution/AggregateIter.java:42-121 | `resultSet` becomes the rows `Build` gives, and the iterator starts at the first row; when a group's aggregate raises, that exception is returned, the rows built before it are kept and the iterator is unchanged |
| `Aggregation.AggregateIter.HasNext` | src/java/simpledb/execution/AggregateIter.java:124-129 | true exactly when rows remain, so false before `open` and after `close` |
| `Aggregation.AggregateIter.Next` | src/java/simpledb/execution/AggregateIter.java:132-134 | hands out the first remaining row and drops it; without an iterator it raises NullPointerException, and past the end NoSuchElementException |
| `Aggregation.AggregateIter.Rewind` | src/java/simpledb/execution/AggregateIter.java:137-141 | after `open`, restarts over the same `resultSet` without recomputing it, so the same rows remain |
| `Aggregation.AggregateIter.Close` | src/java/simpledb/execution/AggregateIter.java:149-151 | drops the iterator and keeps the result, after which `hasNext` is false |
| `StringAggregation.AppendMeans` | src/java/simpledb/execution/StringAggregator.java:54-60 | one merge appends the field to the end of its key's list, starting from an empty list for a new key, and leaves every other group as it was |
| `StringAggregation.GroupOfSnoc` | src/java/simpledb/execution/StringAggregator.java:47-61 | merging one more tuple applies that update to the map built so far |
| `StringAggregation.GroupOfMeans` | src/java/simpledb/execution/StringAggregator.java:47-61 | each group's list is exactly the fields merged under its key, in merge order, and a key is present exactly when something was merged under it |
| `StringAggregation.SizeAppend` | src/java/simpledb/execution/StringAggregator.java:54-60 | one merge adds one to the summed length of the lists |
| `StringAggregation.SizeOfGroupOf` | src/java/simpledb/execution/StringAggregator.java:47-61 | after n merges the lists hold n fields between them |
| `StringAggregation.NoGroupingOneGroup` | src/java/simpledb/execution/StringAggregator.java:50-53 | without grouping every tuple is filed under the null key, so there is at most one group |
| `StringAggregation.CountIsMerges` | src/java/simpledb/execution/StringAggregator.java:71-74 | with COUNT, the row of each group holds the number of tuples merged under its key |
| `StringAggregation.StringAggregator.constructor` | src/java/simpledb/execution/StringAggregator.java:34-41 | records the fields and the operator and starts with an empty group map |
| `StringAggregation.StringAggregator.MergeTupleIntoGroup` | src/java/simpledb/execution/StringAggregator.java:47-61 | the map becomes `Append` of the old map, under the group-by value or the null key, so it stays the map of all merges so far |
| `StringAggregation.StringAggregator.Iterator` | src/java/simpledb/execution/StringAggregator.java:71-74 | the new `AggregateIter` receives the current group map, the grouping and the operator |
| `HeapSpec.PageCountMeans` | src/java/simpledb/storage/HeapFile.java:118-121 | `numPages` is the number of whole pages: n pages fit in the length and n + 1 do not |
| `HeapSpec.AppendAddsOnePage` | src/java/simpledb/storage/HeapFile.java:148-153 | writing the page numbered `numPages()` adds exactly one page, also when the last page is partial |
| `HeapSpec.Blank` | src/java/simpledb/storage/HeapFile.java:149 | a fresh page has every slot empty |
| `HeapSpec.ReadFrom` | src/java/simpledb/storage/HeapFile.java:76-99 | page n can be read exactly when its offset `n * pageSize` lies before the end of the file; the page read carries number n, is clean, and holds the slots stored for n |
| `HeapSpec.Readable` | src/java/simpledb/storage/HeapFile.java:76-99 | the pages that can be read are those below `numPages()`, plus a partial last page |
| `HeapSpec.ReadAfterWrite` | src/java/simpledb/storage/HeapFile.java:102-113 | reading a page after writing it gives the written slots, and other readable pages read the same |
| `HeapSpec.FirstMeans` | src/java/simpledb/storage/HeapFile.java:131-146 | first fit finds the lowest index passing the test, or reports that none in range does |
| `HeapSpec.Insert` | src/java/simpledb/storage/HeapFile.java:142-143 | the tuple, stamped with its record id, fills the lowest empty slot, and no other slot changes |
| `HeapSpec.Delete` | src/java/simpledb/storage/HeapFile.java:168 | the slot the record id names is cleared when it is on this page and occupied; otherwise DbException |
| `HeapSpec.DeleteUndoesInsert` | src/java/simpledb/storage/HeapFile.java:142-168 | deleting the tuple that an insertion stamped gives back the page as it was |
| `HeapSpec.TuplesEmpty` | src/java/simpledb/storage/HeapFile.java:232-233 | a page's iterator has a tuple exactly when one of its slots is occupied |
| `HeapSpec.ScanOverEmpty` | src/java/simpledb/storage/HeapFile.java:221-238 | pages without tuples add nothing to a scan |
| `HeapStorage.HeapFile.constructor` | src/java/simpledb/storage/HeapFile.java:35-39 | records the schema and opens the file with its length and its pages |
| `HeapStorage.HeapFile.NumPages` | src/java/simpledb/storage/HeapFile.java:118-121 | the page count is `PageCount` of the file length, which `PageCountMeans` shows is the number of whole pages |
| `HeapStorage.HeapFile.ReadPage` | src/java/simpledb/storage/HeapFile.java:76-99 | page n can be read exactly when it lies below `numPages()` or is a partial last page, and the page read is what `ReadFrom` gives |
| `HeapStorage.HeapFile.WritePage` | src/java/simpledb/storage/HeapFile.java:102-113 | stores the page's slots under its number and extends the file to cover its offset, so reading it back gives the page |
| `HeapStorage.HeapFile.InsertTuple` | src/java/simpledb/storage/HeapFile.java:124-155 | an unreadable or unwritable file raises DbException; otherwise the tuple goes into the first page the pool returns with an empty slot, which is marked dirty; if no page has room, a new page holding the tuple is written at the end and the page count grows by one, unless a page has no slots at all, which raises DbException |
| `HeapStorage.HeapFile.DeleteTuple` | src/java/simpledb/storage/HeapFile.java:158-172 | a tuple without a record id raises NullPointerException; otherwise it succeeds exactly when the pool returns the named page and the slot is occupied, and returns that page with the slot cleared |
| `HeapStorage.HeapFile.Iterator` | src/java/simpledb/storage/HeapFile.java:175-178 | a new iterator over this file and pool, not yet opened |
| `HeapStorage.HeapFileIterator.constructor` | src/java/simpledb/storage/HeapFile.java:192-195 | starts at page 0 without a page iterator |
| `HeapStorage.HeapFileIterator.Open` | src/java/simpledb/storage/HeapFile.java:203-213 | resets to page 0; a missing first page raises DbException; otherwise a non-empty file's tuples all remain, in page and slot order |
| `HeapStorage.HeapFileIterator.NextPage` | src/java/simpledb/storage/HeapFile.java:221-238 | returns true at the first later page that holds a tuple, and false once `num` reaches `numPages()`; every page passed over holds no tuple |
| `HeapStorage.HeapFileIterator.HasNext` | src/java/simpledb/storage/HeapFile.java:241-250 | true exactly when tuples remain, and the tuples still to come are unchanged |
| `HeapStorage.HeapFileIterator.Next` | src/java/simpledb/storage/HeapFile.java:253-258 | hands out the next tuple of the current page and drops it from what remains; without one it raises NoSuchElementException |
| `HeapStorage.HeapFileIterator.Rewind` | src/java/simpledb/storage/HeapFile.java:261-263 | the same as `open`: the whole file remains again |
| `HeapStorage.HeapFileIterator.Close` | src/java/simpledb/storage/HeapFile.java:266-268 | drops the page iterator, after which nothing remains |

## Left out

- Concurrency: `synchronized` and `ConcurrentHashMap` in LRUCache. Each operation is one sequential step.
- LRUCache getters for the map, the size, the capacity and the sentinels. They expose internals and compute nothing.
- LruCache.LRUCache.Discard: requires a non-empty cache. On an empty cache `removeTail` hands the head sentinel to `removeNode`, which raises NullPointerException on `head.prev` before it changes any link. `put` calls `discard` only on an overfull cache.
- LruCache.LRUCache.Remove: requires a node that is on the list, as the source assumes without checking.
- Null keys, for which `ConcurrentHashMap` raises NullPointerException. A null value raises nothing in the source, because the map stores the node and not the value. In the model the value type `V` is arbitrary, so a null value is an ordinary value that `get` returns. The source cannot tell it apart from an absent key, because both return null.
- Histogram.IntHistogram.constructor: requires `buckets >= 1` and `min <= max`. For `buckets < 0` the source raises NegativeArraySizeException when it allocates the array. For `buckets == 0` it raises nothing: the width is Infinity, or NaN when `min == max`, and the histogram has no buckets. For `min > max` the width is not positive, so no bucket holds any value.
- HistogramSpec.Width: computes `max - min` without wrap-around. The source subtracts in 32-bit `int`, so a range wider than `Integer.MAX_VALUE` wraps to a negative difference. For example, 10 buckets from `Integer.MIN_VALUE` to `Integer.MAX_VALUE` get width 0 in the source, and every value is dropped, while the model gives width 429496730.
- Histogram.IntHistogram.constructor: uses `Width`, so it shares the missing wrap-around of `max - min` described in the line above.
- Histogram.IntHistogram.EstimateSelectivity: uses the corrected LESS_THAN described under Findings. The as-written branch is `HistogramSpec.LessThanAsWritten`.
- IEEE-754 rounding of the selectivity formulas, which are computed over `real`. The source's 0.0 / 0.0 is the value `NaN`.
- Java `int` overflow of `ntups`, the counts, and the index arithmetic of `binarySearch`. All are unbounded integers.
- A value equal to `max` when `max - min` is a multiple of `buckets` lies in no bucket, and `addValue` drops it. The model keeps this behaviour.
- `toString` of IntHistogram and MyGram.
- AggregateSpec.Aggregate: SUM and AVG use unbounded integers; the source's 32-bit wrap-around is not modelled.
- Aggregation.AggregateIter.Open: takes the order of the `HashMap` key set as the parameter `keys`. The order itself is not modelled.
- `getTupleDesc` of AggregateIter and HeapFile: they return the constant fields `tupleDesc` and `td`.
- StringAggregation.StringAggregator.MergeTupleIntoGroup: requires the field indices to lie within the tuple, where `Tuple.getField` would raise.
- Aliasing of the group map between StringAggregator and AggregateIter. The map is passed as a value, so later merges do not reach an existing iterator.
- `HeapPage.java` is not part of this model. That covers page serialisation, the header bitmap, the schema check in `HeapPage.insertTuple`, and page ids beyond the page number.
- File I/O: RandomAccessFile, `File.length`, and the exceptions `readPage` prints and swallows. The file is its length plus a map from page numbers to slots.
- `canRead`/`canWrite` of the file, modelled by the parameter `writable`.
- The buffer pool, transactions, permissions, locks and `unsafeReleasePage`. `getPage` is the parameter `fetch`. TransactionAbortedException is not modelled.
- HeapStorage.HeapFile.DeleteTuple: requires that the pool returns page n for page number n. The source relies on `getPage` doing so.
- `getId`, which hashes the absolute file path, and `getFile`.

## Findings

| source | as written | input that shows it | evidently intended | confidence | as-written member | corrected member |
|---|---|---|---|---|---|---|
| src/java/simpledb/optimizer/IntHistogram.java:162-173 | LESS_THAN for a value above `min`, at most `max` and in no bucket reaches none of the branches and falls through to 0.0 | 2 buckets, min 0, max 4, values 1 and 3 added, LESS_THAN 4: the result is 0.0 although both values are below 4 | such a value lies beyond every bucket and above every counted value, so the estimate is 1.0, as for a value above `max` | not executed | `HistogramSpec.LessThanAtMaxAsWritten` | `HistogramSpec.LessThanCorrected` |
