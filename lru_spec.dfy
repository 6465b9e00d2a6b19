/** The abstract behaviour of the bounded LRU cache (LRUCache.java): the
    recency order as a sequence of keys, most recently used first, and the
    key-to-value map. The linked implementation in module LruCache is proved
    to follow these functions step by step. */
module LruSpec {
  import opened Common

  /** `order` lists the keys from the head (most recently used) to the tail
      (least recently used). */
  datatype Cache<K(==), V> = Cache(order: seq<K>, entries: map<K, V>, capacity: int)

  /** How many entries a cache of this capacity can keep: a negative
      capacity keeps none, like capacity zero. */
  function Room(capacity: int): (n: nat)
    ensures n <= capacity || (capacity < 0 && n == 0)
    ensures capacity >= 0 ==> n == capacity
  {
    if capacity < 0 then 0 else capacity
  }

  /** Positions `i` and `j` of `s` hold different elements. */
  predicate Apart<K(==)>(s: seq<K>, i: int, j: int)
  {
    0 <= i < |s| && 0 <= j < |s| && s[i] != s[j]
  }

  /** No element occurs twice in `s`. The quantifier fires only on an
      explicit `Apart` term, so proofs name the pairs they compare. */
  predicate Distinct<K(==)>(s: seq<K>)
  {
    forall i, j {:trigger Apart(s, i, j)} :: 0 <= i < |s| && 0 <= j < |s| && i != j ==> Apart(s, i, j)
  }

  /** The cache invariant: the list and the map hold the same keys, the list
      has no duplicates, and the number of entries is at most the room the
      capacity leaves. */
  predicate Inv<K(==), V>(c: Cache<K, V>)
  {
    && Distinct(c.order)
    && (forall k :: k in c.entries ==> k in c.order)
    && (forall k :: k in c.order ==> k in c.entries)
    && |c.order| <= Room(c.capacity)
  }

  function Empty<K(==), V>(capacity: int): (c: Cache<K, V>)
    ensures Inv(c) && |c.order| == 0
  {
    Cache([], map[], capacity)
  }

  /** The first element of a duplicate-free list does not recur, and the
      rest is duplicate-free. */
  lemma DistinctTail<K>(s: seq<K>)
    requires Distinct(s) && s != []
    ensures s[0] !in s[1..] && Distinct(s[1..])
  {
    var t := s[1..];
    forall i, j | 0 <= i < |t| && 0 <= j < |t| && i != j ensures Apart(t, i, j) {
      assert Apart(s, i + 1, j + 1);
    }
    forall j | 0 <= j < |t| ensures t[j] != s[0] {
      assert Apart(s, 0, j + 1);
    }
  }

  /** The last element of a duplicate-free list does not occur before it,
      and the rest is duplicate-free. */
  lemma DistinctLast<K>(s: seq<K>)
    requires Distinct(s) && s != []
    ensures s[|s| - 1] !in s[..|s| - 1] && Distinct(s[..|s| - 1])
  {
    var t := s[..|s| - 1];
    forall i, j | 0 <= i < |t| && 0 <= j < |t| && i != j ensures Apart(t, i, j) {
      assert Apart(s, i, j);
    }
    forall j | 0 <= j < |t| ensures t[j] != s[|s| - 1] {
      assert Apart(s, j, |s| - 1);
    }
  }

  /** Linking a new key in front keeps the list duplicate-free. */
  lemma DistinctCons<K>(x: K, s: seq<K>)
    requires Distinct(s) && x !in s
    ensures Distinct([x] + s)
  {
    var t := [x] + s;
    forall i, j | 0 <= i < |t| && 0 <= j < |t| && i != j ensures Apart(t, i, j) {
      if i > 0 && j > 0 {
        assert Apart(s, i - 1, j - 1);
      } else if i == 0 {
        assert t[j] == s[j - 1];
      } else {
        assert t[i] == s[i - 1];
      }
    }
  }

  /** `s` with `k` unlinked: every other key keeps its relative position. */
  function Without<K(==)>(s: seq<K>, k: K): seq<K>
  {
    if s == [] then []
    else if s[0] == k then Without(s[1..], k)
    else [s[0]] + Without(s[1..], k)
  }

  /** Unlinking `k` keeps exactly the other keys, and leaves a list without
      `k` as it was. */
  lemma {:induction false} WithoutMembers<K>(s: seq<K>, k: K)
    ensures forall x :: x in Without(s, k) ==> x in s && x != k
    ensures forall x :: x in s && x != k ==> x in Without(s, k)
    ensures k !in s ==> Without(s, k) == s
  {
    if s != [] {
      WithoutMembers(s[1..], k);
      assert s == [s[0]] + s[1..];
    }
  }

  /** Unlinking keeps a duplicate-free list duplicate-free and, when the key
      was there, shortens it by exactly one. */
  lemma {:induction false} WithoutDistinct<K>(s: seq<K>, k: K)
    requires Distinct(s)
    ensures Distinct(Without(s, k))
    ensures k in s ==> |Without(s, k)| == |s| - 1
  {
    if s != [] {
      DistinctTail(s);
      WithoutDistinct(s[1..], k);
      WithoutMembers(s[1..], k);
      if s[0] != k {
        DistinctCons(s[0], Without(s[1..], k));
      }
    }
  }

  /** Unlinking the key at position `i` of a duplicate-free list closes the gap. */
  lemma {:induction false} WithoutAt<K>(s: seq<K>, i: nat)
    requires Distinct(s) && i < |s|
    ensures Without(s, s[i]) == s[..i] + s[i + 1..]
  {
    DistinctTail(s);
    if i == 0 {
      WithoutMembers(s[1..], s[0]);
      assert s[1..] == s[..0] + s[1..];
    } else {
      var t := s[1..];
      assert Apart(s, 0, i);
      assert t[i - 1] == s[i];
      WithoutAt(t, i - 1);
      ConsSplice(s, i);
    }
  }

  lemma ConsSplice<K>(s: seq<K>, i: nat)
    requires 0 < i < |s|
    ensures [s[0]] + (s[1..][..i - 1] + s[1..][i..]) == s[..i] + s[i + 1..]
  {
    assert s[1..][..i - 1] == s[1..i] && s[1..][i..] == s[i + 1..];
    assert [s[0]] + s[1..i] == s[..i];
  }

  /** `moveToHead` on the abstract list. */
  function Touch<K(==)>(s: seq<K>, k: K): seq<K>
  {
    [k] + Without(s, k)
  }

  /** `get`: an absent key yields nothing and leaves the cache alone; a
      present key yields its value and becomes the most recently used. */
  function Get<K(==), V>(c: Cache<K, V>, k: K): (Option<V>, Cache<K, V>)
  {
    if k !in c.entries then (None, c)
    else (Some(c.entries[k]), Cache(Touch(c.order, k), c.entries, c.capacity))
  }

  /** `discard` / `removeTail`: drop the least recently used entry. */
  function Discard<K(==), V>(c: Cache<K, V>): Cache<K, V>
    requires c.order != []
  {
    var victim := c.order[|c.order| - 1];
    Cache(c.order[..|c.order| - 1], c.entries - {victim}, c.capacity)
  }

  /** `remove(node)`: drop the entry of key `k` wherever it sits. */
  function Remove<K(==), V>(c: Cache<K, V>, k: K): Cache<K, V>
  {
    Cache(Without(c.order, k), c.entries - {k}, c.capacity)
  }

  /** `put`: overwrite and promote an existing key; otherwise link a new
      entry at the head and, if that grows the cache past its capacity,
      discard the tail. */
  function Put<K(==), V>(c: Cache<K, V>, k: K, v: V): Cache<K, V>
  {
    if k in c.entries then Cache(Touch(c.order, k), c.entries[k := v], c.capacity)
    else
      var grown := Cache([k] + c.order, c.entries[k := v], c.capacity);
      if |grown.order| > c.capacity then Discard(grown) else grown
  }

  // ---------------------------------------------------------------------
  // Properties of the abstract cache

  lemma TouchKeepsKeys<K>(s: seq<K>, k: K)
    requires Distinct(s) && k in s
    ensures Distinct(Touch(s, k)) && |Touch(s, k)| == |s|
    ensures forall x :: x in Touch(s, k) ==> x in s
    ensures forall x :: x in s ==> x in Touch(s, k)
  {
    WithoutDistinct(s, k);
    WithoutMembers(s, k);
    DistinctCons(k, Without(s, k));
  }

  /** An absent key: `get` returns nothing and changes nothing. */
  lemma GetAbsent<K, V>(c: Cache<K, V>, k: K)
    requires k !in c.entries
    ensures Get(c, k) == (None, c)
  {
  }

  /** A present key: `get` returns the stored value, moves the key to the
      head, keeps every other key in its relative order, and keeps the
      invariant. */
  lemma GetPresent<K, V>(c: Cache<K, V>, k: K)
    requires Inv(c) && k in c.entries
    ensures var (r, c') := Get(c, k);
      && r == Some(c.entries[k])
      && c'.order[0] == k
      && c'.order[1..] == Without(c.order, k)
      && c'.entries == c.entries
      && Inv(c')
  {
    TouchKeepsKeys(c.order, k);
  }

  /** `discard` removes exactly the tail key and keeps the others in order. */
  lemma DiscardRemovesTail<K, V>(c: Cache<K, V>)
    requires Inv(c) && c.order != []
    ensures var victim := c.order[|c.order| - 1];
      && Discard(c) == Remove(c, victim)
      && victim !in Discard(c).entries
      && |Discard(c).order| == |c.order| - 1
      && Inv(Discard(c))
  {
    var n := |c.order|;
    WithoutAt(c.order, n - 1);
    DistinctLast(c.order);
    assert c.order[n..] == [];
    assert c.order[..n - 1] + c.order[n..] == c.order[..n - 1];
  }

  lemma RemovePreservesInv<K, V>(c: Cache<K, V>, k: K)
    requires Inv(c)
    ensures Inv(Remove(c, k))
    ensures k in c.entries ==> |Remove(c, k).order| == |c.order| - 1
  {
    WithoutDistinct(c.order, k);
    WithoutMembers(c.order, k);
  }

  /** `put` of a new key into a cache with room: the key goes to the head,
      the size grows by one and nothing is evicted. */
  lemma PutNewFits<K, V>(c: Cache<K, V>, k: K, v: V)
    requires Inv(c) && k !in c.entries && |c.order| < c.capacity
    ensures Put(c, k, v) == Cache([k] + c.order, c.entries[k := v], c.capacity)
    ensures Inv(Put(c, k, v))
  {
    DistinctCons(k, c.order);
  }

  /** `put` of a new key into a full cache: the key goes to the head and the
      least recently used key (the tail) leaves both the list and the map;
      every other key keeps its place. */
  lemma PutNewEvicts<K, V>(c: Cache<K, V>, k: K, v: V)
    requires Inv(c) && k !in c.entries && |c.order| == c.capacity > 0
    ensures var victim := c.order[|c.order| - 1];
      && Put(c, k, v).order == [k] + c.order[..|c.order| - 1]
      && Put(c, k, v).entries == c.entries[k := v] - {victim}
      && victim !in Put(c, k, v).entries
      && k in Put(c, k, v).entries
      && (forall x :: x in c.order[..|c.order| - 1] ==> x in Put(c, k, v).entries)
      && Inv(Put(c, k, v))
  {
    var grown := Cache([k] + c.order, c.entries[k := v], c.capacity);
    var n := |grown.order|;
    assert grown.order[..n - 1] == [k] + c.order[..|c.order| - 1];
    assert grown.order[n - 1] == c.order[|c.order| - 1];
    DistinctCons(k, c.order);
    DiscardRemovesTail(Cache(grown.order, grown.entries, grown.capacity + 1));
  }

  /** With capacity zero, or a negative one, a new entry is evicted as soon
      as it is linked. */
  lemma PutNewZeroCapacity<K, V>(c: Cache<K, V>, k: K, v: V)
    requires Inv(c) && c.capacity <= 0
    ensures Put(c, k, v) == c
  {
    assert c.order == [] && c.entries == map[];
    assert ([k] + c.order)[..0] == [];
  }

  /** `put` of an existing key replaces its value and promotes it; the key
      set and the size do not change. */
  lemma PutExisting<K, V>(c: Cache<K, V>, k: K, v: V)
    requires Inv(c) && k in c.entries
    ensures var c' := Put(c, k, v);
      && Inv(c')
      && c'.entries.Keys == c.entries.Keys
      && c'.entries[k] == v
      && |c'.order| == |c.order|
      && c'.order[0] == k
      && c'.order[1..] == Without(c.order, k)
  {
    TouchKeepsKeys(c.order, k);
  }

  /** Every operation keeps the invariant. */
  lemma PutPreservesInv<K, V>(c: Cache<K, V>, k: K, v: V)
    requires Inv(c)
    ensures Inv(Put(c, k, v))
  {
    if k in c.entries {
      PutExisting(c, k, v);
    } else if |c.order| < c.capacity {
      PutNewFits(c, k, v);
    } else if c.capacity <= 0 {
      PutNewZeroCapacity(c, k, v);
    } else {
      PutNewEvicts(c, k, v);
    }
  }

  // ---------------------------------------------------------------------
  // The eviction scenario

  /** The cache after putting `keys` one after the other. */
  function PutAll<K(==), V>(c: Cache<K, V>, keys: seq<K>, v: V): Cache<K, V>
    decreases keys
  {
    if keys == [] then c else PutAll(Put(c, keys[0], v), keys[1..], v)
  }

  function Reverse<K>(s: seq<K>): (r: seq<K>)
    ensures |r| == |s|
  {
    if s == [] then [] else Reverse(s[1..]) + [s[0]]
  }

  /** The reverse lists the same elements from the other end. */
  lemma {:induction false} ReverseIndex<K>(s: seq<K>)
    ensures forall i :: 0 <= i < |s| ==> Reverse(s)[i] == s[|s| - 1 - i]
  {
    if s != [] {
      var t := s[1..];
      ReverseIndex(t);
      assert Reverse(s) == Reverse(t) + [s[0]];
      forall i | 0 <= i < |s| - 1 ensures Reverse(s)[i] == s[|s| - 1 - i] {
        assert Reverse(s)[i] == Reverse(t)[i] == t[|t| - 1 - i];
      }
    }
  }

  lemma ReverseFront<K>(keys: seq<K>, s: seq<K>)
    requires keys != []
    ensures Reverse(keys[1..]) + ([keys[0]] + s) == Reverse(keys) + s
  {
    var r := Reverse(keys[1..]);
    assert Reverse(keys) == r + [keys[0]];
    AppendAssoc(r, [keys[0]], s);
  }

  lemma AppendAssoc<K>(a: seq<K>, b: seq<K>, c: seq<K>)
    ensures (a + b) + c == a + (b + c)
  {
  }

  /** Putting at most `capacity` distinct new keys evicts nothing: the list
      is the keys in reverse order of insertion. */
  lemma {:induction false} PutAllFits<K, V>(c: Cache<K, V>, keys: seq<K>, v: V)
    requires Inv(c) && Distinct(keys)
    requires forall k :: k in keys ==> k !in c.entries
    requires |c.order| + |keys| <= c.capacity
    decreases keys
    ensures PutAll(c, keys, v).order == Reverse(keys) + c.order
    ensures PutAll(c, keys, v).capacity == c.capacity
    ensures Inv(PutAll(c, keys, v))
  {
    if keys == [] {
      assert Reverse(keys) + c.order == c.order;
    } else {
      var k, rest := keys[0], keys[1..];
      PutNewFits(c, k, v);
      var c1 := Cache([k] + c.order, c.entries[k := v], c.capacity);
      assert PutAll(c, keys, v) == PutAll(c1, rest, v);
      DistinctTail(keys);
      PutAllFits(c1, rest, v);
      ReverseFront(keys, c.order);
    }
  }

  lemma {:induction false} PutAllSplit<K, V>(c: Cache<K, V>, a: seq<K>, b: seq<K>, v: V)
    ensures PutAll(c, a + b, v) == PutAll(PutAll(c, a, v), b, v)
    decreases a
  {
    if a == [] {
      assert a + b == b;
    } else {
      assert (a + b)[0] == a[0];
      assert (a + b)[1..] == a[1..] + b;
      PutAllSplit(Put(c, a[0], v), a[1..], b, v);
    }
  }

  /** Every key but the first of `s` sits before the tail of its reverse. */
  lemma ReverseDropLast<K>(s: seq<K>)
    requires s != []
    ensures forall i :: 1 <= i < |s| ==> s[i] in Reverse(s)[..|s| - 1]
  {
    var r := Reverse(s);
    ReverseIndex(s);
    forall i | 1 <= i < |s| ensures s[i] in r[..|s| - 1] {
      assert r[|s| - 1 - i] == s[i];
    }
  }

  /** A full cache whose list is `front` reversed: putting a new key evicts
      `front[0]`, the key put first, and keeps the rest of `front`. */
  lemma {:induction false} FullThenPutNew<K, V>(full: Cache<K, V>, front: seq<K>, k: K, v: V)
    requires Inv(full) && full.order == Reverse(front)
    requires |front| == full.capacity >= 1 && k !in full.entries
    ensures var c := Put(full, k, v);
      && front[0] !in c.entries
      && k in c.entries
      && forall i :: 1 <= i < |front| ==> front[i] in c.entries
  {
    PutNewEvicts(full, k, v);
    ReverseDropLast(front);
  }

  /** Putting `capacity + 1` distinct keys into an empty cache evicts exactly
      the first one; all the others stay. */
  lemma EvictsFirst<K, V>(capacity: nat, keys: seq<K>, v: V)
    requires capacity >= 1 && |keys| == capacity + 1 && Distinct(keys)
    ensures var full := PutAll(Empty<K, V>(capacity), keys[..capacity], v);
      var c := Put(full, keys[capacity], v);
      && keys[0] !in c.entries
      && forall i :: 1 <= i < |keys| ==> keys[i] in c.entries
  {
    var front := keys[..capacity];
    DistinctLast(keys);
    var full := PutAll(Empty<K, V>(capacity), front, v);
    assert full.order == Reverse(front) && Inv(full) && full.capacity == capacity by {
      PutAllFits(Empty<K, V>(capacity), front, v);
      assert Reverse(front) + [] == Reverse(front);
    }
    ReverseIndex(front);
    FullThenPutNew(full, front, keys[capacity], v);
  }

  /** Promoting the tail key rotates it to the head. */
  lemma TouchLast<K>(s: seq<K>)
    requires Distinct(s) && |s| >= 1
    ensures Touch(s, s[|s| - 1]) == [s[|s| - 1]] + s[..|s| - 1]
  {
    WithoutAt(s, |s| - 1);
    assert s[..|s| - 1] + s[|s|..] == s[..|s| - 1];
  }

  /** On a full cache, promoting the tail key and then putting a new key
      evicts the key that was second from the tail instead. */
  lemma PromoteTailThenPut<K, V>(full: Cache<K, V>, k: K, v: V)
    requires Inv(full) && |full.order| == full.capacity >= 2 && k !in full.entries
    ensures var n := |full.order|;
      var c := Put(Get(full, full.order[n - 1]).1, k, v);
      && full.order[n - 1] in c.entries
      && full.order[n - 2] !in c.entries
      && k in c.entries
      && (forall x :: x in full.order[..n - 2] ==> x in c.entries)
  {
    var n := |full.order|;
    var last := full.order[n - 1];
    var touched := Get(full, last).1;
    assert touched.order == [last] + full.order[..n - 1] && Inv(touched) by {
      TouchLast(full.order);
      GetPresent(full, last);
    }
    assert touched.capacity == full.capacity && |touched.order| == n;
    assert touched.order[n - 1] == full.order[n - 2];
    assert touched.order[..n - 1] == [last] + full.order[..n - 2];
    PutNewEvicts(touched, k, v);
    var c := Put(touched, k, v);
    assert last in touched.order[..n - 1];
    forall x | x in full.order[..n - 2] ensures x in c.entries {
      assert x in touched.order[..n - 1];
    }
  }

  /** A full cache whose list is `front` reversed: promoting `front[0]` and
      then putting a new key evicts `front[1]` instead. */
  lemma {:induction false} FullThenTouchPut<K, V>(full: Cache<K, V>, front: seq<K>, k: K, v: V)
    requires Inv(full) && full.order == Reverse(front)
    requires |front| == full.capacity >= 2 && k !in full.entries
    ensures var c := Put(Get(full, front[0]).1, k, v);
      && front[0] in c.entries
      && front[1] !in c.entries
      && k in c.entries
      && forall i :: 2 <= i < |front| ==> front[i] in c.entries
  {
    var n := |front|;
    ReverseIndex(front);
    assert full.order[n - 1] == front[0] && full.order[n - 2] == front[1];
    PromoteTailThenPut(full, k, v);
    forall i | 2 <= i < n ensures front[i] in full.order[..n - 2] {
      assert full.order[n - 1 - i] == front[i];
    }
  }

  /** A `get` of the first key just before the last put saves it: the
      second key is evicted instead. */
  lemma GetSavesFirst<K, V>(capacity: nat, keys: seq<K>, v: V)
    requires capacity >= 2 && |keys| == capacity + 1 && Distinct(keys)
    ensures var full := PutAll(Empty<K, V>(capacity), keys[..capacity], v);
      var c := Put(Get(full, keys[0]).1, keys[capacity], v);
      && keys[0] in c.entries
      && keys[1] !in c.entries
      && forall i :: 2 <= i < |keys| ==> keys[i] in c.entries
  {
    var front := keys[..capacity];
    DistinctLast(keys);
    var full := PutAll(Empty<K, V>(capacity), front, v);
    assert full.order == Reverse(front) && Inv(full) && full.capacity == capacity by {
      PutAllFits(Empty<K, V>(capacity), front, v);
      assert Reverse(front) + [] == Reverse(front);
    }
    ReverseIndex(front);
    FullThenTouchPut(full, front, keys[capacity], v);
  }
}
