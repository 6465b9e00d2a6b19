/** The bounded LRU cache of LRUCache.java: a map from keys to nodes of a
    doubly linked recency list with sentinel head and tail nodes. Every
    public operation is proved to act on the abstract state `State()` as the
    matching function of module LruSpec does, so the properties proved there
    (eviction of the least recently used key, the size bound) carry over. */
module LruCache {
  import opened Common
  import LruSpec

  /** Two maps with the same keys and the same value at every key are equal. */
  lemma MapsAgree<K, V>(a: map<K, V>, b: map<K, V>)
    requires a.Keys == b.Keys && forall k :: k in a ==> a[k] == b[k]
    ensures a == b
  {
  }

  /** A list node (`DLinkedNode`). The key of a node never changes. */
  class Node<K(0), V(0)> {
    const key: K
    var value: V
    var prev: Node?<K, V>
    var next: Node?<K, V>

    /** A sentinel node: no key, no value, no links. */
    constructor Sentinel()
      ensures prev == null && next == null
    {
      prev := null;
      next := null;
    }

    constructor (k: K, v: V)
      ensures key == k && value == v && prev == null && next == null
    {
      key := k;
      value := v;
      prev := null;
      next := null;
    }
  }

  class LRUCache<K(==, 0), V(0)> {
    var cache: map<K, Node<K, V>>
    var size: int
    const capacity: int
    const head: Node<K, V>
    const tail: Node<K, V>

    /** The nodes strictly between the sentinels, from head to tail. */
    ghost var nodes: seq<Node<K, V>>
    ghost var Repr: set<object>

    /** The whole recency list, sentinels included. */
    ghost function Chain(): seq<Node<K, V>>
      reads this`nodes
    {
      [head] + nodes + [tail]
    }

    /** The links: `head <-> nodes[0] <-> ... <-> nodes[|nodes|-1] <-> tail`,
        every node appearing once and owned by `Repr`. */
    ghost predicate Linked()
      reads this`nodes, this`Repr, Repr - {this}
    {
      && this in Repr
      && (forall n :: n in Chain() ==> n in Repr)
      && LruSpec.Distinct(Chain())
      && (forall i {:trigger Chain()[i].next} :: 0 <= i < |Chain()| - 1 ==> Chain()[i].next == Chain()[i + 1])
      && (forall i {:trigger Chain()[i].prev} :: 0 < i < |Chain()| ==> Chain()[i].prev == Chain()[i - 1])
    }

    /** Updating the map or the size leaves the links as they were. */
    twostate lemma LinkedKept()
      requires old(Linked()) && unchanged(this`nodes, this`Repr)
      requires unchanged(old(Repr) - {this})
      ensures Linked()
    {
    }

    /** Overwriting the value of one node leaves the links as they were. */
    twostate lemma LinksKept(n: Node<K, V>)
      requires old(Linked()) && unchanged(this`nodes, this`Repr)
      requires unchanged(old(Repr) - {this, n}) && unchanged(n`next, n`prev)
      ensures Linked()
    {
      var c := Chain();
      forall i | 0 <= i < |c| - 1 ensures c[i].next == c[i + 1] {
        assert old(c[i].next) == c[i + 1];
      }
      forall i | 0 < i < |c| ensures c[i].prev == c[i - 1] {
        assert old(c[i].prev) == c[i - 1];
      }
    }

    /** The nodes between the sentinels are distinct and are not sentinels. */
    lemma NodesUnique()
      requires Linked()
      ensures LruSpec.Distinct(nodes) && head !in nodes && tail !in nodes
    {
      var c := Chain();
      forall a, b | 0 <= a < |nodes| && 0 <= b < |nodes| && a != b ensures LruSpec.Apart(nodes, a, b) {
        assert c[a + 1] == nodes[a] && c[b + 1] == nodes[b] && LruSpec.Apart(c, a + 1, b + 1);
      }
      forall k | 0 <= k < |nodes| ensures nodes[k] != head && nodes[k] != tail {
        assert c[k + 1] == nodes[k] && LruSpec.Apart(c, k + 1, 0) && LruSpec.Apart(c, k + 1, |c| - 1);
      }
    }

    /** The object invariant: the list and the map hold the same keys, each
        node is the map's node for its key, and `size` counts the entries
        and stays within the room the capacity leaves. */
    ghost predicate Valid()
      reads this, Repr
    {
      Within(LruSpec.Room(capacity))
    }

    /** The invariant with the size bound relaxed to `bound`: `put` passes
        through a state one entry over the capacity before it evicts. */
    ghost predicate Within(bound: int)
      reads this, Repr
    {
      && Linked()
      && size == |nodes| && size <= bound
      && Indexed()
    }

    /** The map sends each key to the listed node that carries it. */
    ghost predicate Indexed()
      reads this
    {
      IndexedBy(cache, nodes)
    }

    static ghost predicate IndexedBy(m: map<K, Node<K, V>>, ns: seq<Node<K, V>>)
    {
      && (forall k :: k in m ==> m[k] in ns && m[k].key == k)
      && (forall n :: n in ns ==> n.key in m && m[n.key] == n)
    }

    static ghost function KeysOf(ns: seq<Node<K, V>>): (r: seq<K>)
      ensures |r| == |ns| && forall i :: 0 <= i < |ns| ==> r[i] == ns[i].key
    {
      seq(|ns|, i requires 0 <= i < |ns| => ns[i].key)
    }

    /** The keys in recency order, most recently used first. */
    ghost function Order(): seq<K>
      reads this
    {
      KeysOf(nodes)
    }

    /** The cached value of every key. */
    ghost function Contents(): map<K, V>
      reads this, Repr
    {
      map k | k in cache && cache[k] in Repr :: cache[k].value
    }

    /** In a linked, indexed state `Contents` holds the value of every
        cached key. */
    lemma ContentsOf()
      requires Linked() && Indexed()
      ensures Contents().Keys == cache.Keys
      ensures forall k :: k in cache ==> Contents()[k] == cache[k].value
    {
      forall k | k in cache ensures k in Contents() {
        assert cache[k] in nodes && cache[k] in Chain();
      }
    }

    /** The abstract cache this object represents. */
    ghost function State(): LruSpec.Cache<K, V>
      reads this, Repr
    {
      LruSpec.Cache(Order(), Contents(), capacity)
    }

    /** A valid cache represents an abstract cache that satisfies the
        invariant of module LruSpec. */
    lemma ValidState()
      requires Valid()
      ensures LruSpec.Inv(State())
    {
      var order := Order();
      NodesUnique();
      IndexedKeys(cache, nodes);
      forall k | k in cache ensures k in order {
        var i :| 0 <= i < |nodes| && nodes[i] == cache[k];
        assert order[i] == k;
      }
      forall k | k in order ensures k in cache {
        var i :| 0 <= i < |order| && order[i] == k;
        assert nodes[i] in nodes;
      }
    }

    /** The keys of an indexed list of distinct nodes are distinct. */
    static lemma IndexedKeys(m: map<K, Node<K, V>>, ns: seq<Node<K, V>>)
      requires IndexedBy(m, ns) && LruSpec.Distinct(ns)
      ensures LruSpec.Distinct(KeysOf(ns))
    {
      var ks := KeysOf(ns);
      forall i, j | 0 <= i < |ks| && 0 <= j < |ks| && i != j ensures LruSpec.Apart(ks, i, j) {
        assert ns[i] in ns && ns[j] in ns;
        assert LruSpec.Apart(ns, i, j);
      }
    }

    /** Unlinking the `i`th node and dropping its key keeps the index, and
        the key order loses exactly that key. */
    static lemma RemoveAtIndexed(m: map<K, Node<K, V>>, ns: seq<Node<K, V>>, i: nat)
      requires IndexedBy(m, ns) && LruSpec.Distinct(ns) && i < |ns|
      ensures IndexedBy(m - {ns[i].key}, ns[..i] + ns[i + 1..])
      ensures KeysOf(ns[..i] + ns[i + 1..]) == LruSpec.Without(KeysOf(ns), ns[i].key)
    {
      var rest := ns[..i] + ns[i + 1..];
      forall k | k in m - {ns[i].key} ensures m[k] in rest {
        var j :| 0 <= j < |ns| && ns[j] == m[k];
        if j < i { assert rest[j] == m[k]; } else { assert rest[j - 1] == m[k]; }
      }
      forall n | n in rest ensures n.key in m - {ns[i].key} && m[n.key] == n {
        var j :| 0 <= j < |rest| && rest[j] == n;
        if j < i {
          assert n == ns[j] && LruSpec.Apart(ns, j, i);
        } else {
          assert n == ns[j + 1] && LruSpec.Apart(ns, j + 1, i);
        }
      }
      IndexedKeys(m, ns);
      LruSpec.WithoutAt(KeysOf(ns), i);
      assert KeysOf(rest) == KeysOf(ns)[..i] + KeysOf(ns)[i + 1..];
    }

    /** Linking a node with a new key in front keeps the index. */
    static lemma ConsIndexed(m: map<K, Node<K, V>>, ns: seq<Node<K, V>>, n: Node<K, V>)
      requires IndexedBy(m, ns) && n.key !in m
      ensures IndexedBy(m[n.key := n], [n] + ns)
      ensures KeysOf([n] + ns) == [n.key] + KeysOf(ns)
    {
      assert KeysOf([n] + ns) == [n.key] + KeysOf(ns);
    }

    /** Moving the `i`th node to the front keeps the index and touches its key. */
    static lemma MoveIndexed(m: map<K, Node<K, V>>, ns: seq<Node<K, V>>, i: nat)
      requires IndexedBy(m, ns) && LruSpec.Distinct(ns) && i < |ns|
      ensures IndexedBy(m, [ns[i]] + (ns[..i] + ns[i + 1..]))
      ensures KeysOf([ns[i]] + (ns[..i] + ns[i + 1..])) == LruSpec.Touch(KeysOf(ns), ns[i].key)
    {
      var rest := ns[..i] + ns[i + 1..];
      RemoveAtIndexed(m, ns, i);
      ConsIndexed(m - {ns[i].key}, rest, ns[i]);
      assert (m - {ns[i].key})[ns[i].key := ns[i]] == m;
    }

    constructor (capacity: int)
      ensures Valid() && fresh(Repr)
      ensures State() == LruSpec.Empty(capacity)
    {
      size := 0;
      this.capacity := capacity;
      head := new Node.Sentinel();
      tail := new Node.Sentinel();
      cache := map[];
      nodes := [];
      new;
      head.next := tail;
      tail.prev := head;
      Repr := {this, head, tail};
      assert Chain() == [head, tail];
    }

    /** Dropping position `j` of a list without repetitions: what moves
        where, and that the dropped element and its two neighbours differ
        from every other element. */
    static lemma Unlinked(c: seq<Node<K, V>>, j: nat)
      requires LruSpec.Distinct(c) && 0 < j < |c| - 1
      ensures var d := c[..j] + c[j + 1..];
        && |d| == |c| - 1 && LruSpec.Distinct(d) && c[j] !in d
        && (forall k :: 0 <= k < j ==> d[k] == c[k])
        && (forall k :: j <= k < |d| ==> d[k] == c[k + 1])
      ensures forall k :: 0 <= k < |c| && k != j - 1 ==> c[k] != c[j - 1]
      ensures forall k :: 0 <= k < |c| && k != j + 1 ==> c[k] != c[j + 1]
    {
      var d := c[..j] + c[j + 1..];
      forall a, b | 0 <= a < |d| && 0 <= b < |d| && a != b ensures LruSpec.Apart(d, a, b) {
        var a', b' := if a < j then a else a + 1, if b < j then b else b + 1;
        assert d[a] == c[a'] && d[b] == c[b'] && LruSpec.Apart(c, a', b');
      }
      forall k | 0 <= k < |d| ensures d[k] != c[j] {
        var k' := if k < j then k else k + 1;
        assert d[k] == c[k'] && LruSpec.Apart(c, k', j);
      }
      forall k | 0 <= k < |c| && k != j - 1 ensures c[k] != c[j - 1] {
        assert LruSpec.Apart(c, k, j - 1);
      }
      forall k | 0 <= k < |c| && k != j + 1 ensures c[k] != c[j + 1] {
        assert LruSpec.Apart(c, k, j + 1);
      }
    }

    /** Inserting a new element `n` after position 0 of a list without
        repetitions. */
    static lemma Linked1(c: seq<Node<K, V>>, n: Node<K, V>)
      requires LruSpec.Distinct(c) && 1 < |c| && n !in c
      ensures var d := [c[0], n] + c[1..];
        && LruSpec.Distinct(d)
        && (forall k :: 2 <= k < |d| ==> d[k] == c[k - 1])
      ensures forall k :: 0 < k < |c| ==> c[k] != c[0]
      ensures forall k :: 1 < k < |c| ==> c[k] != c[1]
    {
      var d := [c[0], n] + c[1..];
      forall a, b | 0 <= a < |d| && 0 <= b < |d| && a != b ensures LruSpec.Apart(d, a, b) {
        if a == 1 {
          assert d[b] in c;
        } else if b == 1 {
          assert d[a] in c;
        } else {
          var a', b' := if a == 0 then 0 else a - 1, if b == 0 then 0 else b - 1;
          assert d[a] == c[a'] && d[b] == c[b'] && LruSpec.Apart(c, a', b');
        }
      }
      forall k | 0 < k < |c| ensures c[k] != c[0] {
        assert LruSpec.Apart(c, k, 0);
      }
      forall k | 1 < k < |c| ensures c[k] != c[1] {
        assert LruSpec.Apart(c, k, 1);
      }
    }

    /** `removeNode`: unlink the node at position `i`; the node keeps its own
        links, and nothing else changes. */
    method RemoveNode(node: Node<K, V>, ghost i: nat)
      requires Linked() && i < |nodes| && nodes[i] == node
      modifies Repr - {this}, this`nodes
      ensures Linked() && Repr == old(Repr) && node !in Chain()
      ensures nodes == old(nodes[..i] + nodes[i + 1..])
      ensures forall n :: n in old(nodes) ==> n.value == old(n.value)
    {
      ghost var c := Chain();
      Unlinked(c, i + 1);
      assert c[i + 1] == node;
      assert node.prev == c[i] && node.next == c[i + 2];
      var p, q := node.prev, node.next;
      p.next := q;
      q.prev := p;
      nodes := nodes[..i] + nodes[i + 1..];
      Bypassed(i, p, q);
    }

    /** After unlinking position `i` of `nodes`, whose neighbours in the chain
        are `p` and `q`, by pointing `p` and `q` at each other, the list is
        linked again. */
    twostate lemma Bypassed(i: nat, new p: Node<K, V>, new q: Node<K, V>)
      requires old(Linked()) && i < old(|nodes|)
      requires p == old(Chain()[i]) && q == old(Chain()[i + 2])
      requires nodes == old(nodes[..i] + nodes[i + 1..]) && Repr == old(Repr)
      requires unchanged(old(Repr) - {this, p, q}) && unchanged(p`prev, q`next)
      requires p.next == q && q.prev == p
      ensures Linked()
    {
      var c := old(Chain());
      Unlinked(c, i + 1);
      var d := Chain();
      assert d == c[..i + 1] + c[i + 2..];
      forall k | 0 <= k < |d| - 1 ensures d[k].next == d[k + 1] {
        if k < i {
          assert old(c[k].next) == c[k + 1];
        } else if k > i {
          assert old(c[k + 1].next) == c[k + 2];
        }
      }
      forall k | 0 < k < |d| ensures d[k].prev == d[k - 1] {
        if k <= i {
          assert old(c[k].prev) == c[k - 1];
        } else if k > i + 1 {
          assert old(c[k + 1].prev) == c[k];
        }
      }
    }

    /** `addToHead`: link `node`, which is not on the list, right after the
        head sentinel. */
    method AddToHead(node: Node<K, V>)
      requires Linked() && node !in Chain()
      modifies Repr - {this}, this`nodes, this`Repr, node
      ensures Linked() && Repr == old(Repr) + {node}
      ensures nodes == [node] + old(nodes)
      ensures forall n :: n in old(nodes) ==> n.value == old(n.value)
      ensures node.value == old(node.value)
    {
      ghost var c := Chain();
      Linked1(c, node);
      assert c[0] == head && c[0].next == c[1];
      var first := head.next;
      node.prev := head;
      node.next := first;
      first.prev := node;
      head.next := node;
      nodes := [node] + nodes;
      Repr := Repr + {node};
      ghost var d := Chain();
      assert d == [c[0], node] + c[1..];
      forall k | 0 <= k < |d| - 1 ensures d[k].next == d[k + 1] {
        if k > 1 {
          assert old(c[k - 1].next) == c[k];
        }
      }
      forall k | 0 < k < |d| ensures d[k].prev == d[k - 1] {
        if k > 2 {
          assert old(c[k - 1].prev) == c[k - 2];
        }
      }
    }

    /** `moveToHead`: unlink the node at position `i` and relink it at the head. */
    method MoveToHead(node: Node<K, V>, ghost i: nat)
      requires Linked() && i < |nodes| && nodes[i] == node
      modifies Repr - {this}, this`nodes, this`Repr
      ensures Linked() && Repr == old(Repr)
      ensures nodes == [node] + old(nodes[..i] + nodes[i + 1..])
      ensures forall n :: n in old(nodes) ==> n.value == old(n.value)
    {
      RemoveNode(node, i);
      AddToHead(node);
    }

    /** `removeTail`: unlink and return the node before the tail sentinel. */
    method RemoveTail() returns (res: Node<K, V>)
      requires Linked() && nodes != []
      modifies Repr - {this}, this`nodes
      ensures Linked() && Repr == old(Repr)
      ensures res == old(nodes[|nodes| - 1]) && nodes == old(nodes[..|nodes| - 1])
      ensures forall n :: n in old(nodes) ==> n.value == old(n.value)
    {
      ghost var c := Chain();
      assert c[|c| - 1] == tail && c[|c| - 1].prev == c[|c| - 2];
      res := tail.prev;
      RemoveNode(res, |nodes| - 1);
    }

    /** `get`: an absent key yields `None` and changes nothing; a present
        key yields its value and moves to the head. */
    method Get(key: K) returns (r: Option<V>)
      requires Valid()
      modifies Repr
      ensures Valid() && Repr == old(Repr)
      ensures (r, State()) == LruSpec.Get(old(State()), key)
    {
      ContentsOf();
      if key !in cache {
        return None;
      }
      var node := cache[key];
      ghost var before := State();
      ghost var ns := nodes;
      ghost var i :| 0 <= i < |nodes| && nodes[i] == node;
      NodesUnique();
      MoveIndexed(cache, ns, i);
      MoveToHead(node, i);
      r := Some(node.value);
      MovedState(node, i, ns);
      MapsAgree(before.entries[key := node.value], before.entries);
      assert Order() == LruSpec.Touch(before.order, key);
    }

    /** `put`: overwrite and promote an existing key, or link a new node at
        the head and, when that exceeds the capacity, unlink the tail node
        and drop its key from the map, as `discard` does. */
    method Put(key: K, value: V)
      requires Valid()
      modifies Repr
      ensures Valid() && fresh(Repr - old(Repr))
      ensures State() == LruSpec.Put(old(State()), key, value)
    {
      if key !in cache {
        Insert(key, value);
      } else {
        var node := cache[key];
        Overwrite(node, value);
      }
    }

    /** The branch of `put` for a new key. */
    method Insert(key: K, value: V)
      requires Valid() && key !in cache
      modifies Repr
      ensures Valid() && fresh(Repr - old(Repr))
      ensures State() == LruSpec.Put(old(State()), key, value)
    {
      LinkNew(key, value);
      if size > capacity {
        Discard();
      }
    }

    /** A new node for `key` linked at the head and entered in the map; the
        cache may now be one entry over its capacity. */
    method LinkNew(key: K, value: V)
      requires Valid() && key !in cache
      modifies Repr
      ensures Within(LruSpec.Room(capacity) + 1) && fresh(Repr - old(Repr)) && size > 0
      ensures State() == LruSpec.Cache([key] + old(State()).order, old(State()).entries[key := value], capacity)
      ensures |State().order| == size
    {
      ghost var ns := nodes;
      var newNode := new Node(key, value);
      ConsIndexed(cache, ns, newNode);
      label Allocated:
      cache := cache[key := newNode];
      LinkedKept@Allocated();
      AddToHead(newNode);
      label Linked:
      size := size + 1;
      LinkedKept@Linked();
      LinkedState(newNode, ns);
    }

    /** After a new node `n` is linked in front of `ns` and entered in the
        map, with every other value kept, the abstract cache has `n`'s entry
        added and its key first in the order. */
    twostate lemma LinkedState(new n: Node<K, V>, ns: seq<Node<K, V>>)
      requires old(Linked() && Indexed()) && ns == old(nodes) && n.key !in old(cache)
      requires Linked() && Indexed() && nodes == [n] + ns && cache == old(cache)[n.key := n]
      requires forall x :: x in ns ==> x.value == old(x.value)
      ensures Contents() == old(Contents())[n.key := n.value]
      ensures Order() == [n.key] + old(Order())
    {
      ContentsOf();
      var before := old(Contents());
      forall k | k in old(cache) ensures k in before && before[k] == old(cache[k].value) {
        assert old(cache[k] in nodes && cache[k] in Chain());
      }
      var now, after := Contents(), before[n.key := n.value];
      forall k | k in now ensures now[k] == after[k] {
        if k != n.key {
          assert cache[k] in ns;
        }
      }
      MapsAgree(now, after);
    }

    /** The branch of `put` for a cached key: overwrite its value and move
        its node to the head. */
    method Overwrite(node: Node<K, V>, value: V)
      requires Valid() && node in nodes
      modifies Repr
      ensures Valid() && Repr == old(Repr)
      ensures State() == LruSpec.Put(old(State()), node.key, value)
    {
      ghost var before := State();
      ContentsOf();
      ghost var ns := nodes;
      ghost var i :| 0 <= i < |nodes| && nodes[i] == node;
      NodesUnique();
      MoveIndexed(cache, ns, i);
      label Found:
      node.value := value;
      LinksKept@Found(node);
      MoveToHead(node, i);
      MovedState(node, i, ns);
      assert Order() == LruSpec.Touch(before.order, node.key);
    }

    /** After the node at position `i` of `ns` moves to the front, with the
        map and every other value kept, the abstract cache holds the node's
        current value for its key and the same values for all others. */
    twostate lemma MovedState(new node: Node<K, V>, i: nat, new ns: seq<Node<K, V>>)
      requires old(Linked() && Indexed()) && ns == old(nodes) && i < |ns| && ns[i] == node
      requires Linked() && Indexed() && nodes == [node] + (ns[..i] + ns[i + 1..]) && cache == old(cache)
      requires forall x :: x in ns && x != node ==> x.value == old(x.value)
      ensures Contents() == old(Contents())[node.key := node.value]
    {
      ContentsOf();
      var before := old(Contents());
      forall k | k in old(cache) ensures k in before && before[k] == old(cache[k].value) {
        assert old(cache[k] in nodes && cache[k] in Chain());
      }
      var now, after := Contents(), before[node.key := node.value];
      forall k | k in now ensures now[k] == after[k] {
        if k != node.key {
          assert cache[k] in ns;
        }
      }
      MapsAgree(now, after);
    }

    /** `remove(node)`: unlink a cached node and drop its key from the map. */
    method Remove(node: Node<K, V>)
      requires Valid() && node in nodes
      modifies Repr
      ensures Valid() && Repr == old(Repr)
      ensures State() == LruSpec.Remove(old(State()), node.key)
    {
      ghost var before := State();
      ContentsOf();
      ghost var ns := nodes;
      ghost var i :| 0 <= i < |nodes| && nodes[i] == node;
      NodesUnique();
      RemoveAtIndexed(cache, ns, i);
      RemoveNode(node, i);
      label Unlinked:
      cache := cache - {node.key};
      size := size - 1;
      LinkedKept@Unlinked();
      ContentsOf();
      ghost var now, after := Contents(), before.entries - {node.key};
      forall k | k in now ensures now[k] == after[k] {
        assert cache[k] in ns;
      }
      MapsAgree(now, after);
      assert Order() == LruSpec.Without(before.order, node.key);
    }

    /** `discard`: drop the least recently used entry. It also accepts a
        cache one entry over its capacity, the state `put` leaves before
        it evicts. */
    method Discard()
      requires Within(LruSpec.Room(capacity) + 1) && size > 0
      modifies Repr
      ensures Valid() && Repr == old(Repr)
      ensures State() == LruSpec.Discard(old(State()))
    {
      ghost var before := State();
      ContentsOf();
      ghost var ns := nodes;
      NodesUnique();
      RemoveAtIndexed(cache, ns, |ns| - 1);
      assert ns[..|ns| - 1] + ns[|ns|..] == ns[..|ns| - 1];
      var t := RemoveTail();
      label Unlinked:
      cache := cache - {t.key};
      size := size - 1;
      LinkedKept@Unlinked();
      DiscardedState(t, ns);
      assert t.key == before.order[|ns| - 1];
    }

    /** After the last node `t` of `ns` is unlinked and its key dropped from
        the map, with every value kept, the abstract cache has lost `t`'s
        entry and the last key of its order. */
    twostate lemma DiscardedState(new t: Node<K, V>, new ns: seq<Node<K, V>>)
      requires old(Linked() && Indexed()) && ns == old(nodes) && ns != [] && t == ns[|ns| - 1]
      requires Linked() && Indexed() && nodes == ns[..|ns| - 1] && cache == old(cache) - {t.key}
      requires forall x :: x in ns ==> x.value == old(x.value)
      ensures Contents() == old(Contents()) - {t.key}
      ensures Order() == old(Order())[..|ns| - 1]
    {
      ContentsOf();
      var before := old(Contents());
      forall k | k in old(cache) ensures k in before && before[k] == old(cache[k].value) {
        assert old(cache[k] in nodes && cache[k] in Chain());
      }
      var now, after := Contents(), before - {t.key};
      forall k | k in now ensures now[k] == after[k] {
        assert cache[k] in ns;
      }
      MapsAgree(now, after);
    }
  }
}
