/** `lru_cache` of src/tools/lrucache.h: a linked list of entries in recency order and a map
    from keys to list nodes, both updated in place.  It refines `Recency`. */
module LruCache {
  import opened Seqs
  import opened Recency
  import opened LinkedList
  import RecencyValues

  /** `AccessResult`: what an access to the cache found. */
  datatype Access<+V> = Hit(val: V) | Inserted(val: V) | Miss

  /** The map that leads from each key to the node at the same position. */
  ghost function IndexOf<K, V>(nodes: seq<Node<(K, V)>>, items: seq<(K, V)>): map<K, Node<(K, V)>>
    requires |nodes| == |items|
  {
    if items == [] then map[] else IndexOf(nodes[1..], items[1..])[items[0].0 := nodes[0]]
  }

  /** The map indexes exactly the nodes of the list, and no key occurs twice. */
  ghost predicate Indexed<K, V>(index: map<K, Node<(K, V)>>, nodes: seq<Node<(K, V)>>, items: seq<(K, V)>) {
    |nodes| == |items| && Unique(items) && index == IndexOf(nodes, items)
  }

  lemma RemovedFirst<T>(s: seq<T>)
    requires s != []
    ensures Removed(s, 0) == s[1..]
  {
  }

  lemma RemovedLater<T>(s: seq<T>, k: nat)
    requires 0 < k < |s|
    ensures Removed(s, k) == [s[0]] + Removed(s[1..], k - 1)
  {
  }

  /** A hit: the map leads to the one entry with that key. */
  lemma {:induction false} Locate<K, V>(nodes: seq<Node<(K, V)>>, items: seq<(K, V)>, key: K) returns (k: nat)
    requires |nodes| == |items| && Unique(items) && key in IndexOf(nodes, items)
    ensures k < |items| && nodes[k] == IndexOf(nodes, items)[key] && items[k].0 == key
    ensures Lookup(items, key) == Some(items[k].1) && Without(items, key) == Removed(items, k)
  {
    if items[0].0 == key {
      k := 0;
      RemovedFirst(items);
      Absent(nodes[1..], items[1..], key);
    } else {
      UniqueTail(items);
      k := Locate(nodes[1..], items[1..], key);
      k := k + 1;
      RemovedLater(items, k);
    }
  }

  /** A miss. */
  lemma {:induction false} Absent<K, V>(nodes: seq<Node<(K, V)>>, items: seq<(K, V)>, key: K)
    requires |nodes| == |items|
    requires (key !in IndexOf(nodes, items)) || (forall i | 0 <= i < |items| :: items[i].0 != key)
    ensures key !in IndexOf(nodes, items) && (forall i | 0 <= i < |items| :: items[i].0 != key)
    ensures Lookup(items, key) == None && Without(items, key) == items
  {
    if items != [] {
      Absent(nodes[1..], items[1..], key);
      assert items == [items[0]] + items[1..];
    }
  }

  lemma IndexedCons<K, V>(nodes: seq<Node<(K, V)>>, items: seq<(K, V)>, n: Node<(K, V)>, x: (K, V))
    requires |nodes| == |items| && Unique(items) && x.0 !in IndexOf(nodes, items)
    ensures Unique([x] + items) && IndexOf([n] + nodes, [x] + items) == IndexOf(nodes, items)[x.0 := n]
  {
    Absent(nodes, items, x.0);
    var ns, xs := [n] + nodes, [x] + items;
    assert ns[0] == n && ns[1..] == nodes && xs[0] == x && xs[1..] == items;
    forall i, j | 0 <= i < j < |xs|
      ensures xs[i].0 != xs[j].0
    {
      assert xs[j] == items[j - 1];
      if i > 0 {
        assert xs[i] == items[i - 1];
      }
    }
  }

  lemma UniqueTail<K, V>(items: seq<(K, V)>)
    requires Unique(items) && items != []
    ensures Unique(items[1..])
  {
  }

  lemma {:induction false} IndexedRemove<K, V>(nodes: seq<Node<(K, V)>>, items: seq<(K, V)>, k: nat)
    requires |nodes| == |items| && Unique(items) && k < |items|
    ensures Unique(Removed(items, k))
    ensures IndexOf(Removed(nodes, k), Removed(items, k)) == IndexOf(nodes, items) - {items[k].0}
  {
    var n, x, ns, xs := nodes[0], items[0], nodes[1..], items[1..];
    UniqueTail(items);
    Absent(ns, xs, x.0);
    if k == 0 {
      RemovedFirst(items);
      RemovedFirst(nodes);
      AddThenRemove(IndexOf(ns, xs), x.0, n);
    } else {
      assert items[k] == xs[k - 1] && items[k].0 != x.0;
      IndexedRemove(ns, xs, k - 1);
      RemovedLater(items, k);
      RemovedLater(nodes, k);
      IndexedCons(Removed(ns, k - 1), Removed(xs, k - 1), n, x);
      RemoveThenAdd(IndexOf(ns, xs), items[k].0, x.0, n);
    }
  }

  lemma AddThenRemove<K, V>(m: map<K, V>, key: K, value: V)
    requires key !in m
    ensures m[key := value] - {key} == m
  {
  }

  lemma RemoveThenAdd<K, V>(m: map<K, V>, gone: K, key: K, value: V)
    requires gone != key
    ensures (m - {gone})[key := value] == m[key := value] - {gone}
  {
  }

  /** Moving an entry to the front, perhaps with a new value, needs no change of the map. */
  lemma IndexedFront<K, V>(nodes: seq<Node<(K, V)>>, items: seq<(K, V)>, k: nat, value: V)
    requires |nodes| == |items| && Unique(items) && k < |items|
    requires items[k].0 in IndexOf(nodes, items) && IndexOf(nodes, items)[items[k].0] == nodes[k]
    ensures Indexed(IndexOf(nodes, items), [nodes[k]] + Removed(nodes, k), [(items[k].0, value)] + Removed(items, k))
  {
    var key := items[k].0;
    IndexedRemove(nodes, items, k);
    IndexedCons(Removed(nodes, k), Removed(items, k), nodes[k], (key, value));
  }

  /** A hit changes no value. */
  lemma KeepsValues<K(!new), V>(c: Cache<K, V>, key: K, value: V)
    requires Lookup(c.items, key).Some?
    ensures forall j :: Lookup(Recency.GetOrPut(c, key, value).items, j) == Lookup(c.items, j)
  {
    forall j
      ensures Lookup(Recency.GetOrPut(c, key, value).items, j) == Lookup(c.items, j)
    {
      RecencyValues.ReadKeepsValues(c, OpGetOrPut(key, value), j);
    }
  }

  /** The map and the list have the same number of entries. */
  lemma {:induction false} IndexSize<K, V>(nodes: seq<Node<(K, V)>>, items: seq<(K, V)>)
    requires |nodes| == |items| && Unique(items)
    ensures |IndexOf(nodes, items)| == |items|
  {
    if items != [] {
      Absent(nodes[1..], items[1..], items[0].0);
      IndexSize(nodes[1..], items[1..]);
    }
  }

  class Lru<K(==, !new), V> {
    const list: List<(K, V)>
    var index: map<K, Node<(K, V)>>
    var maxSize: nat

    ghost predicate Valid()
      reads this, list, list.nodes
    {
      list.Valid() && Indexed(index, list.nodes, list.items)
    }

    /** The recency list this object stands for. */
    ghost function Contents(): (c: Cache<K, V>)
      reads this, list
    {
      Cache(list.items, maxSize)
    }

    /** Everything an operation may change. */
    ghost function Repr(): set<object>
      reads this, list
    {
      {this, list} + set n | n in list.nodes
    }

    constructor (maxSize: nat)
      ensures Valid() && fresh(Repr()) && Contents() == Cache([], maxSize)
    {
      this.maxSize := maxSize;
      list := new List();
      index := map[];
    }

    /** `exists`. */
    method Exists(key: K) returns (r: bool)
      requires Valid()
      ensures r <==> Lookup(Contents().items, key).Some?
    {
      r := key in index;
      if r {
        ghost var k := Locate(list.nodes, list.items, key);
      } else {
        Absent(list.nodes, list.items, key);
      }
    }

    /** `size`. */
    method Size() returns (n: nat)
      requires Valid()
      ensures n == |Contents().items|
    {
      IndexSize(list.nodes, list.items);
      n := |index|;
    }

    /** `get`. */
    method Get(key: K) returns (r: Access<V>)
      requires Valid()
      modifies Repr()
      ensures Valid() && Repr() <= old(Repr())
      ensures Contents() == Recency.Get(old(Contents()), key)
      ensures r == match Lookup(old(Contents().items), key) case Some(v) => Hit(v) case None => Miss
    {
      if key !in index {
        Absent(list.nodes, list.items, key);
        return Miss;
      }
      ghost var k := Locate(list.nodes, list.items, key);
      IndexedFront(list.nodes, list.items, k, list.items[k].1);
      RemovedMembers(list.nodes, k);
      list.Splice(index[key], k);
      return Hit(index[key].data.1);
    }

    /** `put`. */
    method Put(key: K, value: V)
      requires Valid()
      modifies Repr()
      ensures Valid() && fresh(Repr() - old(Repr()))
      ensures Contents() == Recency.Put(old(Contents()), key, value)
    {
      if key in index {
        ghost var k := Locate(list.nodes, list.items, key);
        Replace(key, value, k);
      } else {
        AddMissing(key, value);
      }
    }

    /** The entry of a known key, with a new value, to the front. */
    method Replace(key: K, value: V, ghost k: nat)
      requires Valid() && key in index && k < |list.items| && list.items[k].0 == key && index[key] == list.nodes[k]
      modifies list, list.nodes
      ensures Valid() && list.items == [(key, value)] + Removed(old(list.items), k)
      ensures list.nodes == [old(list.nodes)[k]] + Removed(old(list.nodes), k)
      ensures Repr() <= old(Repr())
    {
      IndexedFront(list.nodes, list.items, k, value);
      RemovedMembers(list.nodes, k);
      list.Splice(index[key], k);
      list.SetFront((key, value));
    }

    /** `getOrPut`. */
    method GetOrPut(key: K, value: V) returns (r: Access<V>)
      requires Valid()
      modifies Repr()
      ensures Valid() && fresh(Repr() - old(Repr()))
      ensures Contents() == Recency.GetOrPut(old(Contents()), key, value)
      ensures r == match Lookup(old(Contents().items), key) case Some(v) => Hit(v) case None => Inserted(value)
      ensures r.Hit? ==> forall j :: Lookup(Contents().items, j) == old(Lookup(Contents().items, j))
    {
      if key in index {
        ghost var k := Locate(list.nodes, list.items, key);
        ghost var before := Contents();
        r := Get(key);
        KeepsValues(before, key, value);
      } else {
        AddMissing(key, value);
        r := Inserted(value);
      }
    }

    /** `drop`. */
    method Drop(key: K) returns (r: bool)
      requires Valid()
      modifies Repr()
      ensures Valid() && Repr() <= old(Repr())
      ensures Contents() == Recency.Drop(old(Contents()), key)
      ensures r <==> Lookup(old(Contents().items), key).Some?
    {
      if key !in index {
        Absent(list.nodes, list.items, key);
        return false;
      }
      ghost var k := Locate(list.nodes, list.items, key);
      Erase(index[key], k);
      return true;
    }

    /** Takes the entry at position `k` out of the list and the map. */
    method Erase(node: Node<(K, V)>, ghost k: nat)
      requires Valid() && k < |list.nodes| && list.nodes[k] == node
      modifies this`index, list, list.nodes
      ensures Valid()
      ensures list.nodes == Removed(old(list.nodes), k) && list.items == Removed(old(list.items), k)
      ensures forall n | n in list.nodes :: n in old(list.nodes)
    {
      RemovedMembers(list.nodes, k);
      IndexedRemove(list.nodes, list.items, k);
      index := index - {node.data.0};
      list.Unlink(node, k);
    }

    /** `setMaxSize`: nothing is evicted until the next insertion. */
    method SetMaxSize(n: nat) returns (previous: nat)
      requires Valid()
      modifies this`maxSize
      ensures Valid() && Contents() == Recency.SetMaxSize(old(Contents()), n) && previous == old(maxSize)
    {
      previous := maxSize;
      maxSize := n;
    }

    /** `putMissing`: a new front entry, then eviction from the back. */
    method AddMissing(key: K, value: V)
      requires Valid() && key !in index
      modifies Repr()
      ensures Valid() && fresh(Repr() - old(Repr()))
      ensures Contents() == PutMissing(old(Contents()), key, value)
      ensures Lookup(old(Contents().items), key) == None
    {
      Absent(list.nodes, list.items, key);
      PushEntry(key, value);
      ghost var all := list.nodes;
      EvictBeyond();
      PrefixMember(list.nodes, all);
    }

    method PushEntry(key: K, value: V)
      requires Valid() && key !in index
      modifies this`index, list, list.nodes
      ensures Valid() && list.items == [(key, value)] + old(list.items)
      ensures list.nodes != [] && fresh(list.nodes[0]) && list.nodes[1..] == old(list.nodes)
    {
      ghost var nodes, items := list.nodes, list.items;
      var node := list.PushFront((key, value));
      IndexedCons(nodes, items, node, (key, value));
      index := index[key := node];
    }

    /** The eviction loop: pops the least recent entries until the map fits. */
    method EvictBeyond()
      requires Valid()
      modifies this`index, list, list.nodes
      ensures Valid() && Prefix(list.nodes, old(list.nodes)) && Repr() <= old(Repr())
      ensures Contents() == old(Cache(Take(list.items, maxSize), maxSize))
    {
      ghost var nodes, kept := list.nodes, Take(list.items, maxSize);
      IndexSize(list.nodes, list.items);
      while |index| > maxSize
        invariant Valid() && |index| == |list.items|
        invariant Take(list.items, maxSize) == kept
        invariant Prefix(list.nodes, nodes)
        decreases |index|
      {
        PrefixMember(list.nodes, nodes);
        EvictLast();
      }
      PrefixMember(list.nodes, nodes);
    }

    method EvictLast()
      requires Valid() && list.items != []
      modifies this`index, list, list.nodes
      ensures Valid() && |index| == |list.items|
      ensures list.nodes == old(list.nodes)[..|old(list.nodes)| - 1]
      ensures list.items == old(list.items)[..|old(list.items)| - 1]
    {
      ghost var k := |list.items| - 1;
      IndexedRemove(list.nodes, list.items, k);
      index := index - {list.tail.data.0};
      list.PopBack();
      IndexSize(list.nodes, list.items);
    }
  }
}
