/** `MultiKeyCache` of src/library.cpp: a cache whose keys are sets, where dropping one element
    drops every key that contains it. */
module MultiKeyCache {
  import opened Seqs
  import opened Recency
  import opened LruCache

  /** The entries whose key is not in `gone`, in their order. */
  function Outside<K(==), V>(items: seq<(K, V)>, gone: set<K>): seq<(K, V)> {
    Select(items, k => k !in gone)
  }

  lemma {:induction false} WithoutOutside<K, V>(items: seq<(K, V)>, gone: set<K>, k: K)
    ensures Without(Outside(items, gone), k) == Outside(items, gone + {k})
  {
    if items != [] {
      var rest := Outside(items[1..], gone);
      WithoutOutside(items[1..], gone, k);
      assert [] + rest == rest && [] + Outside(items[1..], gone + {k}) == Outside(items[1..], gone + {k});
      assert ([items[0]] + rest)[1..] == rest;
    }
  }

  lemma {:induction false} OutsideIsSelect<Id, V>(items: seq<(set<Id>, V)>, gone: set<set<Id>>, id: Id)
    requires forall x | x in items :: x.0 in gone <==> id in x.0
    ensures Outside(items, gone) == Select(items, k => id !in k)
  {
    if items != [] {
      assert items == [items[0]] + items[1..];
      OutsideIsSelect(items[1..], gone, id);
    }
  }

  lemma {:induction false} OutsideNothing<K, V>(items: seq<(K, V)>)
    ensures Outside(items, {}) == items
  {
    if items != [] {
      OutsideNothing(items[1..]);
    }
  }

  lemma {:induction false} OutsideHas<K, V>(items: seq<(K, V)>, gone: set<K>, k: K)
    requires k !in gone && Lookup(items, k).Some?
    ensures Lookup(Outside(items, gone), k).Some?
  {
    var rest := Outside(items[1..], gone);
    assert [] + rest == rest && ([items[0]] + rest)[1..] == rest;
    if items[0].0 != k {
      OutsideHas(items[1..], gone, k);
    }
  }

  /** The keys of a cache are those of its map. */
  lemma IndexKeys<K(!new), V>(cache: Lru<K, V>)
    requires cache.Valid()
    ensures forall k | k in cache.index :: Lookup(cache.list.items, k).Some? && exists x :: x in cache.list.items && x.0 == k
    ensures forall x | x in cache.list.items :: x.0 in cache.index
  {
    var nodes, items := cache.list.nodes, cache.list.items;
    forall k | k in cache.index
      ensures Lookup(items, k).Some? && exists x :: x in items && x.0 == k
    {
      var i := Locate(nodes, items, k);
      assert items[i] in items;
    }
    forall x | x in items
      ensures x.0 in cache.index
    {
      if x.0 !in cache.index {
        Absent(nodes, items, x.0);
      }
    }
  }

  class Cache<Id(==, !new), V> {
    const impl: Lru<set<Id>, V>

    constructor (maxEntries: nat)
      ensures impl.Valid() && fresh(impl.Repr()) && impl.Contents().items == []
    {
      impl := new Lru(maxEntries);
    }

    /** One round of the loop for a key that contains the element: `removed |= impl_.drop(key)`. */
    method DropKey(k: set<Id>, found: bool) returns (removed: bool)
      requires impl.Valid() && Lookup(impl.list.items, k).Some?
      modifies impl.Repr()
      ensures impl.Valid() && impl.Repr() <= old(impl.Repr()) && removed
      ensures impl.maxSize == old(impl.maxSize) && impl.list.items == Without(old(impl.list.items), k)
    {
      ghost var before := impl.Contents();
      var dropped := impl.Drop(k);
      assert impl.Contents() == Recency.Drop(before, k);
      removed := found || dropped;
    }

    /** `drop(key)`: afterwards no cached key contains `id`, and all other entries are still there,
        in the same order. */
    method Drop(id: Id) returns (removed: bool)
      requires impl.Valid()
      modifies impl.Repr()
      ensures impl.Valid() && impl.Repr() <= old(impl.Repr())
      ensures impl.Contents() == old(impl.Contents()).(items := Select(old(impl.Contents().items), k => id !in k))
      ensures removed <==> exists x :: x in old(impl.Contents().items) && id in x.0
    {
      removed := false;
      ghost var items, repr := impl.list.items, impl.Repr();
      var todo := impl.index.Keys;
      ghost var all, gone := todo, {};
      IndexKeys(impl);
      OutsideNothing(items);
      while todo != {}
        invariant impl.Valid() && impl.maxSize == old(impl.maxSize) && impl.Repr() <= repr
        invariant Progress(items, all, todo, gone, id)
        invariant impl.list.items == Outside(items, gone) && (removed <==> gone != {})
        decreases todo
      {
        var k :| k in todo;
        ProgressStep(items, all, todo, gone, id, k);
        ProgressDrop(items, all, todo, gone, id, k);
        todo := todo - {k};
        if id in k {
          removed := DropKey(k, removed);
          gone := gone + {k};
        }
      }
      ProgressEnd(items, all, gone, id);
    }
  }

  /** Of the keys of `items`, those seen so far that contain `id` are gone. */
  ghost predicate Progress<Id(!new), V>(items: seq<(set<Id>, V)>, all: set<set<Id>>, todo: set<set<Id>>,
                                        gone: set<set<Id>>, id: Id) {
    && todo <= all && (forall k :: k in gone <==> k in all && k !in todo && id in k)
    && (forall k | k in all :: Lookup(items, k).Some? && exists x :: x in items && x.0 == k)
    && (forall x | x in items :: x.0 in all)
  }

  lemma ProgressStep<Id(!new), V>(items: seq<(set<Id>, V)>, all: set<set<Id>>, todo: set<set<Id>>,
                                  gone: set<set<Id>>, id: Id, k: set<Id>)
    requires Progress(items, all, todo, gone, id) && k in todo
    ensures Progress(items, all, todo - {k}, if id in k then gone + {k} else gone, id)
  {
  }

  lemma ProgressDrop<Id(!new), V>(items: seq<(set<Id>, V)>, all: set<set<Id>>, todo: set<set<Id>>,
                                  gone: set<set<Id>>, id: Id, k: set<Id>)
    requires Progress(items, all, todo, gone, id) && k in todo
    ensures Without(Outside(items, gone), k) == Outside(items, gone + {k}) && Lookup(Outside(items, gone), k).Some?
  {
    WithoutOutside(items, gone, k);
    OutsideHas(items, gone, k);
  }

  lemma ProgressEnd<Id(!new), V>(items: seq<(set<Id>, V)>, all: set<set<Id>>, gone: set<set<Id>>, id: Id)
    requires Progress(items, all, {}, gone, id)
    ensures Outside(items, gone) == Select(items, k => id !in k)
    ensures gone != {} <==> exists x :: x in items && id in x.0
  {
    OutsideIsSelect(items, gone, id);
    if k :| k in gone {
      assert id in k;
    }
  }
}
