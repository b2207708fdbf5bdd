/** What an LRU cache is: a list of key-value pairs, most recently used first, with a
    capacity that is enforced when a new key comes in.  `LruCache` implements it. */
module Recency {
  import opened Seqs

  /** `items` runs from the most to the least recently used entry. */
  datatype Cache<K, V> = Cache(items: seq<(K, V)>, maxSize: nat)

  function Keys<K, V>(items: seq<(K, V)>): (r: seq<K>)
    ensures |r| == |items| && forall i | 0 <= i < |r| :: r[i] == items[i].0
  {
    if items == [] then [] else [items[0].0] + Keys(items[1..])
  }

  ghost predicate Unique<K, V>(items: seq<(K, V)>) {
    forall i, j :: 0 <= i < j < |items| ==> items[i].0 != items[j].0
  }

  function Lookup<K(==), V>(items: seq<(K, V)>, key: K): (r: Option<V>)
    ensures r.Some? <==> key in Keys(items)
  {
    if items == [] then None
    else if items[0].0 == key then Some(items[0].1)
    else Lookup(items[1..], key)
  }

  function Without<K(==), V>(items: seq<(K, V)>, key: K): (r: seq<(K, V)>)
    ensures |r| <= |items|
  {
    if items == [] then []
    else if items[0].0 == key then Without(items[1..], key)
    else [items[0]] + Without(items[1..], key)
  }

  /** The entries whose key passes `keep`, in their order. */
  function Select<K, V>(items: seq<(K, V)>, keep: K -> bool): (r: seq<(K, V)>)
    ensures forall x | x in r :: x in items && keep(x.0)
    ensures forall x | x in items && keep(x.0) :: x in r
  {
    if items == [] then []
    else (if keep(items[0].0) then [items[0]] else []) + Select(items[1..], keep)
  }

  function Touch<K(==), V>(c: Cache<K, V>, key: K, value: V): Cache<K, V> {
    c.(items := [(key, value)] + Without(c.items, key))
  }

  function PutMissing<K, V>(c: Cache<K, V>, key: K, value: V): Cache<K, V> {
    c.(items := Take([(key, value)] + c.items, c.maxSize))
  }

  function Get<K(==), V>(c: Cache<K, V>, key: K): Cache<K, V> {
    match Lookup(c.items, key)
    case Some(v) => Touch(c, key, v)
    case None => c
  }

  function Put<K(==), V>(c: Cache<K, V>, key: K, value: V): Cache<K, V> {
    if Lookup(c.items, key).Some? then Touch(c, key, value) else PutMissing(c, key, value)
  }

  function GetOrPut<K(==), V>(c: Cache<K, V>, key: K, value: V): Cache<K, V> {
    match Lookup(c.items, key)
    case Some(v) => Touch(c, key, v)
    case None => PutMissing(c, key, value)
  }

  function Drop<K(==), V>(c: Cache<K, V>, key: K): Cache<K, V> {
    c.(items := Without(c.items, key))
  }

  function SetMaxSize<K, V>(c: Cache<K, V>, n: nat): Cache<K, V> {
    c.(maxSize := n)
  }

  // ---- Runs ------------------------------------------------------------------

  datatype Op<K, V> =
    | OpGet(key: K)
    | OpPut(key: K, value: V)
    | OpGetOrPut(key: K, value: V)
    | OpDrop(key: K)
    | OpSetMaxSize(n: nat)

  function Step<K(==), V>(c: Cache<K, V>, op: Op<K, V>): Cache<K, V> {
    match op
    case OpGet(k) => Get(c, k)
    case OpPut(k, v) => Put(c, k, v)
    case OpGetOrPut(k, v) => GetOrPut(c, k, v)
    case OpDrop(k) => Drop(c, k)
    case OpSetMaxSize(n) => SetMaxSize(c, n)
  }

  /** The cache after a run of operations, oldest first. */
  function Run<K(==), V>(c: Cache<K, V>, ops: seq<Op<K, V>>): Cache<K, V> {
    if ops == [] then c else Step(Run(c, ops[..|ops| - 1]), ops[|ops| - 1])
  }

  // ---- Removing a key ----------------------------------------------------------

  function RemoveKey<K(==)>(keys: seq<K>, key: K): (r: seq<K>)
    ensures |r| <= |keys|
    ensures forall k | k in r :: k in keys && k != key
    ensures forall k | k in keys :: k == key || k in r
  {
    if keys == [] then []
    else if keys[0] == key then RemoveKey(keys[1..], key)
    else [keys[0]] + RemoveKey(keys[1..], key)
  }

  lemma {:induction false} KeysWithout<K, V>(items: seq<(K, V)>, key: K)
    ensures Keys(Without(items, key)) == RemoveKey(Keys(items), key)
  {
    if items != [] {
      KeysWithout(items[1..], key);
    }
  }

  /** `Select` on bare keys. */
  function Where<K>(keys: seq<K>, keep: K -> bool): (r: seq<K>)
    ensures forall k | k in r :: k in keys && keep(k)
  {
    if keys == [] then [] else if keep(keys[0]) then [keys[0]] + Where(keys[1..], keep) else Where(keys[1..], keep)
  }

  lemma {:induction false} KeysSelect<K, V>(items: seq<(K, V)>, keep: K -> bool)
    ensures Keys(Select(items, keep)) == Where(Keys(items), keep)
  {
    if items != [] {
      var rest := Select(items[1..], keep);
      KeysSelect(items[1..], keep);
      KeysCons(items[0].0, items[0].1, rest);
      assert Keys(items)[1..] == Keys(items[1..]) && [] + rest == rest;
    }
  }

  lemma {:induction false} WhereDistinct<K>(keys: seq<K>, keep: K -> bool)
    requires Distinct(keys)
    ensures Distinct(Where(keys, keep))
  {
    if keys != [] {
      WhereDistinct(keys[1..], keep);
      assert keys[0] !in keys[1..];
    }
  }

  lemma {:induction false} RemoveKeyAbsent<K>(keys: seq<K>, key: K)
    requires key !in keys
    ensures RemoveKey(keys, key) == keys
  {
    if keys != [] {
      RemoveKeyAbsent(keys[1..], key);
    }
  }

  lemma {:induction false} RemoveKeyAppend<K>(a: seq<K>, b: seq<K>, key: K)
    ensures RemoveKey(a + b, key) == RemoveKey(a, key) + RemoveKey(b, key)
  {
    if a == [] {
      assert a + b == b;
    } else {
      assert (a + b)[1..] == a[1..] + b;
      RemoveKeyAppend(a[1..], b, key);
    }
  }

  /** A prefix of a key list holds only keys of that list. */
  lemma PrefixMember<K>(a: seq<K>, b: seq<K>)
    requires Prefix(a, b)
    ensures forall k | k in a :: k in b
  {
  }

  lemma PrefixRemove<K>(a: seq<K>, b: seq<K>, key: K)
    requires Prefix(a, b)
    ensures Prefix(RemoveKey(a, key), RemoveKey(b, key))
  {
    assert b == a + b[|a|..];
    RemoveKeyAppend(a, b[|a|..], key);
  }

  // ---- Invariants of one operation ----------------------------------------------

  lemma {:induction false} RemoveKeyDistinct<K>(keys: seq<K>, key: K)
    requires Distinct(keys)
    ensures Distinct(RemoveKey(keys, key))
    ensures key in keys ==> |RemoveKey(keys, key)| == |keys| - 1
  {
    if keys != [] {
      assert keys == [keys[0]] + keys[1..];
      RemoveKeyDistinct(keys[1..], key);
      assert keys[0] !in keys[1..];
      if keys[0] == key {
        RemoveKeyAbsent(keys[1..], key);
      } else {
        var rest := RemoveKey(keys[1..], key);
        assert keys[0] !in rest;
        assert RemoveKey(keys, key) == [keys[0]] + rest;
      }
    }
  }

  lemma KeysTake<K, V>(items: seq<(K, V)>, n: nat)
    ensures Keys(Take(items, n)) == Take(Keys(items), n)
  {
  }

  lemma KeysCons<K, V>(key: K, value: V, items: seq<(K, V)>)
    ensures Keys([(key, value)] + items) == [key] + Keys(items)
  {
  }

  /** The key list after an operation, from the key list before it.  A hit moves the key to
      the front; a new key evicts from the back only, and only down to the capacity. */
  function KeysAfter<K(==), V>(keys: seq<K>, maxSize: nat, op: Op<K, V>): seq<K> {
    match op
    case OpGet(k) => if k in keys then [k] + RemoveKey(keys, k) else keys
    case OpPut(k, _) => if k in keys then [k] + RemoveKey(keys, k) else Take([k] + keys, maxSize)
    case OpGetOrPut(k, _) => if k in keys then [k] + RemoveKey(keys, k) else Take([k] + keys, maxSize)
    case OpDrop(k) => RemoveKey(keys, k)
    case OpSetMaxSize(_) => keys
  }

  lemma KeysStep<K, V>(c: Cache<K, V>, op: Op<K, V>)
    ensures Keys(Step(c, op).items) == KeysAfter(Keys(c.items), c.maxSize, op)
  {
    if !op.OpSetMaxSize? {
      KeysWithout(c.items, op.key);
      match Lookup(c.items, op.key) {
        case Some(v) => KeysCons(op.key, v, Without(c.items, op.key));
        case None =>
      }
      if op.OpPut? || op.OpGetOrPut? {
        KeysCons(op.key, op.value, Without(c.items, op.key));
        KeysCons(op.key, op.value, c.items);
        KeysTake([(op.key, op.value)] + c.items, c.maxSize);
      }
    }
  }

  lemma KeysAfterDistinct<K, V>(keys: seq<K>, maxSize: nat, op: Op<K, V>)
    requires Distinct(keys)
    ensures Distinct(KeysAfter(keys, maxSize, op))
    ensures (op.OpPut? || op.OpGetOrPut?) && op.key !in keys ==> |KeysAfter(keys, maxSize, op)| <= maxSize
  {
    if !op.OpSetMaxSize? {
      RemoveKeyDistinct(keys, op.key);
    }
  }

  /** Every run keeps the keys distinct, and every insertion of a new key leaves the size
      within the capacity. */
  lemma {:induction false} RunKeepsUnique<K, V>(c: Cache<K, V>, ops: seq<Op<K, V>>)
    requires Distinct(Keys(c.items))
    ensures Distinct(Keys(Run(c, ops).items))
    ensures ops != [] && (ops[|ops| - 1].OpPut? || ops[|ops| - 1].OpGetOrPut?)
            && ops[|ops| - 1].key !in Keys(Run(c, ops[..|ops| - 1]).items)
            ==> |Run(c, ops).items| <= Run(c, ops).maxSize
  {
    if ops != [] {
      var before, op := Run(c, ops[..|ops| - 1]), ops[|ops| - 1];
      RunKeepsUnique(c, ops[..|ops| - 1]);
      KeysStep(before, op);
      KeysAfterDistinct(Keys(before.items), before.maxSize, op);
    }
  }
}
