/** What whole runs of an LRU cache keep: the keys of a smaller cache are those a larger one used
    most recently, and a run of puts keeps the most recently touched keys. */
module RecencyRuns {
  import opened Seqs
  import opened Recency

  // ---- LRU inclusion -------------------------------------------------------------

  /** The operations of the inclusion property: a plain `get` only touches a cache that
      holds the key, so two caches of different size may then disagree on recency. */
  ghost predicate Inserting<K, V>(ops: seq<Op<K, V>>) {
    forall op | op in ops :: op.OpPut? || op.OpGetOrPut? || op.OpDrop?
  }

  lemma TakePrefix<K>(a: seq<K>, b: seq<K>, m: nat, n: nat)
    requires Prefix(a, b) && m <= n
    ensures Prefix(Take(a, m), Take(b, n))
  {
    var ta, tb := Take(a, m), Take(b, n);
    assert |ta| <= |tb|;
    assert ta == tb[..|ta|];
  }

  lemma PrefixCons<K>(k: K, a: seq<K>, b: seq<K>)
    requires Prefix(a, b)
    ensures Prefix([k] + a, [k] + b)
  {
    assert ([k] + b)[..|a| + 1] == [k] + b[..|a|];
  }

  lemma InclusionStep<K, V>(a: seq<K>, b: seq<K>, m: nat, n: nat, op: Op<K, V>)
    requires Prefix(a, b) && m <= n
    requires op.OpPut? || op.OpGetOrPut? || op.OpDrop?
    ensures Prefix(KeysAfter(a, m, op), KeysAfter(b, n, op))
  {
    var k := op.key;
    PrefixRemove(a, b, k);
    if k !in a {
      RemoveKeyAbsent(a, k);
    }
    PrefixCons(k, RemoveKey(a, k), RemoveKey(b, k));
    PrefixCons(k, a, b);
    if k in b {
      TakePrefix([k] + RemoveKey(a, k), [k] + RemoveKey(b, k), m, m + |b| + 1);
      assert k in a ==> KeysAfter(a, m, op) == RemoveKey(a, k) || KeysAfter(a, m, op) == [k] + RemoveKey(a, k);
    } else {
      PrefixMember(a, b);
      TakePrefix([k] + a, [k] + b, m, n);
    }
  }

  lemma {:induction false} RunMaxSize<K, V>(c: Cache<K, V>, ops: seq<Op<K, V>>)
    requires Inserting(ops)
    ensures Run(c, ops).maxSize == c.maxSize
  {
    if ops != [] {
      RunMaxSize(c, ops[..|ops| - 1]);
    }
  }

  /** LRU inclusion: run the same puts and drops on a small and a large cache, and the keys of
      the small one are always the most recent keys of the large one. */
  lemma {:induction false} Inclusion<K, V>(small: Cache<K, V>, large: Cache<K, V>, ops: seq<Op<K, V>>)
    requires small.maxSize <= large.maxSize && Inserting(ops)
    requires Prefix(Keys(small.items), Keys(large.items))
    ensures Prefix(Keys(Run(small, ops).items), Keys(Run(large, ops).items))
    ensures forall k | k in Keys(Run(small, ops).items) :: k in Keys(Run(large, ops).items)
  {
    if ops != [] {
      var first, last := ops[..|ops| - 1], ops[|ops| - 1];
      Inclusion(small, large, first);
      RunMaxSize(small, first);
      RunMaxSize(large, first);
      var a, b := Run(small, first), Run(large, first);
      KeysStep(a, last);
      KeysStep(b, last);
      InclusionStep(Keys(a.items), Keys(b.items), a.maxSize, b.maxSize, last);
    }
  }

  /** With a `get` in the run inclusion fails: the larger cache still holds key 1 and moves it. */
  lemma GetBreaksInclusion()
    ensures var ops := [OpPut(1, 0), OpPut(2, 0), OpGet(1)];
            !Prefix(Keys(Run(Cache([], 1), ops).items), Keys(Run(Cache([], 2), ops).items))
  {
    var ops: seq<Op<int, int>> := [OpPut(1, 0), OpPut(2, 0), OpGet(1)];
    var two, one := ops[..2], ops[..1];
    assert two[..1] == one && one[..0] == [] && two[1] == ops[1] && one[0] == ops[0];
    var s, l: Cache<int, int> := Cache([], 1), Cache([], 2);
    assert Run(s, one) == Cache([(1, 0)], 1) && Run(l, one) == Cache([(1, 0)], 2);
    assert Run(s, two) == Cache([(2, 0)], 1) && Run(l, two) == Cache([(2, 0), (1, 0)], 2);
    KeysStep(Run(s, two), ops[2]);
    KeysStep(Run(l, two), ops[2]);
    assert Keys(Run(s, two).items) == [2] && Keys(Run(l, two).items) == [2, 1];
  }

  lemma PrefixHeads<K>(a: seq<K>, b: seq<K>)
    requires a != [] && b != []
    ensures Prefix(a, b) ==> a[0] == b[0]
  {
  }

  /** Both caches hit on `k`, both miss, or the first one is empty. */
  predicate GetAgrees<K(==)>(a: seq<K>, b: seq<K>, k: K) {
    k in a || k !in b || a == []
  }

  /** A plain get keeps the prefix exactly if both caches hit, both miss, or the small one is empty. */
  lemma GetKeepsPrefixIff<K, V>(a: seq<K>, b: seq<K>, m: nat, n: nat, k: K)
    requires Prefix(a, b)
    ensures var get: Op<K, V> := OpGet(k);
            Prefix(KeysAfter(a, m, get), KeysAfter(b, n, get)) <==> GetAgrees(a, b, k)
  {
    PrefixMember(a, b);
    if k in a {
      PrefixRemove(a, b, k);
      PrefixCons(k, RemoveKey(a, k), RemoveKey(b, k));
    } else if k in b && a != [] {
      assert a[0] in a;
      PrefixHeads(a, [k] + RemoveKey(b, k));
    }
  }

  /** No resize in the run. */
  ghost predicate Fixed<K, V>(ops: seq<Op<K, V>>) {
    forall i | 0 <= i < |ops| :: !ops[i].OpSetMaxSize?
  }

  /** Every plain get of the run finds the two caches in agreement about its key, or the small one
      empty. */
  ghost predicate GetsAgree<K, V>(small: Cache<K, V>, large: Cache<K, V>, ops: seq<Op<K, V>>) {
    forall i | 0 <= i < |ops| && ops[i].OpGet? ::
      GetAgrees(Keys(Run(small, ops[..i]).items), Keys(Run(large, ops[..i]).items), ops[i].key)
  }

  /** The prefix relation between the key lists after the first `i` operations. */
  ghost predicate PrefixAt<K, V>(small: Cache<K, V>, large: Cache<K, V>, ops: seq<Op<K, V>>, i: nat)
    requires i <= |ops|
  {
    Prefix(Keys(Run(small, ops[..i]).items), Keys(Run(large, ops[..i]).items))
  }

  lemma {:induction false} FixedMaxSize<K, V>(c: Cache<K, V>, ops: seq<Op<K, V>>, i: nat)
    requires Fixed(ops) && i <= |ops|
    ensures Run(c, ops[..i]).maxSize == c.maxSize
  {
    if i > 0 {
      assert ops[..i][..i - 1] == ops[..i - 1];
      FixedMaxSize(c, ops, i - 1);
    }
  }

  /** One operation of a run without resizes keeps the prefix, exactly if it is no disagreeing get. */
  lemma PrefixStepIff<K, V>(small: Cache<K, V>, large: Cache<K, V>, ops: seq<Op<K, V>>, i: nat)
    requires small.maxSize <= large.maxSize && Fixed(ops) && i < |ops| && PrefixAt(small, large, ops, i)
    ensures PrefixAt(small, large, ops, i + 1)
       <==> (ops[i].OpGet? ==> GetAgrees(Keys(Run(small, ops[..i]).items), Keys(Run(large, ops[..i]).items), ops[i].key))
  {
    var s, l, op := Run(small, ops[..i]), Run(large, ops[..i]), ops[i];
    assert ops[..i + 1][..i] == ops[..i];
    FixedMaxSize(small, ops, i);
    FixedMaxSize(large, ops, i);
    KeysStep(s, op);
    KeysStep(l, op);
    if op.OpGet? {
      GetKeepsPrefixIff<K, V>(Keys(s.items), Keys(l.items), s.maxSize, l.maxSize, op.key);
    } else {
      InclusionStep(Keys(s.items), Keys(l.items), s.maxSize, l.maxSize, op);
    }
  }

  lemma {:induction false} PrefixUpTo<K, V>(small: Cache<K, V>, large: Cache<K, V>, ops: seq<Op<K, V>>, i: nat)
    requires small.maxSize <= large.maxSize && Fixed(ops) && i <= |ops|
    requires Prefix(Keys(small.items), Keys(large.items)) && GetsAgree(small, large, ops)
    ensures PrefixAt(small, large, ops, i)
  {
    if i == 0 {
      assert ops[..0] == [];
    } else {
      PrefixUpTo(small, large, ops, i - 1);
      PrefixStepIff(small, large, ops, i - 1);
    }
  }

  /** Inclusion with plain gets: the keys of the small cache stay the most recent keys of the large
      one all along, exactly if no get finds the two in disagreement. */
  lemma InclusionIff<K, V>(small: Cache<K, V>, large: Cache<K, V>, ops: seq<Op<K, V>>)
    requires small.maxSize <= large.maxSize && Fixed(ops) && Prefix(Keys(small.items), Keys(large.items))
    ensures (forall i | 0 <= i <= |ops| :: PrefixAt(small, large, ops, i)) <==> GetsAgree(small, large, ops)
  {
    if GetsAgree(small, large, ops) {
      forall i | 0 <= i <= |ops|
        ensures PrefixAt(small, large, ops, i)
      {
        PrefixUpTo(small, large, ops, i);
      }
    } else {
      var i :| 0 <= i < |ops| && ops[i].OpGet?
               && !GetAgrees(Keys(Run(small, ops[..i]).items), Keys(Run(large, ops[..i]).items), ops[i].key);
      if PrefixAt(small, large, ops, i) {
        PrefixStepIff(small, large, ops, i);
      }
    }
  }

  // ---- What a full run keeps ------------------------------------------------------

  ghost predicate Puts<K, V>(ops: seq<Op<K, V>>) {
    forall op | op in ops :: op.OpPut? || op.OpGetOrPut?
  }

  /** The distinct keys of a run, most recently touched first: the reference for LRU order. */
  function RecentKeys<K(==), V>(ops: seq<Op<K, V>>): seq<K>
    requires Puts(ops)
  {
    if ops == [] then []
    else
      var k := ops[|ops| - 1].key;
      [k] + RemoveKey(RecentKeys(ops[..|ops| - 1]), k)
  }

  lemma RemoveTake<K>(keys: seq<K>, n: nat, k: K)
    requires k in Take(keys, n) && Distinct(keys)
    ensures RemoveKey(Take(keys, n), k) == Take(RemoveKey(keys, k), n - 1)
  {
    var head, rest := Take(keys, n), keys[|Take(keys, n)|..];
    assert keys == head + rest;
    assert k !in rest;
    RemoveKeyAppend(head, rest, k);
    RemoveKeyAbsent(rest, k);
    assert Distinct(head);
    RemoveKeyDistinct(head, k);
  }

  lemma RemoveBeyondTake<K>(keys: seq<K>, n: nat, k: K)
    requires k !in Take(keys, n)
    ensures Take([k] + Take(keys, n), n) == Take([k] + RemoveKey(keys, k), n)
  {
    var head, rest := Take(keys, n), keys[|Take(keys, n)|..];
    assert keys == head + rest;
    RemoveKeyAppend(head, rest, k);
    RemoveKeyAbsent(head, k);
  }

  lemma DistinctCons<K>(k: K, s: seq<K>)
    requires Distinct(s) && k !in s
    ensures Distinct([k] + s)
  {
  }

  lemma TakeCons<K>(k: K, s: seq<K>, n: nat)
    requires n > 0
    ensures Take([k] + s, n) == [k] + Take(s, n - 1)
  {
  }

  /** One more put on the most recent keys. */
  lemma PutOnRecent<K, V>(recent: seq<K>, maxSize: nat, op: Op<K, V>)
    requires Distinct(recent) && (op.OpPut? || op.OpGetOrPut?)
    ensures var next := [op.key] + RemoveKey(recent, op.key);
            Distinct(next) && KeysAfter(Take(recent, maxSize), maxSize, op) == Take(next, maxSize)
  {
    var k, rest := op.key, RemoveKey(recent, op.key);
    RemoveKeyDistinct(recent, k);
    DistinctCons(k, rest);
    if k in Take(recent, maxSize) {
      RemoveTake(recent, maxSize, k);
      TakeCons(k, rest, maxSize);
    } else {
      RemoveBeyondTake(recent, maxSize, k);
    }
  }

  /** A run of puts at a fixed capacity, from the empty cache, keeps exactly the most recently
      touched distinct keys, in that order. */
  lemma {:induction false} KeepsMostRecent<K, V>(maxSize: nat, ops: seq<Op<K, V>>)
    requires Puts(ops)
    ensures Distinct(RecentKeys(ops))
    ensures Keys(Run(Cache([], maxSize), ops).items) == Take(RecentKeys(ops), maxSize)
  {
    if ops != [] {
      var first, last := ops[..|ops| - 1], ops[|ops| - 1];
      assert Puts(first) && last in ops;
      KeepsMostRecent(maxSize, first);
      RunMaxSize(Cache([], maxSize), first);
      KeysStep(Run(Cache([], maxSize), first), last);
      PutOnRecent(RecentKeys(first), maxSize, last);
    }
  }
}
