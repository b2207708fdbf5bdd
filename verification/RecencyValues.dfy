/** The values of an LRU cache over its operations and runs, and how long a key stays. */
module RecencyValues {
  import opened Seqs
  import opened Recency

  // ---- One operation ---------------------------------------------------------

  lemma {:induction false} LookupWithout<K, V>(items: seq<(K, V)>, key: K, j: K)
    ensures Lookup(Without(items, key), j) == if j == key then None else Lookup(items, j)
  {
    if items != [] {
      LookupWithout(items[1..], key, j);
      if items[0].0 != key {
        LookupCons(items[0], Without(items[1..], key), j);
      }
    }
  }

  lemma LookupCons<K, V>(x: (K, V), items: seq<(K, V)>, j: K)
    ensures Lookup([x] + items, j) == if j == x.0 then Some(x.1) else Lookup(items, j)
  {
    assert ([x] + items)[1..] == items;
  }

  /** A cut from the back leaves a value or takes it away. */
  lemma {:induction false} LookupTake<K, V>(items: seq<(K, V)>, n: nat, j: K)
    ensures Lookup(Take(items, n), j) == if j in Keys(Take(items, n)) then Lookup(items, j) else None
  {
    if items != [] && n > 0 {
      LookupTake(items[1..], n - 1, j);
      TakeHead(items, n);
      LookupCons(items[0], Take(items[1..], n - 1), j);
      KeysCons(items[0].0, items[0].1, Take(items[1..], n - 1));
    }
  }

  lemma TakeHead<T>(s: seq<T>, n: nat)
    requires s != [] && n > 0
    ensures Take(s, n) == [s[0]] + Take(s[1..], n - 1)
  {
  }

  /** The key and value an operation writes: a put always, a getOrPut only on a miss. */
  function Written<K(==), V>(c: Cache<K, V>, op: Op<K, V>): Option<(K, V)> {
    match op
    case OpPut(k, v) => Some((k, v))
    case OpGetOrPut(k, v) => if k in Keys(c.items) then None else Some((k, v))
    case _ => None
  }

  /** The value under `j` after an operation: the one just written for `j`, or else the one before,
      as long as the key is there. */
  lemma StepValue<K, V>(c: Cache<K, V>, op: Op<K, V>, j: K)
    ensures Lookup(Step(c, op).items, j) ==
            if j !in Keys(Step(c, op).items) then None
            else match Written(c, op)
                 case Some(w) => if w.0 == j then Some(w.1) else Lookup(c.items, j)
                 case None => Lookup(c.items, j)
  {
    var items := c.items;
    if op.OpDrop? {
      LookupWithout(items, op.key, j);
    } else if !op.OpSetMaxSize? && op.key in Keys(items) {
      var v := Lookup(items, op.key).value;
      LookupWithout(items, op.key, j);
      LookupCons((op.key, v), Without(items, op.key), j);
      if op.OpPut? {
        LookupCons((op.key, op.value), Without(items, op.key), j);
      }
    } else if op.OpPut? || op.OpGetOrPut? {
      LookupTake([(op.key, op.value)] + items, c.maxSize, j);
      LookupCons((op.key, op.value), items, j);
    }
  }

  /** A hit of getOrPut, and every get, leaves all values alone. */
  lemma ReadKeepsValues<K, V>(c: Cache<K, V>, op: Op<K, V>, j: K)
    requires op.OpGet? || (op.OpGetOrPut? && op.key in Keys(c.items))
    ensures Lookup(Step(c, op).items, j) == Lookup(c.items, j)
  {
    StepValue(c, op, j);
    KeysStep(c, op);
  }

  // ---- Runs ------------------------------------------------------------------

  /** The cache after the first `m` operations. */
  function After<K(==), V>(c: Cache<K, V>, ops: seq<Op<K, V>>, m: nat): Cache<K, V>
    requires m <= |ops|
  {
    Run(c, ops[..m])
  }

  lemma AfterSnoc<K, V>(c: Cache<K, V>, ops: seq<Op<K, V>>, m: nat)
    requires m < |ops|
    ensures After(c, ops, m + 1) == Step(After(c, ops, m), ops[m])
  {
    assert ops[..m + 1][..m] == ops[..m];
  }

  /** Operation `m` writes under `k`. */
  predicate Writes<K(==), V>(c: Cache<K, V>, ops: seq<Op<K, V>>, m: nat, k: K)
    requires m < |ops|
  {
    Written(After(c, ops, m), ops[m]).Some? && Written(After(c, ops, m), ops[m]).value.0 == k
  }

  predicate Present<K(==), V>(c: Cache<K, V>, ops: seq<Op<K, V>>, m: nat, k: K)
    requires m <= |ops|
  {
    k in Keys(After(c, ops, m).items)
  }

  /** Within the first `n` operations, operation `i` wrote `v` under `k`, and after it `k` was never
      written, dropped or evicted. */
  ghost predicate LastWrite<K, V>(c: Cache<K, V>, ops: seq<Op<K, V>>, n: nat, i: nat, k: K, v: V) {
    && i < n <= |ops| && Written(After(c, ops, i), ops[i]) == Some((k, v))
    && (forall m | i < m <= n :: Present(c, ops, m, k))
    && (forall m | i < m < n :: !Writes(c, ops, m, k))
  }

  lemma {:induction false} LastWriteHolds<K, V>(c: Cache<K, V>, ops: seq<Op<K, V>>, n: nat, i: nat, k: K, v: V)
    requires LastWrite(c, ops, n, i, k, v)
    ensures Lookup(After(c, ops, n).items, k) == Some(v)
    decreases n
  {
    if n > i + 1 {
      LastWriteHolds(c, ops, n - 1, i, k, v);
      assert !Writes(c, ops, n - 1, k);
    }
    assert Present(c, ops, n, k);
    AfterSnoc(c, ops, n - 1);
    StepValue(After(c, ops, n - 1), ops[n - 1], k);
  }

  lemma JustWritten<K, V>(c: Cache<K, V>, ops: seq<Op<K, V>>, i: nat, k: K, v: V)
    requires i < |ops| && Written(After(c, ops, i), ops[i]) == Some((k, v)) && Present(c, ops, i + 1, k)
    ensures LastWrite(c, ops, i + 1, i, k, v)
  {
  }

  lemma StillLast<K, V>(c: Cache<K, V>, ops: seq<Op<K, V>>, n: nat, i: nat, k: K, v: V)
    requires LastWrite(c, ops, n, i, k, v) && n < |ops|
    requires Present(c, ops, n + 1, k) && !Writes(c, ops, n, k)
    ensures LastWrite(c, ops, n + 1, i, k, v)
  {
  }

  lemma {:induction false} FindWrite<K, V>(c: Cache<K, V>, ops: seq<Op<K, V>>, n: nat, k: K) returns (i: nat)
    requires n <= |ops| && c.items == []
    ensures var r := Lookup(After(c, ops, n).items, k); r.Some? ==> LastWrite(c, ops, n, i, k, r.value)
    decreases n
  {
    i := 0;
    if n > 0 {
      AfterSnoc(c, ops, n - 1);
      StepValue(After(c, ops, n - 1), ops[n - 1], k);
      var r := Lookup(After(c, ops, n).items, k);
      if r.None? {
      } else if Writes(c, ops, n - 1, k) {
        i := n - 1;
        JustWritten(c, ops, i, k, r.value);
      } else {
        i := FindWrite(c, ops, n - 1, k);
        StillLast(c, ops, n - 1, i, k, r.value);
      }
    }
  }

  /** In every run from the empty cache: the value under a key is the one written last, by a put or
      by the getOrPut that inserted the key, since its last removal. */
  lemma RunValue<K, V>(size: nat, ops: seq<Op<K, V>>, k: K, v: V)
    ensures Lookup(Run(Cache([], size), ops).items, k) == Some(v)
       <==> exists i :: LastWrite(Cache([], size), ops, |ops|, i, k, v)
  {
    var c: Cache<K, V> := Cache([], size);
    assert ops[..|ops|] == ops;
    if Lookup(Run(c, ops).items, k) == Some(v) {
      var i := FindWrite(c, ops, |ops|, k);
    }
    if i: nat :| LastWrite(c, ops, |ops|, i, k, v) {
      LastWriteHolds(c, ops, |ops|, i, k, v);
    }
  }

  // ---- How long a key stays --------------------------------------------------

  /** Only keys of `others` are more recent than `k`. */
  ghost predicate Near<K>(keys: seq<K>, k: K, others: set<K>) {
    Distinct(keys) && exists i :: 0 <= i < |keys| && keys[i] == k && forall j | 0 <= j < i :: keys[j] in others
  }

  lemma {:induction false} DistinctWithin<K>(keys: seq<K>, n: nat, others: set<K>)
    requires Distinct(keys) && n <= |keys| && forall j | 0 <= j < n :: keys[j] in others
    ensures n <= |others|
    decreases n
  {
    if n > 0 {
      DistinctWithin(keys, n - 1, others - {keys[n - 1]});
    }
  }

  lemma NearMore<K>(keys: seq<K>, k: K, others: set<K>, more: set<K>)
    requires Near(keys, k, others) && others <= more
    ensures Near(keys, k, more)
  {
  }

  /** Putting `k` itself in front. */
  lemma NearFront<K>(keys: seq<K>, k: K)
    requires Distinct(keys)
    ensures Near([k] + RemoveKey(keys, k), k, {})
  {
    RemoveKeyDistinct(keys, k);
    assert ([k] + RemoveKey(keys, k))[0] == k;
  }

  /** Taking another key out. */
  lemma {:induction false} NearRemove<K>(keys: seq<K>, k: K, others: set<K>, x: K)
    requires Near(keys, k, others) && x != k
    ensures Near(RemoveKey(keys, x), k, others)
  {
    RemoveKeyDistinct(keys, x);
    var i :| 0 <= i < |keys| && keys[i] == k && forall j | 0 <= j < i :: keys[j] in others;
    var a, b := keys[..i], keys[i + 1..];
    assert keys == a + ([k] + b);
    RemoveKeyAppend(a, [k] + b, x);
    var ra, rb := RemoveKey(a, x), RemoveKey([k] + b, x);
    assert ([k] + b)[1..] == b && rb == [k] + RemoveKey(b, x);
    assert forall y | y in a :: y in others;
    assert forall j | 0 <= j < |ra| :: ra[j] in ra;
    assert (ra + rb)[|ra|] == k;
  }

  lemma NearCons<K>(keys: seq<K>, k: K, others: set<K>, x: K)
    requires Near(keys, k, others) && x != k && x !in keys
    ensures Near([x] + keys, k, others + {x})
  {
    var i :| 0 <= i < |keys| && keys[i] == k && forall j | 0 <= j < i :: keys[j] in others;
    var r := [x] + keys;
    assert r[i + 1] == k && forall j | 0 <= j < i + 1 :: r[j] in others + {x};
  }

  lemma NearTake<K>(keys: seq<K>, k: K, others: set<K>, n: nat)
    requires Near(keys, k, others) && |others| < n
    ensures Near(Take(keys, n), k, others)
  {
    var i :| 0 <= i < |keys| && keys[i] == k && forall j | 0 <= j < i :: keys[j] in others;
    DistinctWithin(keys, i, others);
    assert Take(keys, n)[i] == k;
  }

  /** The key an operation brings in or to the front. */
  function Touched<K(==), V>(op: Op<K, V>): set<K> {
    match op
    case OpGet(k) => {k}
    case OpPut(k, _) => {k}
    case OpGetOrPut(k, _) => {k}
    case _ => {}
  }

  lemma StepStaysNear<K, V>(c: Cache<K, V>, op: Op<K, V>, k: K, others: set<K>)
    requires Near(Keys(c.items), k, others) && op != OpDrop(k)
    requires |others + (Touched(op) - {k})| < c.maxSize
    ensures Near(Keys(Step(c, op).items), k, others + (Touched(op) - {k}))
  {
    var keys, more := Keys(c.items), others + (Touched(op) - {k});
    KeysStep(c, op);
    NearMore(keys, k, others, more);
    if op.OpSetMaxSize? {
    } else if op.key == k {
      NearFront(keys, k);
      NearMore([k] + RemoveKey(keys, k), k, {}, more);
    } else {
      var x := op.key;
      NearRemove(keys, k, others, x);
      NearMore(RemoveKey(keys, x), k, others, more);
      if !op.OpDrop? {
        assert more == others + {x};
        NearCons(RemoveKey(keys, x), k, others, x);
        if x !in keys {
          NearCons(keys, k, others, x);
          NearTake([x] + keys, k, more, c.maxSize);
        }
      }
    }
  }

  /** The keys other than `k` that the first `n` operations touch. */
  function OthersTouched<K(==), V>(ops: seq<Op<K, V>>, n: nat, k: K): set<K>
    requires n <= |ops|
  {
    if n == 0 then {} else OthersTouched(ops, n - 1, k) + (Touched(ops[n - 1]) - {k})
  }

  /** Operation `m` does not drop `k`, and the cache has room for `k` and the other keys touched. */
  ghost predicate RoomAt<K, V>(c: Cache<K, V>, ops: seq<Op<K, V>>, m: nat, k: K)
    requires m < |ops|
  {
    ops[m] != OpDrop(k) && |OthersTouched(ops, m + 1, k)| < After(c, ops, m).maxSize
  }

  /** Nothing in the run drops `k`, and the capacity stays above the number of other keys touched. */
  ghost predicate Roomy<K, V>(c: Cache<K, V>, ops: seq<Op<K, V>>, k: K) {
    forall m | 0 <= m < |ops| :: RoomAt(c, ops, m, k)
  }

  lemma NearNext<K, V>(c: Cache<K, V>, ops: seq<Op<K, V>>, m: nat, k: K)
    requires m < |ops| && RoomAt(c, ops, m, k) && Near(Keys(After(c, ops, m).items), k, OthersTouched(ops, m, k))
    ensures Near(Keys(After(c, ops, m + 1).items), k, OthersTouched(ops, m + 1, k))
  {
    AfterSnoc(c, ops, m);
    StepStaysNear(After(c, ops, m), ops[m], k, OthersTouched(ops, m, k));
  }

  ghost predicate NearAt<K, V>(c: Cache<K, V>, ops: seq<Op<K, V>>, m: nat, k: K)
    requires m <= |ops|
  {
    Near(Keys(After(c, ops, m).items), k, OthersTouched(ops, m, k))
  }

  lemma {:induction false} StaysNear<K, V>(c: Cache<K, V>, ops: seq<Op<K, V>>, n: nat, k: K)
    requires n <= |ops| && NearAt(c, ops, 0, k) && Roomy(c, ops, k)
    ensures NearAt(c, ops, n, k)
  {
    if n > 0 {
      StaysNear(c, ops, n - 1, k);
      assert RoomAt(c, ops, n - 1, k);
      NearNext(c, ops, n - 1, k);
    }
  }

  /** A key at the front survives, until it is dropped or as many other keys were touched as the
      cache has room for. */
  lemma Survives<K, V>(c: Cache<K, V>, ops: seq<Op<K, V>>, k: K)
    requires c.items != [] && Keys(c.items)[0] == k && Distinct(Keys(c.items)) && Roomy(c, ops, k)
    ensures k in Keys(Run(c, ops).items)
  {
    assert ops[..0] == [] && ops[..|ops|] == ops;
    assert NearAt(c, ops, 0, k);
    StaysNear(c, ops, |ops|, k);
  }
}
