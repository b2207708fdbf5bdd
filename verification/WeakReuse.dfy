/** Sequential runs of the `shared_ptr` variant of `ConcurrentCache`
    (src/tools/concurrent_cache.h): an LRU cache over a store of weak pointers.  A value stays
    alive as long as the cache or a client holds a strong reference to it. */
module WeakReuse {
  import opened Seqs
  import opened Recency
  import RecencyValues

  /** `held` are the strong references of the clients, with the key they were got for. */
  datatype Store<K(==), V(==)> = Store(lru: Cache<K, V>, weak: map<K, V>, held: set<(K, V)>)

  datatype Reply<V> = Served(v: V, ran: bool) | Threw

  /** Whether `weak_ptr::lock` finds the value. */
  ghost predicate Alive<K, V>(held: set<(K, V)>, items: seq<(K, V)>, v: V) {
    (exists x :: x in held && x.1 == v) || (exists x :: x in items && x.1 == v)
  }

  /** The entries that survive the insertion of a placeholder for a new key. */
  function Survivors<K, V>(c: Cache<K, V>): seq<(K, V)> {
    if c.maxSize == 0 then [] else Take(c.items, c.maxSize - 1)
  }

  /** `getOrPut`; `f` is what the factory would do, None for throwing.  The placeholder goes into
      the cache, and others out of it, before the weak store is asked. */
  ghost function Access<K, V>(s: Store<K, V>, k: K, f: Option<V>): (Store<K, V>, Reply<V>) {
    match Lookup(s.lru.items, k)
    case Some(v) => (s.(lru := Touch(s.lru, k, v), held := s.held + {(k, v)}), Served(v, false))
    case None =>
      if k in s.weak && Alive(s.held, Survivors(s.lru), s.weak[k]) then
        (s.(lru := PutMissing(s.lru, k, s.weak[k]), held := s.held + {(k, s.weak[k])}), Served(s.weak[k], false))
      else
        match f
        case Some(v) => (Store(PutMissing(s.lru, k, v), s.weak[k := v], s.held + {(k, v)}), Served(v, true))
        case None => (Store(s.lru.(items := Survivors(s.lru)), s.weak - {k}, s.held), Threw)
  }

  datatype Op<!K, V> =
    | Call(k: K, f: Option<V>)
    | DropKeys(keep: K -> bool)     // drop of one key, or of every key set with an id
    | Resize(n: nat)
    | Release(k: K, v: V)           // a client lets go

  ghost function Step<K, V>(s: Store<K, V>, op: Op<K, V>): Store<K, V> {
    match op
    case Call(k, f) => Access(s, k, f).0
    case DropKeys(keep) => s.(lru := s.lru.(items := Select(s.lru.items, keep)))
    case Resize(n) => s.(lru := SetMaxSize(s.lru, n))
    case Release(k, v) => s.(held := s.held - {(k, v)})
  }

  /** Factories make new objects. */
  ghost predicate Legal<K, V>(s: Store<K, V>, op: Op<K, V>) {
    op.Call? && op.f.Some? ==> op.f.value !in s.weak.Values
  }

  ghost predicate LegalRun<K, V>(s: Store<K, V>, ops: seq<Op<K, V>>)
    decreases |ops|
  {
    ops == [] || (Legal(s, ops[0]) && LegalRun(Step(s, ops[0]), ops[1..]))
  }

  ghost function Run<K, V>(s: Store<K, V>, ops: seq<Op<K, V>>): Store<K, V>
    decreases |ops|
  {
    if ops == [] then s else Run(Step(s, ops[0]), ops[1..])
  }

  /** Every live value is the one the weak store remembers for its key. */
  ghost predicate Inv<K, V>(s: Store<K, V>) {
    && (forall x | x in s.lru.items :: x.0 in s.weak && s.weak[x.0] == x.1)
    && (forall x | x in s.held :: x.0 in s.weak && s.weak[x.0] == x.1)
    && (forall k, l | k in s.weak && l in s.weak && s.weak[k] == s.weak[l] :: k == l)
  }

  lemma SurvivorsIn<K, V>(c: Cache<K, V>)
    ensures forall x | x in Survivors(c) :: x in c.items
  {
  }

  lemma {:induction false} LookupPair<K, V>(items: seq<(K, V)>, k: K)
    ensures Lookup(items, k).Some? ==> (k, Lookup(items, k).value) in items
    ensures Lookup(items, k).None? ==> forall x | x in items :: x.0 != k
    ensures forall x | x in Without(items, k) :: x in items
  {
    if items != [] {
      assert items == [items[0]] + items[1..];
      LookupPair(items[1..], k);
    }
  }

  /** The factory runs, or throws, only for a key none of whose values is alive. */
  lemma DeadBeforeRun<K, V>(s: Store<K, V>, k: K)
    requires Inv(s) && Lookup(s.lru.items, k) == None
    requires !(k in s.weak && Alive(s.held, Survivors(s.lru), s.weak[k]))
    ensures forall x | x in s.held :: x.0 != k
    ensures forall x | x in Survivors(s.lru) :: x.0 != k
  {
    LookupPair(s.lru.items, k);
    SurvivorsIn(s.lru);
  }

  lemma AccessInv<K, V>(s: Store<K, V>, k: K, f: Option<V>)
    requires Inv(s) && Legal(s, Call(k, f))
    ensures Inv(Access(s, k, f).0)
  {
    LookupPair(s.lru.items, k);
    SurvivorsIn(s.lru);
    if Lookup(s.lru.items, k) == None && !(k in s.weak && Alive(s.held, Survivors(s.lru), s.weak[k])) {
      DeadBeforeRun(s, k);
      if f.Some? {
        var lru := PutMissing(s.lru, k, f.value);
        assert forall x | x in lru.items :: x in s.lru.items || x == (k, f.value);
        assert forall l | l in s.weak :: s.weak[l] in s.weak.Values;
      }
    }
  }

  lemma {:induction false} RunInv<K, V>(s: Store<K, V>, ops: seq<Op<K, V>>)
    requires Inv(s) && LegalRun(s, ops)
    ensures Inv(Run(s, ops))
    decreases |ops|
  {
    if ops != [] {
      if ops[0].Call? {
        AccessInv(s, ops[0].k, ops[0].f);
      }
      RunInv(Step(s, ops[0]), ops[1..]);
    }
  }

  function Empty<K, V(==)>(maxSize: nat): Store<K, V> {
    Store(Cache([], maxSize), map[], {})
  }

  /** After any run: while a client holds the value it got for a key, `getOrPut` returns that
      same value and does not run the factory, whatever was evicted, dropped or resized. */
  lemma HeldValueIsReused<K, V>(maxSize: nat, ops: seq<Op<K, V>>, k: K, v: V, f: Option<V>)
    requires LegalRun(Empty(maxSize), ops) && (k, v) in Run(Empty(maxSize), ops).held
    ensures Access(Run(Empty(maxSize), ops), k, f).1 == Served(v, false)
  {
    RunInv(Empty<K, V>(maxSize), ops);
    LookupPair(Run(Empty<K, V>(maxSize), ops).lru.items, k);
  }

  /** After any run, for a key that is not in the cache (it was dropped, say): the call is served
      without the factory if and only if some client still holds a value for it. */
  lemma FactoryRunsIffUnreferenced<K, V>(maxSize: nat, ops: seq<Op<K, V>>, k: K, f: Option<V>)
    requires LegalRun(Empty(maxSize), ops) && Lookup(Run(Empty(maxSize), ops).lru.items, k) == None
    ensures var s := Run(Empty(maxSize), ops);
            (exists v :: Access(s, k, f).1 == Served(v, false)) <==> (exists x :: x in s.held && x.0 == k)
  {
    var s := Run(Empty<K, V>(maxSize), ops);
    RunInv(Empty<K, V>(maxSize), ops);
    LookupPair(s.lru.items, k);
    SurvivorsIn(s.lru);
    if x :| x in s.held && x.0 == k {
      assert Access(s, k, f).1 == Served(x.1, false);
    }
  }

  /** Capacity: a call for a new key leaves at most `maxSize` entries, with or without success. */
  lemma AccessSize<K, V>(s: Store<K, V>, k: K, f: Option<V>)
    requires Lookup(s.lru.items, k) == None
    ensures |Access(s, k, f).0.lru.items| <= s.lru.maxSize
    ensures Access(s, k, f).1.Threw? ==> Keys(Access(s, k, f).0.lru.items) == Take(Keys(s.lru.items), |Survivors(s.lru)|)
  {
    KeysTake(s.lru.items, if s.lru.maxSize == 0 then 0 else s.lru.maxSize - 1);
  }

  // ---- What a call returns and leaves behind ---------------------------------

  /** After any run, for a key that is neither cached nor held: the factory runs. Its value is
      returned, remembered, held by the caller and, with room, cached in front; a throw is passed on
      and leaves nothing behind. */
  lemma MakesWhenUnreferenced<K, V>(maxSize: nat, ops: seq<Op<K, V>>, k: K, f: Option<V>)
    requires LegalRun(Empty(maxSize), ops) && Lookup(Run(Empty(maxSize), ops).lru.items, k) == None
    requires forall x | x in Run(Empty(maxSize), ops).held :: x.0 != k
    ensures var s := Run(Empty(maxSize), ops);
            var (s', r) := Access(s, k, f);
            match f
            case Some(v) => r == Served(v, true) && k in s'.weak && s'.weak[k] == v && s'.held == s.held + {(k, v)}
                            && s'.lru.items == Take([(k, v)] + s.lru.items, s.lru.maxSize)
            case None => r == Threw && k !in s'.weak && s'.held == s.held
                         && s'.lru.items == (if s.lru.maxSize == 0 then [] else Take(s.lru.items, s.lru.maxSize - 1))
  {
    var s := Run(Empty<K, V>(maxSize), ops);
    RunInv(Empty<K, V>(maxSize), ops);
    LookupPair(s.lru.items, k);
    SurvivorsIn(s.lru);
  }

  /** Whatever the reply is made from, a served key is first in a cache with room. */
  lemma ServedIsFirst<K, V>(s: Store<K, V>, k: K, f: Option<V>)
    requires Access(s, k, f).1.Served? && s.lru.maxSize > 0
    ensures var (s', r) := Access(s, k, f);
            s'.lru.items != [] && s'.lru.items[0] == (k, r.v) && Lookup(s'.lru.items, k) == Some(r.v)
            && (k, r.v) in s'.held && s'.lru.maxSize == s.lru.maxSize
  {
    LookupPair(s.lru.items, k);
  }

  // ---- How long a value is served from the cache -----------------------------

  /** The other key an operation brings in or to the front. */
  ghost function Other<K, V>(op: Op<K, V>, k: K): set<K> {
    if op.Call? && op.k != k then {op.k} else {}
  }

  /** Neither dropped nor, by as many other keys as the cache has room for, pushed out; `seen` are
      the other keys called so far. */
  ghost predicate RoomFor<K, V>(s: Store<K, V>, ops: seq<Op<K, V>>, k: K, seen: set<K>)
    decreases |ops|
  {
    ops == []
    || ((ops[0].DropKeys? ==> ops[0].keep(k))
        && (ops[0].Call? && ops[0].k != k ==> |seen + {ops[0].k}| < s.lru.maxSize)
        && RoomFor(Step(s, ops[0]), ops[1..], k, seen + Other(ops[0], k)))
  }

  /** The cache holds `v` for `k`, with only keys of `seen` in front of it. */
  ghost predicate Caches<K, V>(s: Store<K, V>, k: K, v: V, seen: set<K>) {
    Lookup(s.lru.items, k) == Some(v) && RecencyValues.Near(Keys(s.lru.items), k, seen)
  }

  lemma {:induction false} SelectValue<K, V>(items: seq<(K, V)>, keep: K -> bool, k: K)
    requires keep(k)
    ensures Lookup(Select(items, keep), k) == Lookup(items, k)
  {
    if items != [] {
      var rest := Select(items[1..], keep);
      SelectValue(items[1..], keep, k);
      RecencyValues.LookupCons(items[0], rest, k);
      assert [] + rest == rest;
    }
  }

  lemma {:induction false} NearWhere<K>(keys: seq<K>, keep: K -> bool, k: K, seen: set<K>)
    requires keep(k) && RecencyValues.Near(keys, k, seen)
    ensures RecencyValues.Near(Where(keys, keep), k, seen)
  {
    var x, rest := keys[0], keys[1..];
    WhereDistinct(keys, keep);
    if x == k {
      assert Where(keys, keep)[0] == k;
    } else {
      var i :| 0 <= i < |keys| && keys[i] == k && forall j | 0 <= j < i :: keys[j] in seen;
      assert rest[i - 1] == k && forall j | 0 <= j < i - 1 :: rest[j] == keys[j + 1];
      assert keys[0] in seen;
      NearWhere(rest, keep, k, seen);
      NearBehind(x, Where(rest, keep), k, seen);
    }
  }

  lemma NearBehind<K>(x: K, rest: seq<K>, k: K, seen: set<K>)
    requires RecencyValues.Near(rest, k, seen) && x in seen && x != k
    ensures Distinct([x] + rest) ==> RecencyValues.Near([x] + rest, k, seen)
  {
    var i :| 0 <= i < |rest| && rest[i] == k && forall j | 0 <= j < i :: rest[j] in seen;
    var r := [x] + rest;
    assert r[i + 1] == k && forall j | 0 <= j < i + 1 :: r[j] in seen;
  }

  /** A call for another key, which may hit, be served from the weak store, make a value or throw. */
  lemma OtherCallKeeps<K, V>(s: Store<K, V>, j: K, f: Option<V>, k: K, v: V, seen: set<K>)
    requires Caches(s, k, v, seen) && j != k && |seen + {j}| < s.lru.maxSize
    ensures Caches(Access(s, j, f).0, k, v, seen + {j})
  {
    var items, keys, s' := s.lru.items, Keys(s.lru.items), Access(s, j, f).0;
    RecencyValues.NearMore(keys, k, seen, seen + {j});
    if j in keys {
      var w := Lookup(items, j).value;
      KeysWithout(items, j);
      KeysCons(j, w, Without(items, j));
      RecencyValues.NearRemove(keys, k, seen, j);
      RecencyValues.NearCons(RemoveKey(keys, j), k, seen, j);
      RecencyValues.LookupWithout(items, j, k);
      RecencyValues.LookupCons((j, w), Without(items, j), k);
    } else if s'.lru.items == Survivors(s.lru) {
      SurvivorKeeps(s, j, k, v, seen);
    } else {
      var w := s'.lru.items[0].1;
      PutKeeps(s, j, w, k, v, seen);
    }
  }

  lemma PutKeeps<K, V>(s: Store<K, V>, j: K, w: V, k: K, v: V, seen: set<K>)
    requires Caches(s, k, v, seen) && j != k && j !in Keys(s.lru.items) && |seen + {j}| < s.lru.maxSize
    ensures Caches(s.(lru := PutMissing(s.lru, j, w)), k, v, seen + {j})
  {
    var items, keys, n := s.lru.items, Keys(s.lru.items), s.lru.maxSize;
    KeysCons(j, w, items);
    KeysTake([(j, w)] + items, n);
    RecencyValues.NearCons(keys, k, seen, j);
    RecencyValues.NearTake([j] + keys, k, seen + {j}, n);
    RecencyValues.LookupCons((j, w), items, k);
    RecencyValues.LookupTake([(j, w)] + items, n, k);
  }

  /** The first `m` entries still have the key, if fewer keys than that can be in front of it. */
  lemma TakeKeeps<K, V>(items: seq<(K, V)>, m: nat, first: seq<(K, V)>, k: K, v: V, others: set<K>, more: set<K>)
    requires Lookup(items, k) == Some(v) && RecencyValues.Near(Keys(items), k, others)
    requires |others| < m && others <= more && first == Take(items, m)
    ensures Lookup(first, k) == Some(v) && RecencyValues.Near(Keys(first), k, more)
  {
    var keys := Keys(items);
    KeysTake(items, m);
    RecencyValues.NearTake(keys, k, others, m);
    RecencyValues.NearMore(Take(keys, m), k, others, more);
    RecencyValues.LookupTake(items, m, k);
  }

  lemma SurvivorKeeps<K, V>(s: Store<K, V>, j: K, k: K, v: V, seen: set<K>)
    requires Caches(s, k, v, seen) && j != k && j !in Keys(s.lru.items) && |seen + {j}| < s.lru.maxSize
    ensures Caches(s.(lru := s.lru.(items := Survivors(s.lru))), k, v, seen + {j})
  {
    NearWithout(Keys(s.lru.items), k, seen, j);
    OneLess(seen, j);
    var s' := s.(lru := s.lru.(items := Survivors(s.lru)));
    TakeKeeps(s.lru.items, s.lru.maxSize - 1, s'.lru.items, k, v, seen - {j}, seen + {j});
  }

  lemma OneLess<K>(seen: set<K>, j: K)
    ensures |seen + {j}| == |seen - {j}| + 1
  {
    assert seen + {j} == (seen - {j}) + {j};
  }

  /** A key that is not stored is not in front either. */
  lemma NearWithout<K>(keys: seq<K>, k: K, seen: set<K>, j: K)
    requires RecencyValues.Near(keys, k, seen) && j !in keys
    ensures RecencyValues.Near(keys, k, seen - {j})
  {
    var i :| 0 <= i < |keys| && keys[i] == k && forall m | 0 <= m < i :: keys[m] in seen;
    assert forall m | 0 <= m < i :: keys[m] in keys;
  }

  lemma SameCallKeeps<K, V>(s: Store<K, V>, f: Option<V>, k: K, v: V, seen: set<K>)
    requires Caches(s, k, v, seen)
    ensures Caches(Access(s, k, f).0, k, v, seen)
  {
    var items := s.lru.items;
    KeysWithout(items, k);
    KeysCons(k, v, Without(items, k));
    RecencyValues.NearFront(Keys(items), k);
    RecencyValues.NearMore([k] + RemoveKey(Keys(items), k), k, {}, seen);
    RecencyValues.LookupCons((k, v), Without(items, k), k);
  }

  lemma {:induction false} StaysCached<K, V>(s: Store<K, V>, ops: seq<Op<K, V>>, k: K, v: V, seen: set<K>)
    requires Caches(s, k, v, seen) && RoomFor(s, ops, k, seen)
    ensures Lookup(Run(s, ops).lru.items, k) == Some(v)
    decreases |ops|
  {
    if ops != [] {
      var op := ops[0];
      match op {
        case Call(j, f) => if j == k { SameCallKeeps(s, f, k, v, seen); } else { OtherCallKeeps(s, j, f, k, v, seen); }
        case DropKeys(keep) =>
          SelectValue(s.lru.items, keep, k);
          KeysSelect(s.lru.items, keep);
          NearWhere(Keys(s.lru.items), keep, k, seen);
        case _ =>
      }
      assert Other(op, k) == {} ==> seen + Other(op, k) == seen;
      StaysCached(Step(s, op), ops[1..], k, v, seen + Other(op, k));
    }
  }

  /** An operation of the recency list keeps the keys unique. */
  lemma StepDistinct<K, V>(c: Cache<K, V>, op: Recency.Op<K, V>)
    requires Distinct(Keys(c.items))
    ensures Distinct(Keys(Recency.Step(c, op).items))
  {
    KeysStep(c, op);
    KeysAfterDistinct(Keys(c.items), c.maxSize, op);
  }

  /** A call does one operation to the recency list, or leaves the survivors. */
  lemma AccessIsOp<K, V>(s: Store<K, V>, k: K, f: Option<V>) returns (op: Option<Recency.Op<K, V>>)
    ensures var c := Access(s, k, f).0.lru;
            if op.Some? then c == Recency.Step(s.lru, op.value) else c.items == Survivors(s.lru)
  {
    if Lookup(s.lru.items, k).Some? {
      op := Some(OpGet(k));
    } else if k in s.weak && Alive(s.held, Survivors(s.lru), s.weak[k]) {
      op := Some(OpPut(k, s.weak[k]));
    } else {
      op := if f.Some? then Some(OpPut(k, f.value)) else None;
    }
  }

  lemma AccessDistinct<K, V>(s: Store<K, V>, k: K, f: Option<V>)
    requires Distinct(Keys(s.lru.items))
    ensures Distinct(Keys(Access(s, k, f).0.lru.items))
  {
    var op := AccessIsOp(s, k, f);
    if op.Some? {
      StepDistinct(s.lru, op.value);
    } else {
      KeysTake(s.lru.items, if s.lru.maxSize == 0 then 0 else s.lru.maxSize - 1);
    }
  }

  /** In every run keys are unique. */
  lemma {:induction false} RunDistinct<K, V>(s: Store<K, V>, ops: seq<Op<K, V>>)
    requires Distinct(Keys(s.lru.items))
    ensures Distinct(Keys(Run(s, ops).lru.items))
    decreases |ops|
  {
    if ops != [] {
      match ops[0] {
        case Call(k, f) => AccessDistinct(s, k, f);
        case DropKeys(keep) =>
          KeysSelect(s.lru.items, keep);
          WhereDistinct(Keys(s.lru.items), keep);
        case _ =>
      }
      RunDistinct(Step(s, ops[0]), ops[1..]);
    }
  }

  /** After any run: a call for `k` that returned `v`, in a cache with room. Every later call for `k`
      returns the same `v` without the factory, even if all clients released it, as long as `k` was
      neither dropped nor pushed out. */
  lemma ServedAgain<K, V>(maxSize: nat, before: seq<Op<K, V>>, k: K, f: Option<V>, ops: seq<Op<K, V>>, f': Option<V>)
    requires var s := Run(Empty(maxSize), before);
             s.lru.maxSize > 0 && Access(s, k, f).1.Served? && RoomFor(Access(s, k, f).0, ops, k, {})
    ensures var (s', r) := Access(Run(Empty(maxSize), before), k, f);
            Access(Run(s', ops), k, f').1 == Served(r.v, false)
  {
    var s := Run(Empty<K, V>(maxSize), before);
    var (s', r) := Access(s, k, f);
    RunDistinct(Empty<K, V>(maxSize), before);
    ServedIsFirst(s, k, f);
    AccessDistinct(s, k, f);
    assert Keys(s'.lru.items)[0] == k;
    StaysCached(s', ops, k, r.v, {});
  }

  /** A client holds what it was served, until it lets go. */
  lemma HoldsIff<K, V>(s: Store<K, V>, op: Op<K, V>, k: K, v: V)
    ensures (k, v) in Step(s, op).held
       <==> ((k, v) in s.held && !(op.Release? && op.k == k && op.v == v))
            || (op.Call? && op.k == k && Access(s, k, op.f).1.Served? && Access(s, k, op.f).1.v == v)
  {
  }
}
