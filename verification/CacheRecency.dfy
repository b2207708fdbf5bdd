/** The caches of the protocol are LRU caches: in every run, each of the two is what the recorded
    lookups, drops and resizes make of an LRU cache (`Recency`). */
module CacheRecency {
  import opened Seqs
  import opened Recency
  import opened RecencyValues
  import opened CacheProtocol
  import opened CacheLiveness
  import opened CacheSafety

  type LruOp = Op<Key, Promise>

  function CacheOf(sh: Shared, archives: bool): Cache<Key, Promise> {
    if archives then sh.archives else sh.searchers
  }

  /** What a call asks of the cache of its key: a getOrPut of a new placeholder at the lookup, a drop
      after a failure, and nothing else. */
  function Asks(c: Call, made: Promise): seq<LruOp> {
    match c.pc
    case Lookup => [OpGetOrPut(c.key, made)]
    case Forget(_) => [OpDrop(c.key)]
    case _ => []
  }

  function Drops(keys: seq<Key>): seq<LruOp> {
    if keys == [] then [] else Drops(keys[..|keys| - 1]) + [OpDrop(keys[|keys| - 1])]
  }

  function If<T>(b: bool, s: seq<T>): seq<T> {
    if b then s else []
  }

  /** Is it a set of ids with this one? */
  function Holding(id: string): Key -> bool {
    (k: Key) => k.Many? && id in k.ids
  }

  function Outside(keys: seq<Key>): Key -> bool {
    (k: Key) => k !in keys
  }

  /** The operations of a move on one of the caches. */
  function Ops(s: State, m: Move, archives: bool): seq<LruOp> {
    match m
    case Thread(t, _) =>
      if t < |s.threads| && s.threads[t].Running? && !Idles(s.threads[t]) then
        var c := Current(s.threads[t]);
        If(c.key.One? == archives, Asks(c, |s.sh.promises|))
      else []
    case Spawn(_) => []
    case DropArchive(id) => If(archives, [OpDrop(One(id))])
    case DropSearchers(id) => If(!archives, Drops(Where(Keys(s.sh.searchers.items), Holding(id))))
    case Resize(a, n) => If(a == archives, [OpSetMaxSize(n)])
  }

  /** A factory that is about to make a nested call. */
  predicate Idles(th: Thread) {
    th.Running? && th.inner.None? && Nests(th.call)
  }

  function RunOps(s: State, moves: seq<Move>, archives: bool): seq<LruOp>
    requires Valid(s, moves)
    decreases |moves|
  {
    if moves == [] then [] else Ops(s, moves[0], archives) + RunOps(Do(s, moves[0]), moves[1..], archives)
  }

  // ---- One move --------------------------------------------------------------

  lemma RunOne<K, V>(c: Cache<K, V>, op: Op<K, V>)
    ensures Run(c, [op]) == Step(c, op) && Run(c, []) == c
  {
    assert [op][..0] == [];
  }

  lemma {:induction false} RunAppend<K, V>(c: Cache<K, V>, a: seq<Op<K, V>>, b: seq<Op<K, V>>)
    ensures Run(c, a + b) == Run(Run(c, a), b)
    decreases |b|
  {
    if b == [] {
      assert a + b == a;
    } else {
      assert (a + b)[..|a + b| - 1] == a + b[..|b| - 1];
      RunAppend(c, a, b[..|b| - 1]);
    }
  }

  /** The locked lookup is a getOrPut: a hit goes to the front with its placeholder, a miss comes in
      with the new one. */
  lemma LookupIsGetOrPut(sh: Shared, slot: Slot, k: Key, archives: bool)
    ensures CacheOf(LookupStep(sh, slot, k).0, archives)
         == if k.One? == archives then Step(CacheOf(sh, archives), OpGetOrPut(k, |sh.promises|)) else CacheOf(sh, archives)
  {
  }

  lemma DropIsDrop(sh: Shared, k: Key, archives: bool)
    ensures CacheOf(DropStep(sh, k), archives)
         == if k.One? == archives then Step(CacheOf(sh, archives), OpDrop(k)) else CacheOf(sh, archives)
  {
  }

  lemma CallIsOps(sh: Shared, slot: Slot, c: Call, ch: Choice, archives: bool)
    requires CanStep(sh, c, ch)
    ensures CacheOf(CallStep(sh, slot, c, ch).0, archives)
         == Run(CacheOf(sh, archives), If(c.key.One? == archives, Asks(c, |sh.promises|)))
  {
    var cache := CacheOf(sh, archives);
    RunOne<Key, Promise>(cache, OpGetOrPut(c.key, |sh.promises|));
    RunOne<Key, Promise>(cache, OpDrop(c.key));
    match c.pc {
      case Lookup => LookupIsGetOrPut(sh, slot, c.key, archives);
      case Forget(_) => DropIsDrop(sh, c.key, archives);
      case _ =>
    }
  }

  lemma ThreadIsOps(s: State, t: nat, ch: Choice, archives: bool)
    requires CanMove(s, t, ch)
    ensures CacheOf(MoveThread(s, t, ch).sh, archives) == Run(CacheOf(s.sh, archives), Ops(s, Move.Thread(t, ch), archives))
  {
    var th := s.threads[t];
    if !Idles(th) {
      CallIsOps(s.sh, Slot(t, th.inner.Some?), Current(th), ch, archives);
    }
  }

  /** Dropping the keys of a selection one by one leaves the others, in their order. */
  lemma {:induction false} DropsAre(c: Cache<Key, Promise>, keys: seq<Key>)
    ensures Run(c, Drops(keys)) == c.(items := Select(c.items, Outside(keys)))
  {
    if keys == [] {
      SelectAll(c.items, Outside(keys));
    } else {
      var init, last := keys[..|keys| - 1], keys[|keys| - 1];
      assert keys == init + [last];
      DropsAre(c, init);
      var ops := Drops(init) + [OpDrop(last)];
      assert ops[..|ops| - 1] == Drops(init);
      WithoutSelect(c.items, Outside(init), Outside(keys), last);
    }
  }

  lemma {:induction false} SelectAll(items: seq<(Key, Promise)>, keep: Key -> bool)
    requires forall k :: keep(k)
    ensures Select(items, keep) == items
  {
    if items != [] {
      SelectAll(items[1..], keep);
    }
  }

  lemma {:induction false} WithoutSelect(items: seq<(Key, Promise)>, keep: Key -> bool, keep': Key -> bool, gone: Key)
    requires forall k :: keep'(k) <==> keep(k) && k != gone
    ensures Without(Select(items, keep), gone) == Select(items, keep')
  {
    if items != [] {
      WithoutSelect(items[1..], keep, keep', gone);
      var rest := Select(items[1..], keep);
      assert [] + rest == rest && [] + Select(items[1..], keep') == Select(items[1..], keep');
      assert ([items[0]] + rest)[1..] == rest;
    }
  }

  lemma {:induction false} SelectSame(items: seq<(Key, Promise)>, keep: Key -> bool, keep': Key -> bool)
    requires forall x | x in items :: keep(x.0) == keep'(x.0)
    ensures Select(items, keep) == Select(items, keep')
  {
    if items != [] {
      assert items[0] in items;
      SelectSame(items[1..], keep, keep');
    }
  }

  lemma {:induction false} WhereHas(keys: seq<Key>, keep: Key -> bool)
    ensures forall k | k in keys && keep(k) :: k in Where(keys, keep)
  {
    if keys != [] {
      assert keys == [keys[0]] + keys[1..];
      WhereHas(keys[1..], keep);
    }
  }

  lemma KeysHave(items: seq<(Key, Promise)>, x: (Key, Promise))
    requires x in items
    ensures x.0 in Keys(items)
  {
    var i :| 0 <= i < |items| && items[i] == x;
    assert Keys(items)[i] == x.0;
  }

  /** Keeping the entries outside the selected keys is keeping those that are not selected. */
  lemma SelectOutside(items: seq<(Key, Promise)>, keep: Key -> bool, drop: Key -> bool)
    requires forall k :: drop(k) == !keep(k)
    ensures Select(items, Outside(Where(Keys(items), drop))) == Select(items, keep)
  {
    var gone := Where(Keys(items), drop);
    WhereHas(Keys(items), drop);
    forall x | x in items
      ensures keep(x.0) == (x.0 !in gone)
    {
      KeysHave(items, x);
    }
    SelectSame(items, Outside(gone), keep);
  }

  lemma DropSearchersIsOps(s: State, id: string)
    ensures CacheOf(Do(s, DropSearchers(id)).sh, false)
         == Run(s.sh.searchers, Drops(Where(Keys(s.sh.searchers.items), Holding(id))))
  {
    var items := s.sh.searchers.items;
    DropsAre(s.sh.searchers, Where(Keys(items), Holding(id)));
    SelectOutside(items, k => Lacks(k, id), Holding(id));
  }

  /** Every move does to each cache exactly the recorded operations. */
  lemma DoIsOps(s: State, m: Move, archives: bool)
    requires CanDo(s, m)
    ensures CacheOf(Do(s, m).sh, archives) == Run(CacheOf(s.sh, archives), Ops(s, m, archives))
  {
    var cache := CacheOf(s.sh, archives);
    match m {
      case Thread(t, ch) => ThreadIsOps(s, t, ch, archives);
      case DropArchive(id) =>
        DropIsDrop(s.sh, One(id), archives);
        RunOne<Key, Promise>(cache, OpDrop(One(id)));
      case DropSearchers(id) => if !archives { DropSearchersIsOps(s, id); }
      case Resize(_, n) => RunOne<Key, Promise>(cache, OpSetMaxSize(n));
      case _ =>
    }
  }

  // ---- Runs ------------------------------------------------------------------

  lemma {:induction false} PlayIsOps(s: State, moves: seq<Move>, archives: bool)
    requires Valid(s, moves)
    ensures CacheOf(Play(s, moves).sh, archives) == Run(CacheOf(s.sh, archives), RunOps(s, moves, archives))
    decreases |moves|
  {
    if moves != [] {
      var s' := Do(s, moves[0]);
      DoIsOps(s, moves[0], archives);
      PlayIsOps(s', moves[1..], archives);
      RunAppend(CacheOf(s.sh, archives), Ops(s, moves[0], archives), RunOps(s', moves[1..], archives));
    }
  }

  /** In every run from the start, each cache is the LRU cache of its recorded operations. */
  lemma CachesAreLru(archiveSize: nat, searcherSize: nat, moves: seq<Move>)
    requires Valid(Init(archiveSize, searcherSize), moves)
    ensures var s0 := Init(archiveSize, searcherSize);
            var sh := Play(s0, moves).sh;
            sh.archives == Run(Cache([], archiveSize), RunOps(s0, moves, true))
            && sh.searchers == Run(Cache([], searcherSize), RunOps(s0, moves, false))
  {
    PlayIsOps(Init(archiveSize, searcherSize), moves, true);
    PlayIsOps(Init(archiveSize, searcherSize), moves, false);
  }

  /** After a lookup of `k` in a cache with room, `k` is its most recent key, the others keep their
      order, and a hit changes no placeholder. */
  lemma LookupBringsFront(sh: Shared, slot: Slot, k: Key, j: Key)
    requires sh.Lru(k).maxSize > 0
    ensures var before, after := sh.Lru(k), LookupStep(sh, slot, k).0.Lru(k);
            Keys(after.items) == (if k in Keys(before.items) then [k] + RemoveKey(Keys(before.items), k)
                                  else Take([k] + Keys(before.items), before.maxSize))
            && (k in Keys(before.items) ==> Recency.Lookup(after.items, j) == Recency.Lookup(before.items, j))
  {
    var op: LruOp := OpGetOrPut(k, |sh.promises|);
    LookupIsGetOrPut(sh, slot, k, k.One?);
    KeysStep(sh.Lru(k), op);
    if k in Keys(sh.Lru(k).items) {
      ReadKeepsValues(sh.Lru(k), op, j);
    }
  }

  /** A key at the front of its cache is still stored after any run that neither drops it nor touches
      as many other keys as the cache has room for. */
  lemma StoredUntilPushedOut(s: State, moves: seq<Move>, k: Key)
    requires Inv(s) && Valid(s, moves)
    requires var c := s.sh.Lru(k); c.items != [] && Keys(c.items)[0] == k && Roomy(c, RunOps(s, moves, k.One?), k)
    ensures k in Keys(Play(s, moves).sh.Lru(k).items)
  {
    PlayIsOps(s, moves, k.One?);
    Survives(s.sh.Lru(k), RunOps(s, moves, k.One?), k);
  }
}
