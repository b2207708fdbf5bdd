/** A call of `getArchiveById` that no other thread interferes with, step by step through the
    protocol: it does what the sequential cache of `WeakReuse` does. */
module CacheSolo {
  import opened Seqs
  import opened Recency
  import opened CacheProtocol
  import opened CacheSafety
  import WeakReuse

  // ---- Placeholders read as values -------------------------------------------

  function Mapped<K, V, W>(items: seq<(K, V)>, g: V -> W): (r: seq<(K, W)>)
    ensures |r| == |items|
  {
    seq(|items|, i requires 0 <= i < |items| => (items[i].0, g(items[i].1)))
  }

  lemma {:induction false} MappedLookup<K, V, W>(items: seq<(K, V)>, g: V -> W, k: K)
    ensures Recency.Lookup(Mapped(items, g), k)
         == match Recency.Lookup(items, k) case None => None case Some(v) => Some(g(v))
    ensures Without(Mapped(items, g), k) == Mapped(Without(items, k), g)
  {
    if items != [] {
      assert Mapped(items, g)[1..] == Mapped(items[1..], g);
      MappedLookup(items[1..], g, k);
      assert Mapped([items[0]] + Without(items[1..], k), g) == [Mapped(items, g)[0]] + Mapped(Without(items[1..], k), g);
    }
  }

  lemma MappedSame<K, V, W>(items: seq<(K, V)>, g: V -> W, h: V -> W)
    requires forall x | x in items :: g(x.1) == h(x.1)
    ensures Mapped(items, g) == Mapped(items, h)
  {
    assert forall i | 0 <= i < |items| :: items[i] in items;
  }

  lemma MappedTouch<K, V, W>(c: Cache<K, V>, g: V -> W, k: K, v: V)
    ensures Mapped(Touch(c, k, v).items, g) == [(k, g(v))] + Without(Mapped(c.items, g), k)
  {
    MappedLookup(c.items, g, k);
  }

  lemma MappedCons<K, V, W>(k: K, v: V, items: seq<(K, V)>, g: V -> W)
    ensures Mapped([(k, v)] + items, g) == [(k, g(v))] + Mapped(items, g)
  {
  }

  lemma MappedTake<K, V, W>(items: seq<(K, V)>, g: V -> W, max: nat)
    ensures Mapped(Take(items, max), g) == Take(Mapped(items, g), max)
  {
  }

  function ValueOf(promises: seq<Outcome>, p: Promise): Value {
    if p < |promises| && promises[p].Ready? then promises[p].value else Archive("", 0)
  }

  function Reader(promises: seq<Outcome>): Promise -> Value {
    (p: Promise) => ValueOf(promises, p)
  }

  /** The archive cache with the values of its placeholders, the weak store, and what clients hold. */
  function StoreOf(sh: Shared, held: set<(Key, Value)>): WeakReuse.Store<Key, Value> {
    WeakReuse.Store(Cache(Mapped(sh.archives.items, Reader(sh.promises)), sh.archives.maxSize), sh.weak, held)
  }

  /** No call for an archive is under way: every stored placeholder has its value. */
  ghost predicate Settled(sh: Shared) {
    forall x | x in sh.archives.items :: x.1 < |sh.promises| && sh.promises[x.1].Ready?
  }

  // ---- One thread moves ------------------------------------------------------

  function At(s: State, sh: Shared, t: nat, th: Thread): State
    requires t < |s.threads|
  {
    State(sh, s.threads[t := th])
  }

  lemma SoloGoes(s: State, sh: Shared, t: nat, c: Call, ch: Choice)
    requires t < |s.threads| && !Nests(c) && CanStep(sh, c, ch)
    ensures var here, m := At(s, sh, t, Running(c, None)), Move.Thread(t, ch);
            CanDo(here, m)
            && Do(here, m) == match CallStep(sh, Slot(t, false), c, ch)
                              case (sh', Continue(c')) => At(s, sh', t, Running(c', None))
                              case (sh', Return(r)) => At(s, sh', t, Finished(c.key, r))
  {
  }

  ghost predicate OnlyMoves(moves: seq<Move>, t: nat) {
    forall i | 0 <= i < |moves| :: moves[i].Thread? && moves[i].t == t
  }

  /** The thread is at the start of a call for archive `id`, and every stored placeholder is set. */
  ghost predicate Ready(s: State, t: nat, k: Key) {
    && k.One? && t < |s.threads| && s.threads[t] == Running(Call(k, Pc.Lookup), None)
    && Settled(s.sh) && forall p | p in s.sh.foreign :: p < |s.sh.promises|
  }

  function ResultOf(reply: WeakReuse.Reply<Value>): Result {
    match reply
    case Served(v, _) => Got(v)
    case Threw => Failed
  }

  function RunsOf(reply: WeakReuse.Reply<Value>, k: Key): seq<Key> {
    if reply.Threw? || reply.ran then [k] else []
  }

  /** `e` is where the call ends that the sequential cache answers with `next`. */
  ghost predicate Ends(s: State, t: nat, k: Key, next: (WeakReuse.Store<Key, Value>, WeakReuse.Reply<Value>), e: State)
    requires t < |s.threads|
  {
    && e.threads == s.threads[t := Finished(k, ResultOf(next.1))]
    && StoreOf(e.sh, next.0.held) == next.0 && Settled(e.sh)
    && e.sh.runs == s.sh.runs + RunsOf(next.1, k) && e.sh.searchers == s.sh.searchers
  }

  /** All moves are the thread's own, and the call ends as the sequential one. */
  ghost predicate Agrees(s: State, t: nat, k: Key, held: set<(Key, Value)>, f: Option<Value>, moves: seq<Move>)
    requires t < |s.threads|
  {
    && Valid(s, moves) && OnlyMoves(moves, t)
    && Ends(s, t, k, WeakReuse.Access(StoreOf(s.sh, held), k, f), Play(s, moves))
  }

  lemma StartsHere(s: State, t: nat, k: Key)
    requires Ready(s, t, k)
    ensures At(s, s.sh, t, Running(Call(k, Pc.Lookup), None)) == s && s.sh.runs + [] == s.sh.runs
  {
  }

  // ---- A hit -----------------------------------------------------------------

  /** The entries of a touched cache are those of the cache. */
  lemma TouchedIn(c: Cache<Key, Promise>, k: Key, q: Promise)
    requires Recency.Lookup(c.items, k) == Some(q)
    ensures (k, q) in c.items && forall x | x in Touch(c, k, q).items :: x in c.items
  {
    WeakReuse.LookupPair(c.items, k);
  }

  lemma HitStore(sh: Shared, k: Key, q: Promise, held: set<(Key, Value)>)
    requires k.One? && Recency.Lookup(sh.archives.items, k) == Some(q) && Settled(sh)
    ensures var sh', v := sh.(archives := Touch(sh.archives, k, q)), ValueOf(sh.promises, q);
            && q < |sh.promises| && sh.promises[q] == Outcome.Ready(v) && Settled(sh')
            && Recency.Lookup(StoreOf(sh, held).lru.items, k) == Some(v)
            && StoreOf(sh', held).lru == Touch(StoreOf(sh, held).lru, k, v)
  {
    TouchedIn(sh.archives, k, q);
    MappedLookup(sh.archives.items, Reader(sh.promises), k);
    MappedTouch(sh.archives, Reader(sh.promises), k, q);
  }

  lemma HitEnds(s: State, t: nat, k: Key, q: Promise, held: set<(Key, Value)>, f: Option<Value>, sh: Shared)
    requires Ready(s, t, k) && Recency.Lookup(s.sh.archives.items, k) == Some(q)
    requires sh == s.sh.(archives := Touch(s.sh.archives, k, q))
    ensures q < |sh.promises| && sh.promises[q].Ready?
    ensures Ends(s, t, k, WeakReuse.Access(StoreOf(s.sh, held), k, f), At(s, sh, t, Finished(k, Got(sh.promises[q].value))))
  {
    HitStore(s.sh, k, q, held);
  }

  lemma HitMoves(s: State, t: nat, k: Key, q: Promise, sh: Shared) returns (moves: seq<Move>)
    requires Ready(s, t, k) && Recency.Lookup(s.sh.archives.items, k) == Some(q)
    requires sh == s.sh.(archives := Touch(s.sh.archives, k, q)) && q < |sh.promises| && sh.promises[q].Ready?
    ensures Valid(s, moves) && OnlyMoves(moves, t)
    ensures Play(s, moves) == At(s, sh, t, Finished(k, Got(sh.promises[q].value)))
  {
    SoloGoes(s, s.sh, t, Call(k, Pc.Lookup), Go);
    SoloGoes(s, sh, t, Call(k, Wait(q)), Go);
    StartsHere(s, t, k);
    PlayTwo(s, Move.Thread(t, Go), Move.Thread(t, Go));
    moves := [Move.Thread(t, Go), Move.Thread(t, Go)];
  }

  lemma SoloHit(s: State, t: nat, k: Key, q: Promise, held: set<(Key, Value)>, f: Option<Value>) returns (moves: seq<Move>)
    requires Ready(s, t, k) && Recency.Lookup(s.sh.archives.items, k) == Some(q)
    ensures Agrees(s, t, k, held, f, moves)
  {
    var sh := s.sh.(archives := Touch(s.sh.archives, k, q));
    HitEnds(s, t, k, q, held, f, sh);
    moves := HitMoves(s, t, k, q, sh);
  }

  // ---- A miss ----------------------------------------------------------------

  /** After the locked lookup: the placeholder is in, and unset. */
  function Missed(sh: Shared, t: nat, k: Key): Shared {
    LookupStep(sh, Slot(t, false), k).0
  }

  ghost predicate Misses(s: State, t: nat, k: Key) {
    Ready(s, t, k) && Recency.Lookup(s.sh.archives.items, k) == None
  }

  lemma MissIs(sh: Shared, t: nat, k: Key)
    requires k.One? && Recency.Lookup(sh.archives.items, k) == None
    ensures var p, m := |sh.promises|, Missed(sh, t, k);
            && CallStep(sh, Slot(t, false), Call(k, Pc.Lookup), Go) == (m, Continue(Call(k, Probe(p))))
            && m.archives == PutMissing(sh.archives, k, p) && m.promises == sh.promises + [Pending]
            && m.searchers == sh.searchers && m.weak == sh.weak && m.runs == sh.runs && m.foreign == sh.foreign
  {
  }

  lemma SetLast(promises: seq<Outcome>, o: Outcome)
    ensures (promises + [Pending])[|promises| := o] == promises + [o]
  {
  }

  /** The old entries read as before. */
  lemma ReadsSame(sh: Shared, o: Outcome)
    requires Settled(sh)
    ensures Mapped(sh.archives.items, Reader(sh.promises + [o])) == Mapped(sh.archives.items, Reader(sh.promises))
  {
    var g, h := Reader(sh.promises + [o]), Reader(sh.promises);
    forall x | x in sh.archives.items
      ensures g(x.1) == h(x.1)
    {
      assert (sh.promises + [o])[x.1] == sh.promises[x.1];
    }
    MappedSame(sh.archives.items, g, h);
  }

  lemma ReadsNew(promises: seq<Outcome>, v: Value)
    ensures Reader(promises + [Outcome.Ready(v)])(|promises|) == v
  {
  }

  lemma TakeIn<T>(s: seq<T>, n: nat)
    ensures forall x | x in Take(s, n) :: x in s
  {
  }

  /** The new placeholder set to `v`: the value came in. */
  lemma FilledStore(sh: Shared, sh': Shared, k: Key, v: Value, held: set<(Key, Value)>)
    requires Settled(sh) && sh'.promises == sh.promises + [Outcome.Ready(v)]
    requires sh'.archives == PutMissing(sh.archives, k, |sh.promises|)
    ensures Settled(sh') && StoreOf(sh', held).lru == PutMissing(StoreOf(sh, held).lru, k, v)
  {
    var p: Promise := |sh.promises|;
    var g, all := Reader(sh'.promises), [(k, p)] + sh.archives.items;
    ReadsSame(sh, Outcome.Ready(v));
    ReadsNew(sh.promises, v);
    MappedCons(k, p, sh.archives.items, g);
    MappedTake(all, g, sh.archives.maxSize);
    TakeIn(all, sh.archives.maxSize);
  }

  lemma {:induction false} WithoutAbsent<K, V>(items: seq<(K, V)>, k: K)
    requires forall x | x in items :: x.0 != k
    ensures Without(items, k) == items
  {
    if items != [] {
      assert items == [items[0]] + items[1..];
      WithoutAbsent(items[1..], k);
    }
  }

  /** The new entry taken out again: only those it pushed out are missing. */
  lemma PutAndDrop(c: Cache<Key, Promise>, k: Key, p: Promise)
    requires Recency.Lookup(c.items, k) == None
    ensures Drop(PutMissing(c, k, p), k).items == WeakReuse.Survivors(c)
  {
    WeakReuse.LookupPair(c.items, k);
    WeakReuse.SurvivorsIn(c);
    WithoutAbsent(WeakReuse.Survivors(c), k);
    if c.maxSize > 0 {
      var all := [(k, p)] + c.items;
      assert Take(all, c.maxSize) == [(k, p)] + Take(c.items, c.maxSize - 1);
      assert ([(k, p)] + Take(c.items, c.maxSize - 1))[1..] == Take(c.items, c.maxSize - 1);
    }
  }

  lemma FailedStore(sh: Shared, sh': Shared, k: Key, held: set<(Key, Value)>)
    requires Settled(sh) && Recency.Lookup(sh.archives.items, k) == None
    requires sh'.promises == sh.promises + [Broken]
    requires sh'.archives == Drop(PutMissing(sh.archives, k, |sh.promises|), k)
    ensures Settled(sh')
    ensures StoreOf(sh', held).lru == StoreOf(sh, held).lru.(items := WeakReuse.Survivors(StoreOf(sh, held).lru))
  {
    PutAndDrop(sh.archives, k, |sh.promises|);
    WeakReuse.SurvivorsIn(sh.archives);
    ReadsSame(sh, Broken);
    if sh.archives.maxSize > 0 {
      MappedTake(sh.archives.items, Reader(sh'.promises), sh.archives.maxSize - 1);
    }
  }

  // ---- A value that is still alive -------------------------------------------

  /** The sequential cache finds the value of `k` alive. */
  ghost predicate FindsAlive(sh: Shared, k: Key, held: set<(Key, Value)>) {
    k in sh.weak && WeakReuse.Alive(held, WeakReuse.Survivors(StoreOf(sh, held).lru), sh.weak[k])
  }

  lemma MissAccess(sh: Shared, k: Key, held: set<(Key, Value)>, f: Option<Value>, store: WeakReuse.Store<Key, Value>)
    requires Recency.Lookup(sh.archives.items, k) == None && store == StoreOf(sh, held)
    ensures FindsAlive(sh, k, held) ==>
              WeakReuse.Access(store, k, f) == (store.(lru := PutMissing(store.lru, k, sh.weak[k]), held := held + {(k, sh.weak[k])}),
                                                WeakReuse.Served(sh.weak[k], false))
    ensures !FindsAlive(sh, k, held) && f.Some? ==>
              WeakReuse.Access(store, k, f) == (WeakReuse.Store(PutMissing(store.lru, k, f.value), sh.weak[k := f.value],
                                                                held + {(k, f.value)}),
                                                WeakReuse.Served(f.value, true))
    ensures !FindsAlive(sh, k, held) && f.None? ==>
              WeakReuse.Access(store, k, f) == (WeakReuse.Store(store.lru.(items := WeakReuse.Survivors(store.lru)),
                                                                sh.weak - {k}, held),
                                                WeakReuse.Threw)
  {
    MappedLookup(sh.archives.items, Reader(sh.promises), k);
  }

  lemma AliveEnds(s: State, t: nat, k: Key, held: set<(Key, Value)>, f: Option<Value>, sh: Shared)
    requires Misses(s, t, k) && FindsAlive(s.sh, k, held)
    requires var m := Missed(s.sh, t, k); sh == m.(promises := m.promises[|s.sh.promises| := Outcome.Ready(s.sh.weak[k])])
    ensures Ends(s, t, k, WeakReuse.Access(StoreOf(s.sh, held), k, f), At(s, sh, t, Finished(k, Got(s.sh.weak[k]))))
  {
    MissIs(s.sh, t, k);
    SetLast(s.sh.promises, Outcome.Ready(s.sh.weak[k]));
    FilledStore(s.sh, sh, k, s.sh.weak[k], held);
    MissAccess(s.sh, k, held, f, StoreOf(s.sh, held));
    StartsHere(s, t, k);
  }

  lemma AliveMoves(s: State, t: nat, k: Key, sh: Shared) returns (moves: seq<Move>)
    requires Misses(s, t, k) && k in s.sh.weak
    requires var m := Missed(s.sh, t, k); sh == m.(promises := m.promises[|s.sh.promises| := Outcome.Ready(s.sh.weak[k])])
    ensures Valid(s, moves) && OnlyMoves(moves, t)
    ensures Play(s, moves) == At(s, sh, t, Finished(k, Got(s.sh.weak[k])))
  {
    var p, m, v := |s.sh.promises|, Missed(s.sh, t, k), s.sh.weak[k];
    moves := [Move.Thread(t, Go), Move.Thread(t, WeakAlive), Move.Thread(t, Go), Move.Thread(t, Go)];
    MissIs(s.sh, t, k);
    StartsHere(s, t, k);
    SoloGoes(s, s.sh, t, Call(k, Pc.Lookup), Go);
    SoloGoes(s, m, t, Call(k, Probe(p)), WeakAlive);
    SoloGoes(s, m, t, Call(k, Publish(p, v, false)), Go);
    SoloGoes(s, sh, t, Call(k, Wait(p)), Go);
    PlayChain(s, moves, [s, At(s, m, t, Running(Call(k, Probe(p)), None)), At(s, m, t, Running(Call(k, Publish(p, v, false)), None)),
                         At(s, sh, t, Running(Call(k, Wait(p)), None)), At(s, sh, t, Finished(k, Got(v)))]);
  }

  lemma SoloAlive(s: State, t: nat, k: Key, held: set<(Key, Value)>, f: Option<Value>) returns (moves: seq<Move>)
    requires Misses(s, t, k) && FindsAlive(s.sh, k, held)
    ensures Agrees(s, t, k, held, f, moves)
  {
    var m := Missed(s.sh, t, k);
    var sh := m.(promises := m.promises[|s.sh.promises| := Outcome.Ready(s.sh.weak[k])]);
    moves := AliveMoves(s, t, k, sh);
    AliveEnds(s, t, k, held, f, sh);
  }

  // ---- The factory makes a value ----------------------------------------------

  /** Nothing alive was found, and the factory was entered. */
  function Entered(m: Shared, k: Key, p: Promise): Shared {
    m.(weak := m.weak - {k}, ran := m.ran + {p}, runs := m.runs + [k])
  }

  function Made(m: Shared, k: Key, p: Promise, v: Value): Shared
    requires p < |m.promises|
  {
    Entered(m, k, p).(promises := m.promises[p := Outcome.Ready(v)], weak := (m.weak - {k})[k := v])
  }

  lemma MadeEnds(s: State, t: nat, k: Key, held: set<(Key, Value)>, v: Value)
    requires Misses(s, t, k) && !FindsAlive(s.sh, k, held) && |Missed(s.sh, t, k).promises| > |s.sh.promises|
    ensures var sh := Made(Missed(s.sh, t, k), k, |s.sh.promises|, v);
            Ends(s, t, k, WeakReuse.Access(StoreOf(s.sh, held), k, Some(v)), At(s, sh, t, Finished(k, Got(v))))
  {
    var sh := Made(Missed(s.sh, t, k), k, |s.sh.promises|, v);
    MissIs(s.sh, t, k);
    SetLast(s.sh.promises, Outcome.Ready(v));
    FilledStore(s.sh, sh, k, v, held);
    MissAccess(s.sh, k, held, Some(v), StoreOf(s.sh, held));
    assert (s.sh.weak - {k})[k := v] == s.sh.weak[k := v];
  }

  lemma ToFactory(s: State, t: nat, k: Key)
    requires Misses(s, t, k)
    ensures var m, p, moves := Missed(s.sh, t, k), |s.sh.promises|, [Move.Thread(t, Go), Move.Thread(t, Go)];
            Valid(s, moves) && Play(s, moves) == At(s, m.(weak := m.weak - {k}), t, Running(Call(k, Make(p)), None))
  {
    var m, p := Missed(s.sh, t, k), |s.sh.promises|;
    MissIs(s.sh, t, k);
    StartsHere(s, t, k);
    SoloGoes(s, s.sh, t, Call(k, Pc.Lookup), Go);
    SoloGoes(s, m, t, Call(k, Probe(p)), Go);
    PlayTwo(s, Move.Thread(t, Go), Move.Thread(t, Go));
  }

  lemma MadeMoves(s: State, t: nat, k: Key, m: Shared, p: Promise, serial: nat)
    requires t < |s.threads| && k.One? && p < |m.promises|
    ensures var here, v := At(s, m.(weak := m.weak - {k}), t, Running(Call(k, Make(p)), None)), Archive(k.id, serial);
            var moves := [Move.Thread(t, Makes(serial)), Move.Thread(t, Go), Move.Thread(t, Go), Move.Thread(t, Go)];
            Valid(here, moves) && Play(here, moves) == At(s, Made(m, k, p, v), t, Finished(k, Got(v)))
  {
    var v, before, e, made := Archive(k.id, serial), m.(weak := m.weak - {k}), Entered(m, k, p), Made(m, k, p, Archive(k.id, serial));
    var published := e.(promises := m.promises[p := Outcome.Ready(v)]);
    SoloGoes(s, before, t, Call(k, Make(p)), Makes(serial));
    SoloGoes(s, e, t, Call(k, Publish(p, v, true)), Go);
    SoloGoes(s, published, t, Call(k, Remember(v, p)), Go);
    SoloGoes(s, made, t, Call(k, Wait(p)), Go);
    PlayChain(At(s, before, t, Running(Call(k, Make(p)), None)),
              [Move.Thread(t, Makes(serial)), Move.Thread(t, Go), Move.Thread(t, Go), Move.Thread(t, Go)],
              [At(s, before, t, Running(Call(k, Make(p)), None)), At(s, e, t, Running(Call(k, Publish(p, v, true)), None)),
               At(s, published, t, Running(Call(k, Remember(v, p)), None)), At(s, made, t, Running(Call(k, Wait(p)), None)),
               At(s, made, t, Finished(k, Got(v)))]);
  }

  lemma AllMadeMoves(s: State, t: nat, k: Key, m: Shared, p: Promise, serial: nat) returns (moves: seq<Move>)
    requires Misses(s, t, k) && p == |s.sh.promises| && m == Missed(s.sh, t, k) && p < |m.promises|
    ensures Valid(s, moves) && OnlyMoves(moves, t)
    ensures Play(s, moves) == At(s, Made(m, k, p, Archive(k.id, serial)), t, Finished(k, Got(Archive(k.id, serial))))
  {
    var first := [Move.Thread(t, Go), Move.Thread(t, Go)];
    var rest := [Move.Thread(t, Makes(serial)), Move.Thread(t, Go), Move.Thread(t, Go), Move.Thread(t, Go)];
    ToFactory(s, t, k);
    MadeMoves(s, t, k, m, p, serial);
    PlayAppend(s, first, rest);
    moves := first + rest;
  }

  lemma SoloMade(s: State, t: nat, k: Key, held: set<(Key, Value)>, serial: nat) returns (moves: seq<Move>)
    requires Misses(s, t, k) && !FindsAlive(s.sh, k, held)
    ensures Agrees(s, t, k, held, Some(Archive(k.id, serial)), moves)
  {
    var p: Promise, m := |s.sh.promises|, Missed(s.sh, t, k);
    MissIs(s.sh, t, k);
    moves := AllMadeMoves(s, t, k, m, p, serial);
    MadeEnds(s, t, k, held, Archive(k.id, serial));
  }

  // ---- The factory throws ----------------------------------------------------

  function Dropped(m: Shared, k: Key, p: Promise): Shared {
    DropStep(Entered(m, k, p).(threw := m.threw + {k}), k)
  }

  lemma ThrewEnds(s: State, t: nat, k: Key, held: set<(Key, Value)>, sh: Shared)
    requires Misses(s, t, k) && !FindsAlive(s.sh, k, held)
    requires var d := Dropped(Missed(s.sh, t, k), k, |s.sh.promises|);
             |d.promises| > |s.sh.promises| && sh == d.(promises := d.promises[|s.sh.promises| := Broken])
    ensures Ends(s, t, k, WeakReuse.Access(StoreOf(s.sh, held), k, None), At(s, sh, t, Finished(k, Failed)))
  {
    MissIs(s.sh, t, k);
    SetLast(s.sh.promises, Broken);
    FailedStore(s.sh, sh, k, held);
    MissAccess(s.sh, k, held, None, StoreOf(s.sh, held));
  }

  lemma ThrewMoves(s: State, t: nat, k: Key, m: Shared, p: Promise)
    requires t < |s.threads| && k.One? && p < |m.promises| && p !in m.foreign
    ensures var here, d := At(s, m.(weak := m.weak - {k}), t, Running(Call(k, Make(p)), None)), Dropped(m, k, p);
            var moves := [Move.Thread(t, Throws), Move.Thread(t, Go), Move.Thread(t, Go)];
            Valid(here, moves) && Play(here, moves) == At(s, d.(promises := m.promises[p := Broken]), t, Finished(k, Failed))
  {
    var before, e, d := m.(weak := m.weak - {k}), Entered(m, k, p).(threw := m.threw + {k}), Dropped(m, k, p);
    SoloGoes(s, before, t, Call(k, Make(p)), Throws);
    SoloGoes(s, e, t, Call(k, Forget(p)), Go);
    SoloGoes(s, d, t, Call(k, Unwind(p)), Go);
    PlayThree(At(s, before, t, Running(Call(k, Make(p)), None)), Move.Thread(t, Throws), Move.Thread(t, Go), Move.Thread(t, Go));
  }

  lemma AllThrewMoves(s: State, t: nat, k: Key, m: Shared, p: Promise, sh: Shared) returns (moves: seq<Move>)
    requires Misses(s, t, k) && p == |s.sh.promises| && m == Missed(s.sh, t, k)
    requires p < |m.promises| && sh == Dropped(m, k, p).(promises := m.promises[p := Broken])
    ensures Valid(s, moves) && OnlyMoves(moves, t) && Play(s, moves) == At(s, sh, t, Finished(k, Failed))
  {
    var first := [Move.Thread(t, Go), Move.Thread(t, Go)];
    var rest := [Move.Thread(t, Throws), Move.Thread(t, Go), Move.Thread(t, Go)];
    MissIs(s.sh, t, k);
    ToFactory(s, t, k);
    ThrewMoves(s, t, k, m, p);
    PlayAppend(s, first, rest);
    moves := first + rest;
  }

  lemma SoloThrew(s: State, t: nat, k: Key, held: set<(Key, Value)>) returns (moves: seq<Move>)
    requires Misses(s, t, k) && !FindsAlive(s.sh, k, held)
    ensures Agrees(s, t, k, held, None, moves)
  {
    var p: Promise, m := |s.sh.promises|, Missed(s.sh, t, k);
    MissIs(s.sh, t, k);
    var sh := Dropped(m, k, p).(promises := m.promises[p := Broken]);
    moves := AllThrewMoves(s, t, k, m, p, sh);
    ThrewEnds(s, t, k, held, sh);
  }

  // ---- All together ----------------------------------------------------------

  /** Alone, with every stored placeholder set, a call for an archive ends in the reply and the state
      of the sequential getOrPut, whatever the clients hold and the factory does: with the cached
      value, else the one still alive, else a new one, which is then remembered, else an error. */
  lemma SoloCall(s: State, t: nat, k: Key, held: set<(Key, Value)>, serial: Option<nat>) returns (moves: seq<Move>)
    requires Inv(s) && t < |s.threads| && k.One? && s.threads[t] == Running(Call(k, Pc.Lookup), None) && Settled(s.sh)
    ensures Agrees(s, t, k, held, if serial.None? then None else Some(Archive(k.id, serial.value)), moves)
  {
    var f := if serial.None? then None else Some(Archive(k.id, serial.value));
    match Recency.Lookup(s.sh.archives.items, k)
    case Some(q) =>
      moves := SoloHit(s, t, k, q, held, f);
    case None =>
      if FindsAlive(s.sh, k, held) {
        moves := SoloAlive(s, t, k, held, f);
      } else if serial.Some? {
        moves := SoloMade(s, t, k, held, serial.value);
      } else {
        moves := SoloThrew(s, t, k, held);
      }
  }

  // ---- One request after the other -------------------------------------------

  /** What a single client does; `serial` tells the archive that the factory would make, if any. */
  datatype Request =
    | Ask(id: string, serial: Option<nat>)
    | DropOne(id: string)
    | SetSize(n: nat)
    | LetGo(key: Key, value: Value)

  function MadeBy(id: string, serial: Option<nat>): Option<Value> {
    if serial.None? then None else Some(Archive(id, serial.value))
  }

  /** The same for the sequential cache. */
  function Sequential(r: Request): WeakReuse.Op<Key, Value> {
    match r
    case Ask(id, serial) => WeakReuse.Call(One(id), MadeBy(id, serial))
    case DropOne(id) => WeakReuse.DropKeys((k: Key) => k != One(id))
    case SetSize(n) => WeakReuse.Resize(n)
    case LetGo(k, v) => WeakReuse.Release(k, v)
  }

  function AllSequential(rs: seq<Request>): (ops: seq<WeakReuse.Op<Key, Value>>)
    ensures |ops| == |rs|
  {
    if rs == [] then [] else [Sequential(rs[0])] + AllSequential(rs[1..])
  }

  lemma {:induction false} WithoutIsSelect<K, V>(items: seq<(K, V)>, gone: K, keep: K -> bool)
    requires forall k :: keep(k) <==> k != gone
    ensures Without(items, gone) == Select(items, keep)
  {
    if items != [] {
      WithoutIsSelect(items[1..], gone, keep);
      assert [] + Select(items[1..], keep) == Select(items[1..], keep);
    }
  }

  lemma DropAgrees(sh: Shared, id: string, held: set<(Key, Value)>)
    requires Settled(sh)
    ensures var sh' := DropStep(sh, One(id));
            Settled(sh') && StoreOf(sh', held) == WeakReuse.Step(StoreOf(sh, held), Sequential(DropOne(id)))
  {
    var k := One(id);
    WeakReuse.LookupPair(sh.archives.items, k);
    MappedLookup(sh.archives.items, Reader(sh.promises), k);
    WithoutIsSelect(StoreOf(sh, held).lru.items, k, Sequential(DropOne(id)).keep);
  }

  /** The call of a request, with the reply of the sequential cache. */
  ghost function ReplyTo(store: WeakReuse.Store<Key, Value>, r: Request): seq<Thread> {
    match r
    case Ask(id, serial) =>
      [Finished(One(id), ResultOf(WeakReuse.Access(store, One(id), MadeBy(id, serial)).1))]
    case _ => []
  }

  ghost function Replies(store: WeakReuse.Store<Key, Value>, rs: seq<Request>): seq<Thread>
    decreases |rs|
  {
    if rs == [] then [] else ReplyTo(store, rs[0]) + Replies(WeakReuse.Step(store, Sequential(rs[0])), rs[1..])
  }

  /** A request from a settled state: `moves` serve it, with the reply and the outcome of the
      sequential cache. */
  ghost predicate Serves(s: State, held: set<(Key, Value)>, r: Request, moves: seq<Move>, next: WeakReuse.Store<Key, Value>)
  {
    && Valid(s, moves) && Inv(Play(s, moves)) && Settled(Play(s, moves).sh)
    && next == WeakReuse.Step(StoreOf(s.sh, held), Sequential(r)) == StoreOf(Play(s, moves).sh, next.held)
    && Play(s, moves).threads == s.threads + ReplyTo(StoreOf(s.sh, held), r)
  }

  lemma ServesAsk(s: State, held: set<(Key, Value)>, id: string, serial: Option<nat>) returns (moves: seq<Move>)
    requires Inv(s) && Settled(s.sh)
    ensures Serves(s, held, Ask(id, serial), moves, WeakReuse.Step(StoreOf(s.sh, held), Sequential(Ask(id, serial))))
  {
    var k, t, m := One(id), |s.threads|, Spawn(One(id));
    var here := Do(s, m);
    DoKeepsInv(s, m);
    var solo := SoloCall(here, t, k, held, serial);
    PlayOne(s, m);
    PlayAppend(s, [m], solo);
    PlayKeepsInv(here, solo);
    moves := [m] + solo;
  }

  lemma ServesOther(s: State, held: set<(Key, Value)>, r: Request) returns (moves: seq<Move>)
    requires Inv(s) && Settled(s.sh) && !r.Ask?
    ensures Serves(s, held, r, moves, WeakReuse.Step(StoreOf(s.sh, held), Sequential(r)))
  {
    match r {
      case DropOne(id) =>
        moves := [DropArchive(id)];
        DropAgrees(s.sh, id, held);
        PlayOne(s, DropArchive(id));
        DoKeepsInv(s, DropArchive(id));
      case SetSize(n) =>
        moves := [Resize(true, n)];
        PlayOne(s, Resize(true, n));
        DoKeepsInv(s, Resize(true, n));
      case LetGo(_, _) =>
        moves := [];
    }
  }

  /** Requests one after the other: the protocol can play them, with the replies of the sequential
      cache, and ends where that does. */
  lemma {:induction false} SequentialUse(s: State, held: set<(Key, Value)>, rs: seq<Request>) returns (moves: seq<Move>)
    requires Inv(s) && Settled(s.sh)
    ensures Valid(s, moves) && Settled(Play(s, moves).sh)
    ensures var end := WeakReuse.Run(StoreOf(s.sh, held), AllSequential(rs)); end == StoreOf(Play(s, moves).sh, end.held)
    ensures Play(s, moves).threads == s.threads + Replies(StoreOf(s.sh, held), rs)
    decreases |rs|
  {
    if rs == [] {
      moves := [];
      assert s.threads + [] == s.threads;
    } else {
      var next := WeakReuse.Step(StoreOf(s.sh, held), Sequential(rs[0]));
      var first;
      if rs[0].Ask? {
        first := ServesAsk(s, held, rs[0].id, rs[0].serial);
      } else {
        first := ServesOther(s, held, rs[0]);
      }
      var rest := SequentialUse(Play(s, first), next.held, rs[1..]);
      PlayAppend(s, first, rest);
      moves := first + rest;
      Assoc(s.threads, ReplyTo(StoreOf(s.sh, held), rs[0]), Replies(next, rs[1..]));
      assert AllSequential(rs)[0] == Sequential(rs[0]) && AllSequential(rs)[1..] == AllSequential(rs[1..]);
    }
  }

  /** From a new cache: used by one client at a time, the protocol is the sequential cache. */
  lemma SequentialFromStart(archiveSize: nat, searcherSize: nat, rs: seq<Request>) returns (moves: seq<Move>)
    ensures Valid(Init(archiveSize, searcherSize), moves)
    ensures var e, end := Play(Init(archiveSize, searcherSize), moves),
                          WeakReuse.Run(WeakReuse.Empty<Key, Value>(archiveSize), AllSequential(rs));
            StoreOf(e.sh, end.held) == end && e.threads == Replies(WeakReuse.Empty(archiveSize), rs)
  {
    var s := Init(archiveSize, searcherSize);
    InitOk(archiveSize, searcherSize);
    assert StoreOf(s.sh, {}) == WeakReuse.Empty<Key, Value>(archiveSize);
    moves := SequentialUse(s, {}, rs);
    assert [] + Replies(WeakReuse.Empty(archiveSize), rs) == Replies(WeakReuse.Empty(archiveSize), rs);
  }
}
