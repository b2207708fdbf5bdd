/** The promise protocol of `ConcurrentCache` (src/tools/concurrent_cache.h) as the library
    uses it: a searcher cache whose factory calls the archive cache (src/library.cpp).
    Threads interleave step by step; every lock-protected section is one step. */
module CacheProtocol {
  import opened Seqs
  import opened Recency

  // ---- State -------------------------------------------------------------------

  /** A key of the archive cache, or of the searcher cache. */
  datatype Key = One(id: string) | Many(ids: set<string>)

  datatype Value = Archive(id: string, serial: nat) | Searcher(archives: seq<Value>, serial: nat)

  /** A placeholder (`shared_future`) is named by the order of its creation. */
  type Promise = nat

  datatype Outcome = Pending | Ready(value: Value) | Broken

  /** Where a call of `getOrPut` is. */
  datatype Pc =
    | Lookup                                                  // about to lock and ask the LRU
    | Probe(p: Promise)                                       // miss: about to ask the weak store
    | Make(p: Promise)                                        // about to enter the factory
    | Build(p: Promise, todo: seq<string>, got: seq<Value>)   // in the searcher factory
    | Publish(p: Promise, v: Value, made: bool)               // about to set the promise
    | Remember(v: Value, p: Promise)                          // about to add to the weak store
    | Forget(p: Promise)                                      // std::exception caught: about to drop the key
    | Unwind(p: Promise)                                      // about to destroy the unset promise
    | Wait(p: Promise)                                        // in get()
  {
    /** The placeholder this call still has to resolve. */
    function Owned(): Option<Promise> {
      match this
      case Lookup | Remember(_, _) | Wait(_) => None
      case Probe(p) => Some(p)
      case Make(p) => Some(p)
      case Build(p, _, _) => Some(p)
      case Publish(p, _, _) => Some(p)
      case Forget(p) => Some(p)
      case Unwind(p) => Some(p)
    }
  }

  datatype Call = Call(key: Key, pc: Pc)

  /** Failed: a `std::exception` (or the null pointer made from it); Escaped: anything else. */
  datatype Result = Got(v: Value) | Failed | Escaped

  /** `inner` is the `getArchiveById` call made by a searcher factory. */
  datatype Thread = Running(call: Call, inner: Option<Call>) | Finished(key: Key, result: Result)

  datatype Slot = Slot(t: nat, inner: bool)

  datatype Shared = Shared(
    archives: Cache<Key, Promise>,
    searchers: Cache<Key, Promise>,
    weak: map<Key, Value>,
    promises: seq<Outcome>,
    owner: seq<Key>,          // the key each placeholder was made for
    producer: seq<Slot>,      // the call that made it
    ran: set<Promise>,        // placeholders whose call has entered the factory
    foreign: set<Promise>,    // placeholders whose factory threw something else than std::exception
    threw: set<Key>,          // keys whose factory threw
    runs: seq<Key>,           // factory runs so far
    removed: seq<Key>)        // evictions and drops so far
  {
    function Lru(k: Key): Cache<Key, Promise> {
      if k.One? then archives else searchers
    }

    function WithLru(k: Key, c: Cache<Key, Promise>): Shared {
      if k.One? then this.(archives := c) else this.(searchers := c)
    }

    ghost predicate Stored(p: Promise) {
      p < |promises| && p < |owner| && (owner[p], p) in Lru(owner[p]).items
    }
  }

  datatype State = State(sh: Shared, threads: seq<Thread>)

  // ---- Steps of one call ---------------------------------------------------------

  /** What the scheduler and the outside world decide in a step. */
  datatype Choice =
    | Go
    | WeakAlive                 // the weak pointer can still be locked
    | Makes(serial: nat)        // the factory returns a new object
    | Opens(order: seq<string>) // the searcher factory starts on its ids
    | Throws                    // the factory throws a std::exception
    | Escapes                   // the factory throws something else

  /** Whether `order` lists `ids`, each once. */
  ghost predicate Lists(order: seq<string>, ids: set<string>) {
    Distinct(order) && (forall x :: x in order <==> x in ids)
  }

  ghost predicate CanStep(sh: Shared, c: Call, ch: Choice) {
    && (c.pc.Owned().Some? ==> c.pc.Owned().value < |sh.promises|)
    && match c.pc
       case Probe(_) => ch == Go || (ch == WeakAlive && c.key in sh.weak)
       case Make(_) => if c.key.One? then ch.Makes? || ch == Throws || ch == Escapes else ch.Opens? && Lists(ch.order, c.key.ids)
       case Build(_, todo, _) => todo == [] && (ch.Makes? || ch == Throws || ch == Escapes)
       case Wait(p) => ch == Go && p < |sh.promises| && !sh.promises[p].Pending?
       case _ => ch == Go
  }

  datatype Next = Continue(call: Call) | Return(result: Result)

  /** What `PutMissing` evicts. */
  function Overflow<T>(items: seq<T>, maxSize: nat): seq<T> {
    if |items| <= maxSize then [] else items[maxSize..]
  }

  /** Lines 165-168: the locked lookup. */
  function LookupStep(sh: Shared, slot: Slot, k: Key): (Shared, Next) {
    var lru := sh.Lru(k);
    var p: Promise := |sh.promises|;
    match Recency.Lookup(lru.items, k)
    case Some(q) =>
      (sh.WithLru(k, Touch(lru, k, q)), Continue(Call(k, Wait(q))))
    case None =>
      (sh.WithLru(k, PutMissing(lru, k, p)).(
         promises := sh.promises + [Pending], owner := sh.owner + [k], producer := sh.producer + [slot],
         removed := sh.removed + Keys(Overflow([(k, p)] + lru.items, lru.maxSize))),
       Continue(Call(k, Probe(p))))
  }

  /** The factory of the call for key `k` throws. */
  function ThrowStep(sh: Shared, k: Key, p: Promise, escapes: bool): (Shared, Call) {
    var sh' := sh.(threw := sh.threw + {k});
    if escapes then (sh'.(foreign := sh.foreign + {p}), Call(k, Unwind(p)))
    else (sh', Call(k, Forget(p)))
  }

  /** Lines 188-192: the locked drop. */
  function DropStep(sh: Shared, k: Key): Shared {
    var lru := sh.Lru(k);
    sh.WithLru(k, Drop(lru, k)).(
      removed := sh.removed + if Recency.Lookup(lru.items, k).Some? then [k] else [])
  }

  function CallStep(sh: Shared, slot: Slot, c: Call, ch: Choice): (Shared, Next)
    requires CanStep(sh, c, ch)
  {
    var k := c.key;
    match c.pc
    case Lookup => LookupStep(sh, slot, k)
    case Probe(p) =>
      if ch == WeakAlive then (sh, Continue(Call(k, Publish(p, sh.weak[k], false))))
      else (sh.(weak := sh.weak - {k}), Continue(Call(k, Make(p))))
    case Make(p) =>
      var entered := sh.(ran := sh.ran + {p}, runs := sh.runs + [k]);
      if ch.Makes? then (entered, Continue(Call(k, Publish(p, Archive(k.id, ch.serial), true))))
      else if ch.Opens? then (entered, Continue(Call(k, Build(p, ch.order, []))))
      else var (sh', c') := ThrowStep(entered, k, p, ch == Escapes); (sh', Continue(c'))
    case Build(p, _, got) =>
      if ch.Makes? then (sh, Continue(Call(k, Publish(p, Searcher(got, ch.serial), true))))
      else var (sh', c') := ThrowStep(sh, k, p, ch == Escapes); (sh', Continue(c'))
    case Publish(p, v, made) =>
      (sh.(promises := sh.promises[p := Ready(v)]), Continue(Call(k, if made then Remember(v, p) else Wait(p))))
    case Remember(v, p) => (sh.(weak := sh.weak[k := v]), Continue(Call(k, Wait(p))))
    case Forget(p) => (DropStep(sh, k), Continue(Call(k, Unwind(p))))
    case Unwind(p) => (sh.(promises := sh.promises[p := Broken]), Return(if p in sh.foreign then Escaped else Failed))
    case Wait(p) => (sh, Return(if sh.promises[p].Ready? then Got(sh.promises[p].value) else Failed))
  }

  // ---- Steps of a thread -----------------------------------------------------------

  /** A searcher factory with ids left calls `getArchiveById` for the next one. */
  predicate Nests(c: Call) {
    c.pc.Build? && c.pc.todo != []
  }

  ghost predicate CanMove(s: State, t: nat, ch: Choice) {
    && t < |s.threads| && s.threads[t].Running?
    && match s.threads[t].inner
       case Some(c) => Nests(s.threads[t].call) && CanStep(s.sh, c, ch)
       case None => if Nests(s.threads[t].call) then ch == Go else CanStep(s.sh, s.threads[t].call, ch)
  }

  /** The factory goes on with what `getArchiveById` gave it. */
  function Resume(sh: Shared, c: Call, r: Result): (Shared, Call)
    requires Nests(c)
  {
    match r
    case Got(v) => (sh, Call(c.key, Build(c.pc.p, c.pc.todo[1..], c.pc.got + [v])))
    case Failed => ThrowStep(sh, c.key, c.pc.p, false)
    case Escaped => ThrowStep(sh, c.key, c.pc.p, true)
  }

  function MoveThread(s: State, t: nat, ch: Choice): State
    requires CanMove(s, t, ch)
  {
    var call := s.threads[t].call;
    match s.threads[t].inner
    case Some(c) =>
      (match CallStep(s.sh, Slot(t, true), c, ch)
       case (sh, Continue(c')) => State(sh, s.threads[t := Running(call, Some(c'))])
       case (sh, Return(r)) => var (sh', call') := Resume(sh, call, r); State(sh', s.threads[t := Running(call', None)]))
    case None =>
      if Nests(call) then
        s.(threads := s.threads[t := Running(call, Some(Call(One(call.pc.todo[0]), Lookup)))])
      else
        match CallStep(s.sh, Slot(t, false), call, ch)
        case (sh, Continue(c')) => State(sh, s.threads[t := Running(c', None)])
        case (sh, Return(r)) => State(sh, s.threads[t := Finished(call.key, r)])
  }

  // ---- Everything that can happen ----------------------------------------------------

  /** Whether `MultiKeyCache::drop(id)` leaves the key alone. */
  predicate Lacks(k: Key, id: string) {
    !(k.Many? && id in k.ids)
  }

  datatype Move =
    | Thread(t: nat, ch: Choice)
    | Spawn(key: Key)                    // a new getArchiveById or getSearcherByIds call
    | DropArchive(id: string)            // dropCache, first half
    | DropSearchers(id: string)          // dropCache, second half: every set with the id
    | Resize(archives: bool, n: nat)     // setMaxSize

  ghost predicate CanDo(s: State, m: Move) {
    m.Thread? ==> CanMove(s, m.t, m.ch)
  }

  function Do(s: State, m: Move): State
    requires CanDo(s, m)
  {
    match m
    case Thread(t, ch) => MoveThread(s, t, ch)
    case Spawn(k) => s.(threads := s.threads + [Running(Call(k, Lookup), None)])
    case DropArchive(id) => s.(sh := DropStep(s.sh, One(id)))
    case DropSearchers(id) =>
      var items := s.sh.searchers.items;
      s.(sh := s.sh.(searchers := s.sh.searchers.(items := Select(items, k => Lacks(k, id))),
                     removed := s.sh.removed + Keys(Select(items, k => !Lacks(k, id)))))
    case Resize(a, n) =>
      if a then s.(sh := s.sh.(archives := SetMaxSize(s.sh.archives, n)))
      else s.(sh := s.sh.(searchers := SetMaxSize(s.sh.searchers, n)))
  }

  function Init(archiveSize: nat, searcherSize: nat): State {
    State(Shared(Cache([], archiveSize), Cache([], searcherSize), map[], [], [], [], {}, {}, {}, [], []), [])
  }

  /** `moves` can be played from `s`, in order. */
  ghost predicate Valid(s: State, moves: seq<Move>)
    decreases |moves|
  {
    moves == [] || (CanDo(s, moves[0]) && Valid(Do(s, moves[0]), moves[1..]))
  }

  function Play(s: State, moves: seq<Move>): State
    requires Valid(s, moves)
    decreases |moves|
  {
    if moves == [] then s else Play(Do(s, moves[0]), moves[1..])
  }

  // ---- The invariant of the protocol ---------------------------------------------------

  ghost predicate LruOk(owner: seq<Key>, c: Cache<Key, Promise>, archives: bool) {
    && Distinct(Keys(c.items))
    && (forall x | x in c.items :: x.0.One? == archives && x.1 < |owner| && owner[x.1] == x.0)
  }

  ghost predicate SharedOk(sh: Shared) {
    && |sh.owner| == |sh.promises| == |sh.producer|
    && LruOk(sh.owner, sh.archives, true) && LruOk(sh.owner, sh.searchers, false)
    && (forall p | 0 <= p < |sh.promises| && sh.promises[p].Broken? ::
          sh.owner[p] in sh.threw && (p in sh.foreign || !sh.Stored(p)))
    && (forall p | p in sh.foreign :: p < |sh.promises| && !sh.promises[p].Ready?)
    && (forall p | p in sh.ran :: p < |sh.promises|)
  }

  ghost predicate CallOk(sh: Shared, slot: Slot, c: Call) {
    match c.pc.Owned()
    case Some(p) =>
      && p < |sh.promises| && |sh.owner| == |sh.promises| == |sh.producer|
      && sh.promises[p].Pending? && sh.producer[p] == slot && sh.owner[p] == c.key
      && (c.pc.Build? ==> c.key.Many?)
      && (c.pc.Unwind? || p !in sh.foreign)
      && (c.pc.Probe? || c.pc.Make? ==> p !in sh.ran)
      && (c.pc.Forget? || c.pc.Unwind? ==> c.key in sh.threw)
      && (c.pc.Unwind? && p !in sh.foreign ==> !sh.Stored(p))
    case None =>
      c.pc.Lookup? || (c.pc.p < |sh.promises| && c.pc.p < |sh.owner| && sh.owner[c.pc.p] == c.key)
  }

  function OwnedBy(c: Option<Call>): Option<Promise> {
    if c.Some? then c.value.pc.Owned() else None
  }

  /** The pending placeholders made by the call at `slot` are exactly what it still owns. */
  ghost predicate SlotOk(sh: Shared, slot: Slot, c: Option<Call>) {
    && (c.Some? ==> CallOk(sh, slot, c.value))
    && (forall p | 0 <= p < |sh.promises| && p < |sh.producer| && sh.producer[p] == slot && sh.promises[p].Pending? ::
          OwnedBy(c) == Some(p))
  }

  function CallAt(threads: seq<Thread>, slot: Slot): Option<Call> {
    if slot.t < |threads| && threads[slot.t].Running? then
      if slot.inner then threads[slot.t].inner else Some(threads[slot.t].call)
    else None
  }

  ghost predicate ThreadOk(sh: Shared, th: Thread) {
    match th
    case Running(call, Some(c)) => Nests(call) && c.key == One(call.pc.todo[0])
    case Running(_, None) => true
    case Finished(k, r) => r.Got? || k in sh.threw
  }

  ghost predicate Inv(s: State) {
    && SharedOk(s.sh)
    && (forall slot :: SlotOk(s.sh, slot, CallAt(s.threads, slot)))
    && (forall t | 0 <= t < |s.threads| :: ThreadOk(s.sh, s.threads[t]))
  }

  /** What a step of the call at `slot` may do to the placeholders of other calls: nothing,
      except that stored ones may leave the caches. */
  ghost predicate Evolves(sh: Shared, sh': Shared, slot: Option<Slot>)
    requires SharedOk(sh) && SharedOk(sh')
  {
    && |sh.promises| <= |sh'.promises|
    && sh.threw <= sh'.threw
    && (forall p | 0 <= p < |sh.promises| ::
          && sh'.owner[p] == sh.owner[p] && sh'.producer[p] == sh.producer[p]
          && (sh'.Stored(p) ==> sh.Stored(p))
          && (slot == Some(sh.producer[p]) || (sh'.promises[p] == sh.promises[p]
                && (p in sh'.foreign <==> p in sh.foreign) && (p in sh'.ran <==> p in sh.ran))))
    && (forall p | |sh.promises| <= p < |sh'.promises| :: slot == Some(sh'.producer[p]))
  }

  lemma OtherSlotOk(sh: Shared, sh': Shared, moved: Option<Slot>, slot: Slot, c: Option<Call>)
    requires SharedOk(sh) && SharedOk(sh') && Evolves(sh, sh', moved) && moved != Some(slot)
    requires SlotOk(sh, slot, c)
    ensures SlotOk(sh', slot, c)
  {
  }

  // ---- LRU facts -------------------------------------------------------------------

  lemma {:induction false} PairWithout(items: seq<(Key, Promise)>, k: Key)
    ensures forall x :: x in Without(items, k) <==> x in items && x.0 != k
  {
    if items != [] {
      assert items == [items[0]] + items[1..];
      PairWithout(items[1..], k);
    }
  }

  lemma {:induction false} PairFound(items: seq<(Key, Promise)>, k: Key)
    ensures match Recency.Lookup(items, k)
            case Some(p) => (k, p) in items
            case None => forall x | x in items :: x.0 != k
  {
    if items != [] {
      assert items == [items[0]] + items[1..];
      PairFound(items[1..], k);
    }
  }

  lemma LruDrop(owner: seq<Key>, c: Cache<Key, Promise>, k: Key, archives: bool)
    requires LruOk(owner, c, archives)
    ensures LruOk(owner, Drop(c, k), archives)
    ensures forall x | x in Drop(c, k).items :: x in c.items && x.0 != k
  {
    PairWithout(c.items, k);
    KeysWithout(c.items, k);
    RemoveKeyDistinct(Keys(c.items), k);
  }

  lemma LruTouch(owner: seq<Key>, c: Cache<Key, Promise>, k: Key, p: Promise, archives: bool)
    requires LruOk(owner, c, archives) && Recency.Lookup(c.items, k) == Some(p)
    ensures (k, p) in c.items && LruOk(owner, Touch(c, k, p), archives)
    ensures forall x | x in Touch(c, k, p).items :: x in c.items
  {
    PairFound(c.items, k);
    PairWithout(c.items, k);
    KeysStep(c, OpGet(k));
    var op: Op<Key, Promise> := OpGet(k);
    KeysAfterDistinct(Keys(c.items), c.maxSize, op);
  }

  lemma LruInsert(owner: seq<Key>, c: Cache<Key, Promise>, k: Key, archives: bool)
    requires LruOk(owner, c, archives) && Recency.Lookup(c.items, k) == None && k.One? == archives
    ensures LruOk(owner + [k], PutMissing(c, k, |owner|), archives)
    ensures forall x | x in PutMissing(c, k, |owner|).items :: x in c.items || x == (k, |owner|)
  {
    KeysStep(c, OpPut(k, |owner|));
    var op := OpPut(k, |owner|);
    KeysAfterDistinct(Keys(c.items), c.maxSize, op);
  }

  // ---- One call keeps the invariant -----------------------------------------------------

  function OwnedNext(n: Next): Option<Call> {
    if n.Continue? then Some(n.call) else None
  }

  /** What a step of the call at `slot` must establish. */
  ghost predicate StepOk(sh: Shared, slot: Slot, c: Call, r: (Shared, Next))
    requires SharedOk(sh)
  {
    && SharedOk(r.0) && Evolves(sh, r.0, Some(slot)) && SlotOk(r.0, slot, OwnedNext(r.1))
    && (r.1.Continue? ==> r.1.call.key == c.key)
    && (r.1.Return? && !r.1.result.Got? ==> c.key in r.0.threw)
  }

  /** `sh'` differs from `sh` in the caches only. */
  ghost predicate SameBooks(sh: Shared, sh': Shared) {
    && sh'.promises == sh.promises && sh'.owner == sh.owner && sh'.producer == sh.producer
    && sh'.ran == sh.ran && sh'.foreign == sh.foreign && sh'.threw == sh.threw
    && LruOk(sh'.owner, sh'.archives, true) && LruOk(sh'.owner, sh'.searchers, false)
  }

  ghost predicate NoNewPairs(sh: Shared, sh': Shared, except: (Key, Promise)) {
    && (forall x | x in sh'.archives.items :: x in sh.archives.items || x == except)
    && (forall x | x in sh'.searchers.items :: x in sh.searchers.items || x == except)
  }

  lemma ShrinkOk(sh: Shared, sh': Shared, slot: Option<Slot>)
    requires SharedOk(sh) && SameBooks(sh, sh')
    requires forall x | x in sh'.archives.items :: x in sh.archives.items
    requires forall x | x in sh'.searchers.items :: x in sh.searchers.items
    ensures SharedOk(sh') && Evolves(sh, sh', slot)
  {
    assert forall p :: sh'.Stored(p) ==> sh.Stored(p);
  }

  /** Putting a new, pending placeholder into a cache. */
  lemma StoreOk(sh: Shared, mid: Shared, sh': Shared, slot: Slot)
    requires SharedOk(sh) && SharedOk(mid) && SameBooks(mid, sh') && Evolves(sh, mid, Some(slot))
    requires |mid.promises| == |sh.promises| + 1 && mid.promises[|sh.promises|] == Pending
    requires NoNewPairs(mid, sh', (mid.owner[|sh.promises|], |sh.promises|))
    ensures SharedOk(sh') && Evolves(sh, sh', Some(slot))
  {
    assert forall p :: p != |sh.promises| && sh'.Stored(p) ==> mid.Stored(p);
  }

  lemma SameSlotOk(mid: Shared, sh': Shared, slot: Slot, c: Call)
    requires SameBooks(mid, sh') && SlotOk(mid, slot, Some(c)) && !c.pc.Unwind?
    ensures SlotOk(sh', slot, Some(c))
  {
  }

  /** The call turns to waiting for a placeholder made for its key. */
  lemma HitSlotOk(sh: Shared, sh': Shared, slot: Slot, c: Call, q: Promise)
    requires SameBooks(sh, sh') && SlotOk(sh, slot, Some(c)) && c.pc.Lookup?
    requires q < |sh.promises| && q < |sh.owner| && sh.owner[q] == c.key
    ensures SlotOk(sh', slot, Some(Call(c.key, Wait(q))))
  {
  }

  lemma LookupHitOk(sh: Shared, slot: Slot, c: Call)
    requires SharedOk(sh) && SlotOk(sh, slot, Some(c)) && c.pc.Lookup?
    ensures Recency.Lookup(sh.Lru(c.key).items, c.key).Some? ==> StepOk(sh, slot, c, LookupStep(sh, slot, c.key))
  {
    if Recency.Lookup(sh.Lru(c.key).items, c.key).Some? {
      var q, sh' := Recency.Lookup(sh.Lru(c.key).items, c.key).value, LookupStep(sh, slot, c.key).0;
      LruTouch(sh.owner, sh.Lru(c.key), c.key, q, c.key.One?);
      assert SameBooks(sh, sh');
      ShrinkOk(sh, sh', Some(slot));
      HitSlotOk(sh, sh', slot, c, q);
    }
  }

  /** The new placeholder of a miss, before it goes into a cache. */
  function Added(sh: Shared, slot: Slot, k: Key): Shared {
    sh.(promises := sh.promises + [Pending], owner := sh.owner + [k], producer := sh.producer + [slot])
  }

  lemma AddedOk(sh: Shared, slot: Slot, c: Call)
    requires SharedOk(sh) && SlotOk(sh, slot, Some(c)) && c.pc.Lookup?
    ensures StepOk(sh, slot, c, (Added(sh, slot, c.key), Continue(Call(c.key, Probe(|sh.promises|)))))
  {
    var sh' := Added(sh, slot, c.key);
    assert forall p | 0 <= p < |sh.promises| ::
        sh'.owner[p] == sh.owner[p] && sh'.producer[p] == sh.producer[p] && sh'.promises[p] == sh.promises[p];
  }

  lemma LookupMissOk(sh: Shared, slot: Slot, c: Call)
    requires SharedOk(sh) && SlotOk(sh, slot, Some(c)) && c.pc.Lookup?
    requires Recency.Lookup(sh.Lru(c.key).items, c.key) == None
    ensures StepOk(sh, slot, c, LookupStep(sh, slot, c.key))
  {
    var k := c.key;
    var mid, r := Added(sh, slot, k), LookupStep(sh, slot, k);
    AddedOk(sh, slot, c);
    LruInsert(sh.owner, sh.Lru(k), k, k.One?);
    assert SameBooks(mid, r.0);
    StoreOk(sh, mid, r.0, slot);
    SameSlotOk(mid, r.0, slot, r.1.call);
  }

  /** A step that only records something about the caller's own placeholder. */
  lemma ThrowStepOk(sh: Shared, slot: Slot, c: Call, p: Promise, escapes: bool)
    requires SharedOk(sh) && SlotOk(sh, slot, Some(c)) && c.pc.Owned() == Some(p) && !c.pc.Unwind?
    ensures var (sh', c') := ThrowStep(sh, c.key, p, escapes); StepOk(sh, slot, c, (sh', Continue(c')))
  {
    var sh' := ThrowStep(sh, c.key, p, escapes).0;
    assert forall q :: sh'.Stored(q) == sh.Stored(q);
  }

  lemma EnterOk(sh: Shared, slot: Slot, c: Call, p: Promise, pc: Pc)
    requires SharedOk(sh) && SlotOk(sh, slot, Some(c)) && c.pc == Make(p)
    requires pc.Owned() == Some(p) && !pc.Unwind? && !pc.Forget? && !pc.Probe? && !pc.Make? && (pc.Build? ==> c.key.Many?)
    ensures StepOk(sh, slot, c, (sh.(ran := sh.ran + {p}, runs := sh.runs + [c.key]), Continue(Call(c.key, pc))))
  {
    var sh' := sh.(ran := sh.ran + {p}, runs := sh.runs + [c.key]);
    assert forall q :: sh'.Stored(q) == sh.Stored(q);
  }

  lemma MakeOk(sh: Shared, slot: Slot, c: Call, ch: Choice)
    requires SharedOk(sh) && SlotOk(sh, slot, Some(c)) && c.pc.Make? && CanStep(sh, c, ch)
    ensures StepOk(sh, slot, c, CallStep(sh, slot, c, ch))
  {
    var p := c.pc.p;
    if ch.Makes? {
      EnterOk(sh, slot, c, p, Publish(p, Archive(c.key.id, ch.serial), true));
    } else if ch.Opens? {
      EnterOk(sh, slot, c, p, Build(p, ch.order, []));
    } else {
      var entered := sh.(ran := sh.ran + {p}, runs := sh.runs + [c.key]);
      var v := Archive("", 0);
      EnterOk(sh, slot, c, p, Publish(p, v, true));
      ThrowStepOk(entered, slot, Call(c.key, Publish(p, v, true)), p, ch == Escapes);
      EvolvesTwice(sh, entered, CallStep(sh, slot, c, ch).0, slot);
    }
  }

  lemma EvolvesTwice(a: Shared, b: Shared, c: Shared, slot: Slot)
    requires SharedOk(a) && SharedOk(b) && SharedOk(c) && Evolves(a, b, Some(slot)) && Evolves(b, c, Some(slot))
    ensures Evolves(a, c, Some(slot))
  {
    assert forall p | 0 <= p < |a.promises| :: b.producer[p] == a.producer[p];
  }

  /** Setting the promise, or breaking it once it is out of the caches. */
  lemma ResolveOk(sh: Shared, slot: Slot, c: Call, p: Promise, o: Outcome, n: Next)
    requires SharedOk(sh) && SlotOk(sh, slot, Some(c)) && c.pc.Owned() == Some(p)
    requires (o.Ready? && c.pc.Publish?) || (o.Broken? && c.pc.Unwind?)
    requires n.Continue? ==> n.call.key == c.key && n.call.pc.Owned() == None && !n.call.pc.Lookup? && n.call.pc.p == p
    requires n.Return? ==> c.pc.Unwind?
    ensures StepOk(sh, slot, c, (sh.(promises := sh.promises[p := o]), n))
  {
    var sh' := sh.(promises := sh.promises[p := o]);
    assert forall q :: sh'.Stored(q) == sh.Stored(q);
  }

  lemma DropStepOk(sh: Shared, k: Key, slot: Option<Slot>)
    requires SharedOk(sh)
    ensures SharedOk(DropStep(sh, k)) && Evolves(sh, DropStep(sh, k), slot) && SameBooks(sh, DropStep(sh, k))
    ensures forall p: nat | DropStep(sh, k).Stored(p) :: sh.owner[p] != k
  {
    LruDrop(sh.owner, sh.Lru(k), k, k.One?);
    var sh' := DropStep(sh, k);
    ShrinkOk(sh, sh', slot);
    forall p: nat | sh'.Stored(p)
      ensures sh.owner[p] != k
    {
      assert (sh.owner[p], p) in sh'.Lru(sh.owner[p]).items;
    }
  }

  lemma ForgetOk(sh: Shared, slot: Slot, c: Call)
    requires SharedOk(sh) && SlotOk(sh, slot, Some(c)) && c.pc.Forget?
    ensures StepOk(sh, slot, c, CallStep(sh, slot, c, Go))
  {
    DropStepOk(sh, c.key, Some(slot));
  }

  lemma WeakOnlyOk(sh: Shared, weak: map<Key, Value>, slot: Slot, c: Call, pc: Pc)
    requires SharedOk(sh) && SlotOk(sh, slot, Some(c))
    requires (c.pc.Probe? && (pc == Make(c.pc.p) || (pc.Publish? && pc.p == c.pc.p)))
          || (c.pc.Remember? && pc == Wait(c.pc.p))
    ensures StepOk(sh, slot, c, (sh.(weak := weak), Continue(Call(c.key, pc))))
  {
    ShrinkOk(sh, sh.(weak := weak), Some(slot));
  }

  lemma CallStepOk(sh: Shared, slot: Slot, c: Call, ch: Choice)
    requires SharedOk(sh) && SlotOk(sh, slot, Some(c)) && CanStep(sh, c, ch)
    ensures StepOk(sh, slot, c, CallStep(sh, slot, c, ch))
  {
    var r := CallStep(sh, slot, c, ch);
    match c.pc {
      case Lookup =>
        match Recency.Lookup(sh.Lru(c.key).items, c.key) {
          case Some(_) => LookupHitOk(sh, slot, c);
          case None => LookupMissOk(sh, slot, c);
        }
      case Probe(p) => WeakOnlyOk(sh, r.0.weak, slot, c, r.1.call.pc);
      case Make(_) => MakeOk(sh, slot, c, ch);
      case Build(p, _, got) =>
        if ch.Makes? {
          ShrinkOk(sh, sh, Some(slot));
        } else {
          ThrowStepOk(sh, slot, c, p, ch == Escapes);
        }
      case Publish(p, v, _) => ResolveOk(sh, slot, c, p, Ready(v), r.1);
      case Remember(_, _) => WeakOnlyOk(sh, r.0.weak, slot, c, r.1.call.pc);
      case Forget(_) => ForgetOk(sh, slot, c);
      case Unwind(p) => ResolveOk(sh, slot, c, p, Broken, r.1);
      case Wait(_) => ShrinkOk(sh, sh, Some(slot));
    }
  }

  // ---- Threads keep the invariant ---------------------------------------------------------

  /** The threads other than `t`, after a step that evolved the shared state. */
  ghost predicate OthersOk(sh: Shared, threads: seq<Thread>, t: nat) {
    && (forall slot: Slot | slot.t != t :: SlotOk(sh, slot, CallAt(threads, slot)))
    && (forall u | 0 <= u < |threads| && u != t :: ThreadOk(sh, threads[u]))
  }

  lemma OthersEvolve(sh: Shared, sh': Shared, threads: seq<Thread>, slot: Slot)
    requires SharedOk(sh) && SharedOk(sh') && Evolves(sh, sh', Some(slot)) && OthersOk(sh, threads, slot.t)
    ensures OthersOk(sh', threads, slot.t)
  {
    forall other: Slot | other.t != slot.t
      ensures SlotOk(sh', other, CallAt(threads, other))
    {
      OtherSlotOk(sh, sh', Some(slot), other, CallAt(threads, other));
    }
  }

  /** Putting one thread back among the others. */
  lemma Assemble(sh: Shared, threads: seq<Thread>, t: nat, th: Thread)
    requires SharedOk(sh) && t < |threads| && OthersOk(sh, threads, t) && ThreadOk(sh, th)
    requires SlotOk(sh, Slot(t, false), if th.Running? then Some(th.call) else None)
    requires SlotOk(sh, Slot(t, true), if th.Running? then th.inner else None)
    ensures Inv(State(sh, threads[t := th]))
  {
    var threads' := threads[t := th];
    forall slot: Slot
      ensures SlotOk(sh, slot, CallAt(threads', slot))
    {
      if slot.t == t {
        assert slot == Slot(t, slot.inner);
      } else {
        assert CallAt(threads', slot) == CallAt(threads, slot);
      }
    }
  }

  lemma ResumeOk(sh: Shared, t: nat, c: Call, r: Result)
    requires SharedOk(sh) && Nests(c) && SlotOk(sh, Slot(t, false), Some(c)) && SlotOk(sh, Slot(t, true), None)
    ensures var (sh', c') := Resume(sh, c, r);
            && SharedOk(sh') && Evolves(sh, sh', Some(Slot(t, false)))
            && SlotOk(sh', Slot(t, false), Some(c')) && SlotOk(sh', Slot(t, true), None)
  {
    if r.Got? {
      ShrinkOk(sh, sh, Some(Slot(t, false)));
    } else {
      ThrowStepOk(sh, Slot(t, false), c, c.pc.p, r.Escaped?);
      OtherSlotOk(sh, Resume(sh, c, r).0, Some(Slot(t, false)), Slot(t, true), None);
    }
  }

  lemma InnerMoveOk(s: State, t: nat, ch: Choice)
    requires Inv(s) && CanMove(s, t, ch) && s.threads[t].inner.Some?
    ensures Inv(MoveThread(s, t, ch))
  {
    var sh, call, c := s.sh, s.threads[t].call, s.threads[t].inner.value;
    var outer, inner := Slot(t, false), Slot(t, true);
    assert CallAt(s.threads, outer) == Some(call) && CallAt(s.threads, inner) == Some(c);
    CallStepOk(sh, inner, c, ch);
    var (sh1, next) := CallStep(sh, inner, c, ch);
    OtherSlotOk(sh, sh1, Some(inner), outer, Some(call));
    OthersEvolve(sh, sh1, s.threads, inner);
    match next {
      case Continue(c') =>
        Assemble(sh1, s.threads, t, Running(call, Some(c')));
      case Return(r) =>
        ResumeOk(sh1, t, call, r);
        var (sh2, call') := Resume(sh1, call, r);
        OthersEvolve(sh1, sh2, s.threads, outer);
        Assemble(sh2, s.threads, t, Running(call', None));
    }
  }

  lemma OuterMoveOk(s: State, t: nat, ch: Choice)
    requires Inv(s) && CanMove(s, t, ch) && s.threads[t].inner.None?
    ensures Inv(MoveThread(s, t, ch))
  {
    var sh, call := s.sh, s.threads[t].call;
    var outer, inner := Slot(t, false), Slot(t, true);
    assert CallAt(s.threads, outer) == Some(call) && CallAt(s.threads, inner) == None;
    if Nests(call) {
      var c := Call(One(call.pc.todo[0]), Lookup);
      assert SlotOk(sh, inner, Some(c));
      Assemble(sh, s.threads, t, Running(call, Some(c)));
    } else {
      CallStepOk(sh, outer, call, ch);
      var (sh1, next) := CallStep(sh, outer, call, ch);
      OtherSlotOk(sh, sh1, Some(outer), inner, None);
      OthersEvolve(sh, sh1, s.threads, outer);
      match next {
        case Continue(c') => Assemble(sh1, s.threads, t, Running(c', None));
        case Return(r) => Assemble(sh1, s.threads, t, Finished(call.key, r));
      }
    }
  }

  /** A step outside the calls, which can only take pairs out of the caches. */
  lemma OutsideOk(s: State, sh': Shared)
    requires Inv(s) && SameBooks(s.sh, sh')
    requires forall x | x in sh'.archives.items :: x in s.sh.archives.items
    requires forall x | x in sh'.searchers.items :: x in s.sh.searchers.items
    ensures Inv(State(sh', s.threads))
  {
    ShrinkOk(s.sh, sh', None);
    forall slot: Slot
      ensures SlotOk(sh', slot, CallAt(s.threads, slot))
    {
      OtherSlotOk(s.sh, sh', None, slot, CallAt(s.threads, slot));
    }
  }

  lemma DoKeepsInv(s: State, m: Move)
    requires Inv(s) && CanDo(s, m)
    ensures Inv(Do(s, m))
  {
    match m {
      case Thread(t, ch) =>
        if s.threads[t].inner.Some? { InnerMoveOk(s, t, ch); } else { OuterMoveOk(s, t, ch); }
      case Spawn(k) => SpawnOk(s, k);
      case DropArchive(id) =>
        LruDrop(s.sh.owner, s.sh.archives, One(id), true);
        OutsideOk(s, DropStep(s.sh, One(id)));
      case DropSearchers(id) =>
        KeysSelect(s.sh.searchers.items, k => Lacks(k, id));
        WhereDistinct(Keys(s.sh.searchers.items), k => Lacks(k, id));
        OutsideOk(s, Do(s, m).sh);
      case Resize(_, _) => OutsideOk(s, Do(s, m).sh);
    }
  }

  lemma SpawnOk(s: State, k: Key)
    requires Inv(s)
    ensures Inv(Do(s, Spawn(k)))
  {
    var threads := Do(s, Spawn(k)).threads;
    var n := |s.threads|;
    forall slot: Slot
      ensures SlotOk(s.sh, slot, CallAt(threads, slot))
    {
      assert SlotOk(s.sh, slot, CallAt(s.threads, slot));
      if slot.t != n {
        assert CallAt(threads, slot) == CallAt(s.threads, slot);
      }
    }
  }

  lemma {:induction false} PlayKeepsInv(s: State, moves: seq<Move>)
    requires Inv(s) && Valid(s, moves)
    ensures Inv(Play(s, moves))
    decreases |moves|
  {
    if moves != [] {
      DoKeepsInv(s, moves[0]);
      PlayKeepsInv(Do(s, moves[0]), moves[1..]);
    }
  }
}
