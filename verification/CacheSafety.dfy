/** What the stacked caches guarantee in every interleaving, whatever the factories do. */
module CacheSafety {
  import opened Seqs
  import opened Recency
  import opened CacheProtocol

  // ---- Failing factories ---------------------------------------------------------

  lemma InitOk(archiveSize: nat, searcherSize: nat)
    ensures Inv(Init(archiveSize, searcherSize))
  {
  }

  /** In every run: a stored placeholder that is broken was left behind by a factory that
      threw something other than std::exception; a stored placeholder that is pending has
      one live producer, and no other call owns it. */
  lemma NeverPoisoned(archiveSize: nat, searcherSize: nat, moves: seq<Move>, p: Promise)
    requires Valid(Init(archiveSize, searcherSize), moves)
    requires Play(Init(archiveSize, searcherSize), moves).sh.Stored(p)
    ensures var s := Play(Init(archiveSize, searcherSize), moves);
            && (s.sh.promises[p].Broken? ==> p in s.sh.foreign)
            && (s.sh.promises[p].Ready? ==> p !in s.sh.foreign)
            && (s.sh.promises[p].Pending? ==> p < |s.sh.producer|)
            && (s.sh.promises[p].Pending? ==>
                  forall slot :: OwnedBy(CallAt(s.threads, slot)) == Some(p) <==> slot == s.sh.producer[p])
  {
    InitOk(archiveSize, searcherSize);
    PlayKeepsInv(Init(archiveSize, searcherSize), moves);
    var s := Play(Init(archiveSize, searcherSize), moves);
    assert p < |s.sh.promises|;
    forall slot
      ensures s.sh.promises[p].Pending? ==> (OwnedBy(CallAt(s.threads, slot)) == Some(p) <==> slot == s.sh.producer[p])
    {
      assert SlotOk(s.sh, slot, CallAt(s.threads, slot));
    }
  }

  lemma CalmCall(sh: Shared, slot: Slot, c: Call, ch: Choice)
    requires CanStep(sh, c, ch) && sh.foreign == {} && ch != Escapes
    ensures CallStep(sh, slot, c, ch).0.foreign == {} && CallStep(sh, slot, c, ch).1 != Return(Result.Escaped)
  {
  }

  lemma CalmStep(s: State, m: Move)
    requires Inv(s) && CanDo(s, m) && s.sh.foreign == {} && !(m.Thread? && m.ch == Escapes)
    ensures Do(s, m).sh.foreign == {}
  {
    if m.Thread? {
      match s.threads[m.t].inner {
        case Some(c) => CalmCall(s.sh, Slot(m.t, true), c, m.ch);
        case None => if !Nests(s.threads[m.t].call) { CalmCall(s.sh, Slot(m.t, false), s.threads[m.t].call, m.ch); }
      }
    }
  }

  /** As long as factories throw only std::exception, no stored placeholder is ever broken. */
  lemma {:induction false} StandardExceptionsNeverPoison(s: State, moves: seq<Move>)
    requires Inv(s) && Valid(s, moves) && s.sh.foreign == {}
    requires forall m | m in moves :: !(m.Thread? && m.ch == Escapes)
    ensures var s' := Play(s, moves);
            s'.sh.foreign == {} && forall p: nat | s'.sh.Stored(p) :: !s'.sh.promises[p].Broken?
    decreases |moves|
  {
    if moves != [] {
      CalmStep(s, moves[0]);
      DoKeepsInv(s, moves[0]);
      StandardExceptionsNeverPoison(Do(s, moves[0]), moves[1..]);
    }
  }

  /** `c` is in a factory of its own: an archive factory, or a searcher factory that has all its
      archives. */
  predicate InFactory(c: Call) {
    (c.pc.Make? && c.key.One?) || (c.pc.Build? && c.pc.todo == [])
  }

  /** The factory throws something foreign, and its call unwinds. */
  lemma EscapeUnwinds(s: State, t: nat, p: Promise)
    requires Inv(s) && t < |s.threads| && s.threads[t].Running? && s.threads[t].inner == None
    requires InFactory(s.threads[t].call) && s.threads[t].call.pc.p == p && s.sh.Stored(p)
    ensures CanMove(s, t, Escapes)
    ensures var s1 := MoveThread(s, t, Escapes);
            && s1.threads == s.threads[t := Running(Call(s.threads[t].call.key, Unwind(p)), None)]
            && p < |s1.sh.promises| && p in s1.sh.foreign && s1.sh.Stored(p)
  {
    CurrentCallOk(s, t);
    assert ThreadOk(s.sh, s.threads[t]);
  }

  lemma UnwindBreaks(s: State, t: nat, p: Promise)
    requires Inv(s) && t < |s.threads| && s.threads[t].Running? && s.threads[t].inner == None
    requires s.threads[t].call.pc == Unwind(p) && p in s.sh.foreign && s.sh.Stored(p)
    ensures CanMove(s, t, Go)
    ensures var s2 := MoveThread(s, t, Go);
            && s2.threads == s.threads[t := Finished(s.threads[t].call.key, Result.Escaped)]
            && s2.sh.Stored(p) && s2.sh.promises[p].Broken?
  {
    CurrentCallOk(s, t);
  }

  /** The converse: when the factory of a stored placeholder throws anything else, the broken
      placeholder stays in the cache. */
  lemma EscapePoisons(s: State, t: nat)
    requires Inv(s) && t < |s.threads| && s.threads[t].Running? && s.threads[t].inner == None
    requires InFactory(s.threads[t].call) && s.sh.Stored(s.threads[t].call.pc.p)
    ensures var p, moves := s.threads[t].call.pc.p, [Move.Thread(t, Escapes), Move.Thread(t, Go)];
            && Valid(s, moves)
            && Play(s, moves).sh.Stored(p) && Play(s, moves).sh.promises[p].Broken?
            && Play(s, moves).threads == s.threads[t := Finished(s.threads[t].call.key, Result.Escaped)]
  {
    var p, moves := s.threads[t].call.pc.p, [Move.Thread(t, Escapes), Move.Thread(t, Go)];
    EscapeUnwinds(s, t, p);
    var s1 := MoveThread(s, t, Escapes);
    DoKeepsInv(s, moves[0]);
    UnwindBreaks(s1, t, p);
    PlayTwo(s, moves[0], moves[1]);
  }

  /** When the nested call for an archive unwinds, the searcher's factory fails the way the archive's
      did: it forgets its key after a std::exception, and unwinds with it stored after anything else. */
  lemma NestedThrow(s: State, t: nat)
    requires Inv(s) && t < |s.threads| && s.threads[t].Running? && s.threads[t].inner.Some?
    requires s.threads[t].inner.value.pc.Unwind?
    ensures CanMove(s, t, Go)
    ensures var outer, p, s' := s.threads[t].call, s.threads[t].inner.value.pc.p, MoveThread(s, t, Go);
            var escapes := p in s.sh.foreign;
            && outer.pc.Build? && p < |s.sh.promises|
            && s'.threads == s.threads[t := Running(Call(outer.key, if escapes then Unwind(outer.pc.p) else Forget(outer.pc.p)), None)]
            && s'.sh.foreign == s.sh.foreign + (if escapes then {outer.pc.p} else {})
            && s'.sh.promises == s.sh.promises[p := Broken] && s'.sh.owner == s.sh.owner
            && s'.sh.archives == s.sh.archives && s'.sh.searchers == s.sh.searchers
  {
    CurrentCallOk(s, t);
    assert ThreadOk(s.sh, s.threads[t]);
    assert s.sh.foreign + {} == s.sh.foreign;
  }

  /** An archive factory that throws something foreign below a searcher factory. */
  lemma NestedEscapes(s: State, t: nat)
    requires Inv(s) && t < |s.threads| && s.threads[t].Running? && s.threads[t].inner.Some?
    requires s.threads[t].inner.value.pc.Make?
    ensures CanMove(s, t, Escapes)
    ensures var outer, inner, s' := s.threads[t].call, s.threads[t].inner.value, MoveThread(s, t, Escapes);
            && s'.threads == s.threads[t := Running(outer, Some(Call(inner.key, Unwind(inner.pc.p))))]
            && s'.sh.foreign == s.sh.foreign + {inner.pc.p} && s'.sh.promises == s.sh.promises && s'.sh.owner == s.sh.owner
            && s'.sh.archives == s.sh.archives && s'.sh.searchers == s.sh.searchers
  {
    CurrentCallOk(s, t);
    assert ThreadOk(s.sh, s.threads[t]);
  }

  /** Up to the point where the searcher's call unwinds as well. */
  lemma NestedEscapeUnwinds(s: State, t: nat) returns (s': State)
    requires Inv(s) && t < |s.threads| && s.threads[t].Running? && s.threads[t].inner.Some?
    requires s.threads[t].inner.value.pc.Make? && s.threads[t].call.pc.Build?
    requires s.sh.Stored(s.threads[t].inner.value.pc.p) && s.sh.Stored(s.threads[t].call.pc.p)
    ensures CanMove(s, t, Escapes) && CanMove(MoveThread(s, t, Escapes), t, Go)
    ensures s' == MoveThread(MoveThread(s, t, Escapes), t, Go) && Inv(s')
    ensures var outer := s.threads[t].call;
            && s'.threads == s.threads[t := Running(Call(outer.key, Unwind(outer.pc.p)), None)]
            && outer.pc.p in s'.sh.foreign && s'.sh.Stored(outer.pc.p) && Poisoned(s'.sh, s.threads[t].inner.value.pc.p)
  {
    NestedEscapes(s, t);
    var s1 := MoveThread(s, t, Escapes);
    DoKeepsInv(s, Move.Thread(t, Escapes));
    NestedThrow(s1, t);
    s' := MoveThread(s1, t, Go);
    DoKeepsInv(s1, Move.Thread(t, Go));
  }

  /** It poisons both keys: both calls escape, and both placeholders stay stored and broken. */
  lemma NestedEscapePoisons(s: State, t: nat)
    requires Inv(s) && t < |s.threads| && s.threads[t].Running? && s.threads[t].inner.Some?
    requires s.threads[t].inner.value.pc.Make? && s.threads[t].call.pc.Build?
    requires s.sh.Stored(s.threads[t].inner.value.pc.p) && s.sh.Stored(s.threads[t].call.pc.p)
    ensures var moves := [Move.Thread(t, Escapes), Move.Thread(t, Go), Move.Thread(t, Go)];
            && Valid(s, moves)
            && Play(s, moves).threads == s.threads[t := Finished(s.threads[t].call.key, Result.Escaped)]
            && Poisoned(Play(s, moves).sh, s.threads[t].inner.value.pc.p) && Poisoned(Play(s, moves).sh, s.threads[t].call.pc.p)
  {
    var s2 := NestedEscapeUnwinds(s, t);
    UnwindBreaks(s2, t, s.threads[t].call.pc.p);
    UnwindKeeps(s2, t, s.threads[t].inner.value.pc.p);
    PlayThree(s, Move.Thread(t, Escapes), Move.Thread(t, Go), Move.Thread(t, Go));
  }

  ghost predicate Poisoned(sh: Shared, p: Promise) {
    sh.Stored(p) && sh.promises[p].Broken?
  }

  lemma UnwindKeeps(s: State, t: nat, q: Promise)
    requires CanMove(s, t, Go) && s.threads[t].inner == None && s.threads[t].call.pc.Unwind? && Poisoned(s.sh, q)
    ensures Poisoned(MoveThread(s, t, Go).sh, q)
  {
  }

  /** A call for a key with a broken placeholder hits it and fails. Its factory does not run, and
      the broken placeholder stays for the call after it. */
  lemma PoisonedKeyFails(s: State, p: Promise)
    requires Inv(s) && s.sh.Stored(p) && s.sh.promises[p].Broken?
    ensures var k, t := s.sh.owner[p], |s.threads|;
            var moves := [Spawn(k), Move.Thread(t, Go), Move.Thread(t, Go)];
            && Valid(s, moves) && Play(s, moves).threads == s.threads + [Finished(k, Result.Failed)]
            && Play(s, moves).sh.runs == s.sh.runs
            && Play(s, moves).sh.Stored(p) && Play(s, moves).sh.promises[p].Broken?
  {
    var k, t := s.sh.owner[p], |s.threads|;
    var moves := [Spawn(k), Move.Thread(t, Go), Move.Thread(t, Go)];
    var s1 := Do(s, moves[0]);
    HitsStored(s.sh, Slot(t, false), p);
    var s2 := Do(s1, moves[1]);
    assert s2.threads == s.threads + [Running(Call(k, Wait(p)), None)];
    assert CanDo(s2, moves[2]);
    var s3 := Do(s2, moves[2]);
    assert s3.threads == s.threads + [Finished(k, Result.Failed)];
    PlayThree(s, moves[0], moves[1], moves[2]);
  }

  lemma HitsStored(sh: Shared, slot: Slot, p: Promise)
    requires SharedOk(sh) && sh.Stored(p)
    ensures var (sh', n) := LookupStep(sh, slot, sh.owner[p]);
            n == Continue(Call(sh.owner[p], Wait(p))) && sh'.Stored(p)
            && sh'.promises == sh.promises && sh'.owner == sh.owner && sh'.runs == sh.runs
  {
    var k := sh.owner[p];
    LookupPair(sh.Lru(k).items, k, p);
  }

  lemma {:induction false} LookupPair(items: seq<(Key, Promise)>, k: Key, p: Promise)
    requires Distinct(Keys(items)) && (k, p) in items
    ensures Recency.Lookup(items, k) == Some(p)
  {
    var i :| 0 <= i < |items| && items[i] == (k, p);
    if i > 0 {
      assert Keys(items)[0] != Keys(items)[i];
      assert items[1..][i - 1] == (k, p);
      assert Keys(items)[1..] == Keys(items[1..]);
      LookupPair(items[1..], k, p);
    }
  }

  // ---- How often a factory runs ------------------------------------------------------

  function Bit(b: bool): nat { if b then 1 else 0 }

  function Count(keys: seq<Key>, k: Key): nat {
    if keys == [] then 0 else Bit(keys[0] == k) + Count(keys[1..], k)
  }

  lemma {:induction false} CountAppend(a: seq<Key>, b: seq<Key>, k: Key)
    ensures Count(a + b, k) == Count(a, k) + Count(b, k)
  {
    if a == [] {
      assert a + b == b;
    } else {
      assert (a + b)[1..] == a[1..] + b;
      CountAppend(a[1..], b, k);
    }
  }

  /** How many of the placeholders made for `k` are in `ran`. */
  function RanFor(owner: seq<Key>, ran: set<Promise>, k: Key): nat {
    if owner == [] then 0
    else RanFor(owner[..|owner| - 1], ran, k) + Bit(|owner| - 1 in ran && owner[|owner| - 1] == k)
  }

  lemma {:induction false} RanForAdd(owner: seq<Key>, ran: set<Promise>, p: Promise, k: Key)
    requires p !in ran
    ensures RanFor(owner, ran + {p}, k) == RanFor(owner, ran, k) + Bit(p < |owner| && owner[p] == k)
  {
    if owner != [] {
      RanForAdd(owner[..|owner| - 1], ran, p, k);
    }
  }

  lemma {:induction false} RanForBound(owner: seq<Key>, ran: set<Promise>, k: Key)
    ensures RanFor(owner, ran, k) <= Count(owner, k)
  {
    if owner != [] {
      RanForBound(owner[..|owner| - 1], ran, k);
      assert owner == owner[..|owner| - 1] + [owner[|owner| - 1]];
      CountAppend(owner[..|owner| - 1], [owner[|owner| - 1]], k);
    }
  }

  /** How many entries for `k` the caches hold. */
  function Held(sh: Shared, k: Key): nat {
    Count(Keys(sh.archives.items), k) + Count(Keys(sh.searchers.items), k)
  }

  /** Placeholders made for `k` that are neither stored nor accounted for by a removal. */
  function Balance(sh: Shared, k: Key): int {
    Count(sh.owner, k) - Count(sh.removed, k) - Held(sh, k)
  }

  /** The factory ran for every placeholder in `ran`, once. */
  ghost predicate RunsMatch(sh: Shared, k: Key) {
    Count(sh.runs, k) == RanFor(sh.owner, sh.ran, k)
  }

  /** Every placeholder made for `k` is still stored or was evicted or dropped, once; and the
      factory ran for it at most once. */
  ghost predicate Ledger(sh: Shared, k: Key) {
    Balance(sh, k) == 0 && RunsMatch(sh, k)
  }

  lemma {:induction false} DistinctCount(keys: seq<Key>, k: Key)
    requires Distinct(keys)
    ensures Count(keys, k) == Bit(k in keys)
  {
    if keys != [] {
      assert keys == [keys[0]] + keys[1..];
      DistinctCount(keys[1..], k);
    }
  }

  lemma WithoutCount(items: seq<(Key, Promise)>, gone: Key, k: Key)
    requires Distinct(Keys(items))
    ensures Count(Keys(items), k) == Count(Keys(Without(items, gone)), k) + Bit(gone == k && gone in Keys(items))
  {
    KeysWithout(items, gone);
    RemoveKeyDistinct(Keys(items), gone);
    DistinctCount(Keys(items), k);
    DistinctCount(RemoveKey(Keys(items), gone), k);
  }

  lemma KeysCut(all: seq<(Key, Promise)>, max: nat)
    ensures Keys(all) == Keys(Take(all, max)) + Keys(Overflow(all, max))
  {
  }

  lemma CountCons(key: Key, keys: seq<Key>, k: Key)
    ensures Count([key] + keys, k) == Bit(key == k) + Count(keys, k)
  {
    assert ([key] + keys)[1..] == keys;
  }

  lemma InsertCount(items: seq<(Key, Promise)>, max: nat, key: Key, p: Promise, k: Key)
    ensures Count(Keys(Take([(key, p)] + items, max)), k) + Count(Keys(Overflow([(key, p)] + items, max)), k)
         == Count(Keys(items), k) + Bit(key == k)
  {
    var all := [(key, p)] + items;
    KeysCut(all, max);
    CountAppend(Keys(Take(all, max)), Keys(Overflow(all, max)), k);
    KeysCons(key, p, items);
    CountCons(key, Keys(items), k);
  }

  lemma {:induction false} WhereCount(keys: seq<Key>, keep: Key -> bool, drop: Key -> bool, k: Key)
    requires forall x :: drop(x) == !keep(x)
    ensures Count(keys, k) == Count(Where(keys, keep), k) + Count(Where(keys, drop), k)
  {
    if keys != [] {
      WhereCount(keys[1..], keep, drop, k);
    }
  }

  lemma HitBalance(sh: Shared, slot: Slot, key: Key, k: Key)
    requires SharedOk(sh)
    ensures Recency.Lookup(sh.Lru(key).items, key).Some? ==> Balance(LookupStep(sh, slot, key).0, k) == Balance(sh, k)
  {
    var items := sh.Lru(key).items;
    WithoutCount(items, key, k);
    match Recency.Lookup(items, key) {
      case Some(q) => KeysCons(key, q, Without(items, key));
      case None =>
    }
    CountCons(key, Keys(Without(items, key)), k);
  }

  lemma MissBalance(sh: Shared, slot: Slot, key: Key, k: Key)
    requires |sh.owner| == |sh.promises| && Recency.Lookup(sh.Lru(key).items, key) == None
    ensures Balance(LookupStep(sh, slot, key).0, k) == Balance(sh, k)
    ensures Count(LookupStep(sh, slot, key).0.owner, k) == Count(sh.owner, k) + Bit(key == k)
  {
    var lru, p: Promise := sh.Lru(key), |sh.promises|;
    InsertCount(lru.items, lru.maxSize, key, p, k);
    CountAppend(sh.removed, Keys(Overflow([(key, p)] + lru.items, lru.maxSize)), k);
    CountAppend(sh.owner, [key], k);
    CountCons(key, [], k);
    assert [key] + [] == [key];
  }

  lemma DropBalance(sh: Shared, key: Key, k: Key)
    requires SharedOk(sh)
    ensures Balance(DropStep(sh, key), k) == Balance(sh, k)
  {
    WithoutCount(sh.Lru(key).items, key, k);
    CountAppend(sh.removed, if Recency.Lookup(sh.Lru(key).items, key).Some? then [key] else [], k);
  }

  /** Whatever a call does, entries for `k` are only created, stored, and removed on record. */
  lemma CallBalance(sh: Shared, slot: Slot, c: Call, ch: Choice, k: Key)
    requires SharedOk(sh) && CanStep(sh, c, ch)
    ensures Balance(CallStep(sh, slot, c, ch).0, k) == Balance(sh, k)
  {
    match c.pc {
      case Lookup =>
        match Recency.Lookup(sh.Lru(c.key).items, c.key) {
          case Some(_) => HitBalance(sh, slot, c.key, k);
          case None => MissBalance(sh, slot, c.key, k);
        }
      case Forget(_) => DropBalance(sh, c.key, k);
      case _ =>
    }
  }

  lemma CallRunsMatch(sh: Shared, slot: Slot, c: Call, ch: Choice, k: Key)
    requires SharedOk(sh) && CallOk(sh, slot, c) && CanStep(sh, c, ch) && RunsMatch(sh, k)
    ensures RunsMatch(CallStep(sh, slot, c, ch).0, k)
  {
    match c.pc {
      case Lookup =>
        var sh' := CallStep(sh, slot, c, ch).0;
        if Recency.Lookup(sh.Lru(c.key).items, c.key).None? {
          assert sh'.owner[..|sh.owner|] == sh.owner;
        }
      case Make(p) =>
        RanForAdd(sh.owner, sh.ran, p, k);
        CountAppend(sh.runs, [c.key], k);
      case _ =>
    }
  }

  /** The call that a thread's next step executes is in order. */
  lemma CurrentCallOk(s: State, t: nat)
    requires Inv(s) && t < |s.threads| && s.threads[t].Running?
    ensures CallOk(s.sh, Slot(t, false), s.threads[t].call)
    ensures s.threads[t].inner.Some? ==> CallOk(s.sh, Slot(t, true), s.threads[t].inner.value)
  {
    assert SlotOk(s.sh, Slot(t, false), CallAt(s.threads, Slot(t, false)));
    assert SlotOk(s.sh, Slot(t, true), CallAt(s.threads, Slot(t, true)));
  }

  /** A resumed factory changes nothing that is counted. */
  lemma ResumeCounts(sh: Shared, c: Call, r: Result, k: Key)
    requires Nests(c)
    ensures var sh' := Resume(sh, c, r).0;
            Balance(sh', k) == Balance(sh, k) && RunsMatch(sh', k) == RunsMatch(sh, k)
            && sh'.owner == sh.owner && sh'.runs == sh.runs && sh'.removed == sh.removed
  {
  }

  lemma ThreadBalance(s: State, t: nat, ch: Choice, k: Key)
    requires Inv(s) && CanMove(s, t, ch)
    ensures Balance(MoveThread(s, t, ch).sh, k) == Balance(s.sh, k)
  {
    var call := s.threads[t].call;
    match s.threads[t].inner {
      case Some(c) =>
        CallBalance(s.sh, Slot(t, true), c, ch, k);
        var r := CallStep(s.sh, Slot(t, true), c, ch);
        if r.1.Return? {
          ResumeCounts(r.0, call, r.1.result, k);
        }
      case None =>
        if !Nests(call) {
          CallBalance(s.sh, Slot(t, false), call, ch, k);
        }
    }
  }

  lemma ThreadRunsMatch(s: State, t: nat, ch: Choice, k: Key)
    requires Inv(s) && CanMove(s, t, ch) && RunsMatch(s.sh, k)
    ensures RunsMatch(MoveThread(s, t, ch).sh, k)
  {
    CurrentCallOk(s, t);
    var call := s.threads[t].call;
    match s.threads[t].inner {
      case Some(c) =>
        CallRunsMatch(s.sh, Slot(t, true), c, ch, k);
        var r := CallStep(s.sh, Slot(t, true), c, ch);
        if r.1.Return? {
          ResumeCounts(r.0, call, r.1.result, k);
        }
      case None =>
        if !Nests(call) {
          CallRunsMatch(s.sh, Slot(t, false), call, ch, k);
        }
    }
  }

  lemma DropSearchersBalance(sh: Shared, id: string, k: Key)
    ensures var items := sh.searchers.items;
            Count(Keys(items), k) == Count(Keys(Select(items, x => Lacks(x, id))), k)
                                     + Count(Keys(Select(items, x => !Lacks(x, id))), k)
  {
    var items := sh.searchers.items;
    WhereCount(Keys(items), x => Lacks(x, id), x => !Lacks(x, id), k);
    KeysSelect(items, x => Lacks(x, id));
    KeysSelect(items, x => !Lacks(x, id));
  }

  /** No move changes the balance. */
  lemma DoBalance(s: State, m: Move, k: Key)
    requires Inv(s) && CanDo(s, m)
    ensures Balance(Do(s, m).sh, k) == Balance(s.sh, k)
  {
    match m {
      case Thread(t, ch) => ThreadBalance(s, t, ch, k);
      case DropArchive(id) => DropBalance(s.sh, One(id), k);
      case DropSearchers(id) =>
        DropSearchersBalance(s.sh, id, k);
        CountAppend(s.sh.removed, Keys(Select(s.sh.searchers.items, x => !Lacks(x, id))), k);
      case _ =>
    }
  }

  lemma DoLedger(s: State, m: Move, k: Key)
    requires Inv(s) && CanDo(s, m) && Ledger(s.sh, k)
    ensures Ledger(Do(s, m).sh, k)
  {
    DoBalance(s, m, k);
    if m.Thread? {
      ThreadRunsMatch(s, m.t, m.ch, k);
    }
  }

  lemma {:induction false} PlayLedger(s: State, moves: seq<Move>, k: Key)
    requires Inv(s) && Valid(s, moves) && Ledger(s.sh, k)
    ensures Ledger(Play(s, moves).sh, k)
    decreases |moves|
  {
    if moves != [] {
      DoLedger(s, moves[0], k);
      DoKeepsInv(s, moves[0]);
      PlayLedger(Do(s, moves[0]), moves[1..], k);
    }
  }

  lemma {:induction false} KeysOfKind(items: seq<(Key, Promise)>, k: Key)
    requires forall x | x in items :: x.0.One? != k.One?
    ensures k !in Keys(items)
  {
    if items != [] {
      assert items == [items[0]] + items[1..];
      KeysOfKind(items[1..], k);
    }
  }

  /** The caches hold a key at most once. */
  lemma HeldIsStored(s: State, k: Key)
    requires Inv(s)
    ensures Held(s.sh, k) == Bit(k in Keys(s.sh.Lru(k).items))
  {
    DistinctCount(Keys(s.sh.archives.items), k);
    DistinctCount(Keys(s.sh.searchers.items), k);
    if k.One? { KeysOfKind(s.sh.searchers.items, k); } else { KeysOfKind(s.sh.archives.items, k); }
  }

  /** In every run, for every key: the factory has run at most as often as the key was inserted,
      and that is once for each time it was evicted or dropped, plus once if it is stored now. */
  lemma RunsPerKey(archiveSize: nat, searcherSize: nat, moves: seq<Move>, k: Key)
    requires Valid(Init(archiveSize, searcherSize), moves)
    ensures var sh := Play(Init(archiveSize, searcherSize), moves).sh;
            && Count(sh.runs, k) <= Count(sh.owner, k)
            && Count(sh.owner, k) == Count(sh.removed, k) + Bit(k in Keys(sh.Lru(k).items))
  {
    var s0 := Init(archiveSize, searcherSize);
    InitOk(archiveSize, searcherSize);
    PlayKeepsInv(s0, moves);
    PlayLedger(s0, moves, k);
    var s := Play(s0, moves);
    RanForBound(s.sh.owner, s.sh.ran, k);
    HeldIsStored(s, k);
  }

  // ---- What the callers get -----------------------------------------------------------

  function Ids(archives: seq<Value>): (r: seq<string>)
    requires forall v | v in archives :: v.Archive?
    ensures |r| == |archives| && forall i | 0 <= i < |r| :: r[i] == archives[i].id
  {
    if archives == [] then [] else [archives[0].id] + Ids(archives[1..])
  }

  ghost predicate AllArchives(vs: seq<Value>) {
    forall v | v in vs :: v.Archive?
  }

  /** A value for a key: the archive of that id, or a searcher over one archive for each id. */
  ghost predicate Fits(k: Key, v: Value) {
    match k
    case One(id) => v.Archive? && v.id == id
    case Many(ids) => v.Searcher? && AllArchives(v.archives) && Lists(Ids(v.archives), ids)
  }

  ghost predicate SharedFits(sh: Shared) {
    && (forall p | 0 <= p < |sh.promises| && sh.promises[p].Ready? :: p < |sh.owner| && Fits(sh.owner[p], sh.promises[p].value))
    && (forall k | k in sh.weak :: Fits(k, sh.weak[k]))
  }

  ghost predicate CallFits(c: Call) {
    match c.pc
    case Publish(_, v, _) => Fits(c.key, v)
    case Remember(v, _) => Fits(c.key, v)
    case Build(_, todo, got) => c.key.Many? && AllArchives(got) && Lists(Ids(got) + todo, c.key.ids)
    case _ => true
  }

  ghost predicate ThreadFits(th: Thread) {
    match th
    case Running(call, inner) => CallFits(call) && (inner.Some? ==> CallFits(inner.value))
    case Finished(k, r) => r.Got? ==> Fits(k, r.v)
  }

  ghost predicate AllFit(s: State) {
    SharedFits(s.sh) && forall t | 0 <= t < |s.threads| :: ThreadFits(s.threads[t])
  }

  lemma CallStepFits(sh: Shared, slot: Slot, c: Call, ch: Choice)
    requires SharedOk(sh) && CallOk(sh, slot, c) && CanStep(sh, c, ch) && SharedFits(sh) && CallFits(c)
    ensures SharedFits(CallStep(sh, slot, c, ch).0)
    ensures match CallStep(sh, slot, c, ch).1
            case Continue(c') => CallFits(c')
            case Return(r) => r.Got? ==> Fits(c.key, r.v)
  {
    if c.pc.Make? && ch.Opens? {
      assert Ids([]) + ch.order == ch.order;
    } else if c.pc.Build? {
      assert Ids(c.pc.got) + c.pc.todo == Ids(c.pc.got);
    }
  }

  /** The archive for the next id joins those already opened. */
  lemma ResumeFits(c: Call, v: Value)
    requires Nests(c) && CallFits(c) && Fits(One(c.pc.todo[0]), v)
    ensures CallFits(Call(c.key, Build(c.pc.p, c.pc.todo[1..], c.pc.got + [v])))
  {
    var got := c.pc.got + [v];
    assert forall x | x in got :: x in c.pc.got || x == v;
    assert Ids(got) + c.pc.todo[1..] == Ids(c.pc.got) + c.pc.todo;
  }

  /** The step of an inner call. */
  lemma InnerMoveFits(s: State, t: nat, ch: Choice)
    requires Inv(s) && CanMove(s, t, ch) && SharedFits(s.sh) && ThreadFits(s.threads[t]) && s.threads[t].inner.Some?
    ensures SharedFits(MoveThread(s, t, ch).sh) && ThreadFits(MoveThread(s, t, ch).threads[t])
  {
    CurrentCallOk(s, t);
    var call, c := s.threads[t].call, s.threads[t].inner.value;
    assert ThreadOk(s.sh, s.threads[t]);
    CallStepFits(s.sh, Slot(t, true), c, ch);
    var r := CallStep(s.sh, Slot(t, true), c, ch);
    if r.1.Return? && r.1.result.Got? {
      ResumeFits(call, r.1.result.v);
    }
  }

  /** The step of an outer call. */
  lemma OuterMoveFits(s: State, t: nat, ch: Choice)
    requires Inv(s) && CanMove(s, t, ch) && SharedFits(s.sh) && ThreadFits(s.threads[t]) && s.threads[t].inner.None?
    ensures SharedFits(MoveThread(s, t, ch).sh) && ThreadFits(MoveThread(s, t, ch).threads[t])
  {
    CurrentCallOk(s, t);
    if !Nests(s.threads[t].call) {
      CallStepFits(s.sh, Slot(t, false), s.threads[t].call, ch);
    }
  }

  lemma OthersStay(s: State, t: nat, ch: Choice)
    requires CanMove(s, t, ch)
    ensures |MoveThread(s, t, ch).threads| == |s.threads|
    ensures forall u | 0 <= u < |s.threads| && u != t :: MoveThread(s, t, ch).threads[u] == s.threads[u]
  {
  }

  lemma MoveFits(s: State, t: nat, ch: Choice)
    requires Inv(s) && CanMove(s, t, ch) && AllFit(s)
    ensures AllFit(MoveThread(s, t, ch))
  {
    assert ThreadFits(s.threads[t]);
    if s.threads[t].inner.Some? {
      InnerMoveFits(s, t, ch);
    } else {
      OuterMoveFits(s, t, ch);
    }
    var s' := MoveThread(s, t, ch);
    OthersStay(s, t, ch);
    forall u | 0 <= u < |s'.threads|
      ensures ThreadFits(s'.threads[u])
    {
      assert u != t ==> ThreadFits(s.threads[u]);
    }
  }

  lemma {:induction false} PlayFits(s: State, moves: seq<Move>)
    requires Inv(s) && Valid(s, moves) && AllFit(s)
    ensures AllFit(Play(s, moves))
    decreases |moves|
  {
    if moves != [] {
      if moves[0].Thread? {
        MoveFits(s, moves[0].t, moves[0].ch);
      }
      DoKeepsInv(s, moves[0]);
      PlayFits(Do(s, moves[0]), moves[1..]);
    }
  }

  /** In every run, a finished call got a value made for exactly its key, or it failed because a
      factory for that key threw. */
  lemma FinishedCalls(archiveSize: nat, searcherSize: nat, moves: seq<Move>, t: nat)
    requires Valid(Init(archiveSize, searcherSize), moves)
    requires t < |Play(Init(archiveSize, searcherSize), moves).threads|
    requires Play(Init(archiveSize, searcherSize), moves).threads[t].Finished?
    ensures var s := Play(Init(archiveSize, searcherSize), moves);
            match s.threads[t].result
            case Got(v) => Fits(s.threads[t].key, v)
            case _ => s.threads[t].key in s.sh.threw
  {
    InitOk(archiveSize, searcherSize);
    PlayKeepsInv(Init(archiveSize, searcherSize), moves);
    PlayFits(Init(archiveSize, searcherSize), moves);
    var s := Play(Init(archiveSize, searcherSize), moves);
    assert ThreadOk(s.sh, s.threads[t]) && ThreadFits(s.threads[t]);
  }

  // ---- A second run between two removals ---------------------------------------------------

  /** Two threads asking for archive "a": what is stored, made, run and removed so far. */
  function TwoThreads(stored: seq<(Key, Promise)>, owner: seq<Key>, producer: seq<Slot>, ran: set<Promise>,
                      runs: seq<Key>, removed: seq<Key>, pc0: Pc, pc1: Pc): State
  {
    State(Shared(Cache(stored, 1), Cache([], 1), map[], seq(|owner|, _ => Pending), owner, producer, ran, {}, {}, runs, removed),
          [Running(Call(One("a"), pc0), None), Running(Call(One("a"), pc1), None)])
  }

  lemma DropThenLookup(a: Key)
    requires a == One("a")
    ensures var s3 := TwoThreads([(a, 0)], [a], [Slot(0, false)], {}, [], [], Probe(0), Lookup);
            var s4 := TwoThreads([], [a], [Slot(0, false)], {}, [], [a], Probe(0), Lookup);
            && Do(s3, DropArchive("a")) == s4 && CanDo(s4, Move.Thread(1, Go))
            && Do(s4, Move.Thread(1, Go)) == TwoThreads([(a, 1)], [a, a], [Slot(0, false), Slot(1, false)],
                                                        {}, [], [a], Probe(0), Probe(1))
  {
    assert [] + [a] == [a] && [a] + [a] == [a, a];
  }

  lemma TwoCalls(a: Key)
    requires a == One("a")
    ensures var s0, s2 := Init(1, 1), TwoThreads([], [], [], {}, [], [], Lookup, Lookup);
            var s1 := s0.(threads := [Running(Call(a, Lookup), None)]);
            CanDo(s0, Spawn(a)) && Do(s0, Spawn(a)) == s1 && CanDo(s1, Spawn(a)) && Do(s1, Spawn(a)) == s2
  {
  }

  lemma FirstMisses(a: Key)
    requires a == One("a")
    ensures var s2 := TwoThreads([], [], [], {}, [], [], Lookup, Lookup);
            var s3 := TwoThreads([(a, 0)], [a], [Slot(0, false)], {}, [], [], Probe(0), Lookup);
            CanDo(s2, Move.Thread(0, Go)) && Do(s2, Move.Thread(0, Go)) == s3 && CanDo(s3, DropArchive("a"))
  {
    assert [] + [a] == [a];
  }

  lemma FirstHalf(a: Key, moves: seq<Move>)
    requires a == One("a") && moves == [Spawn(a), Spawn(a), Move.Thread(0, Go)]
    ensures Valid(Init(1, 1), moves)
    ensures Play(Init(1, 1), moves) == TwoThreads([(a, 0)], [a], [Slot(0, false)], {}, [], [], Probe(0), Lookup)
  {
    var s0 := Init(1, 1);
    var s2 := TwoThreads([], [], [], {}, [], [], Lookup, Lookup);
    var s3 := TwoThreads([(a, 0)], [a], [Slot(0, false)], {}, [], [], Probe(0), Lookup);
    TwoCalls(a);
    FirstMisses(a);
    PlayChain(s0, moves, [s0, s0.(threads := [Running(Call(a, Lookup), None)]), s2, s3]);
  }

  lemma SecondHalf(a: Key, moves: seq<Move>)
    requires a == One("a") && moves == [DropArchive("a"), Move.Thread(1, Go)]
    ensures var s3 := TwoThreads([(a, 0)], [a], [Slot(0, false)], {}, [], [], Probe(0), Lookup);
            Valid(s3, moves) && Play(s3, moves) == TwoThreads([(a, 1)], [a, a], [Slot(0, false), Slot(1, false)],
                                                              {}, [], [a], Probe(0), Probe(1))
  {
    var s3 := TwoThreads([(a, 0)], [a], [Slot(0, false)], {}, [], [], Probe(0), Lookup);
    var s4 := TwoThreads([], [a], [Slot(0, false)], {}, [], [a], Probe(0), Lookup);
    var s5 := TwoThreads([(a, 1)], [a, a], [Slot(0, false), Slot(1, false)], {}, [], [a], Probe(0), Probe(1));
    DropThenLookup(a);
    PlayChain(s3, moves, [s3, s4, s5]);
  }

  /** The first thread misses, its entry is dropped, the second thread misses. */
  lemma DropBetweenLookups() returns (moves: seq<Move>)
    ensures Valid(Init(1, 1), moves)
    ensures Play(Init(1, 1), moves) == TwoThreads([(One("a"), 1)], [One("a"), One("a")], [Slot(0, false), Slot(1, false)],
                                                  {}, [], [One("a")], Probe(0), Probe(1))
  {
    var a := One("a");
    var first, second := [Spawn(a), Spawn(a), Move.Thread(0, Go)], [DropArchive("a"), Move.Thread(1, Go)];
    FirstHalf(a, first);
    SecondHalf(a, second);
    PlayAppend(Init(1, 1), first, second);
    moves := first + second;
  }

  lemma PlayCons(s: State, m: Move, moves: seq<Move>)
    requires CanDo(s, m) && Valid(Do(s, m), moves)
    ensures Valid(s, [m] + moves) && Play(s, [m] + moves) == Play(Do(s, m), moves)
  {
    assert ([m] + moves)[0] == m && ([m] + moves)[1..] == moves;
  }

  lemma PlayOne(s: State, m: Move)
    requires CanDo(s, m)
    ensures Valid(s, [m]) && Play(s, [m]) == Do(s, m)
  {
    assert [m][1..] == [];
  }

  lemma PlayTwo(s: State, m: Move, n: Move)
    requires CanDo(s, m) && CanDo(Do(s, m), n)
    ensures Valid(s, [m, n]) && Play(s, [m, n]) == Do(Do(s, m), n)
  {
    PlayOne(Do(s, m), n);
    PlayCons(s, m, [n]);
    assert [m] + [n] == [m, n];
  }

  lemma PlayThree(s: State, m: Move, n: Move, o: Move)
    requires CanDo(s, m) && CanDo(Do(s, m), n) && CanDo(Do(Do(s, m), n), o)
    ensures Valid(s, [m, n, o]) && Play(s, [m, n, o]) == Do(Do(Do(s, m), n), o)
  {
    PlayTwo(Do(s, m), n, o);
    PlayCons(s, m, [n, o]);
    assert [m] + [n, o] == [m, n, o];
  }

  lemma {:induction false} PlayAppend(s: State, a: seq<Move>, b: seq<Move>)
    requires Valid(s, a) && Valid(Play(s, a), b)
    ensures Valid(s, a + b) && Play(s, a + b) == Play(Play(s, a), b)
    decreases |a|
  {
    if a == [] {
      assert a + b == b;
    } else {
      var m, rest := a[0], a[1..];
      PlayAppend(Do(s, m), rest, b);
      assert a == [m] + rest;
      Assoc([m], rest, b);
      PlayCons(s, m, rest + b);
    }
  }

  /** Neither thread finds a live value, so both are about to run the factory. */
  lemma BothProbe(a: Key, slots: seq<Slot>)
    requires a == One("a") && slots == [Slot(0, false), Slot(1, false)]
    ensures var s5 := TwoThreads([(a, 1)], [a, a], slots, {}, [], [a], Probe(0), Probe(1));
            var s6 := TwoThreads([(a, 1)], [a, a], slots, {}, [], [a], Make(0), Probe(1));
            var s7 := TwoThreads([(a, 1)], [a, a], slots, {}, [], [a], Make(0), Make(1));
            && CanDo(s5, Move.Thread(0, Go)) && Do(s5, Move.Thread(0, Go)) == s6
            && CanDo(s6, Move.Thread(1, Go)) && Do(s6, Move.Thread(1, Go)) == s7
  {
  }

  lemma BothMake(a: Key, slots: seq<Slot>)
    requires a == One("a") && slots == [Slot(0, false), Slot(1, false)]
    ensures var pc0, pc1 := Publish(0, Archive("a", 0), true), Publish(1, Archive("a", 1), true);
            var s7 := TwoThreads([(a, 1)], [a, a], slots, {}, [], [a], Make(0), Make(1));
            var s8 := TwoThreads([(a, 1)], [a, a], slots, {0}, [a], [a], pc0, Make(1));
            var s9 := TwoThreads([(a, 1)], [a, a], slots, {0, 1}, [a, a], [a], pc0, pc1);
            && CanDo(s7, Move.Thread(0, Makes(0))) && Do(s7, Move.Thread(0, Makes(0))) == s8
            && CanDo(s8, Move.Thread(1, Makes(1))) && Do(s8, Move.Thread(1, Makes(1))) == s9
  {
    assert [] + [a] == [a] && [a] + [a] == [a, a];
  }

  /** "Once per insertion" is not "once between two removals": a factory may start after its
      placeholder was dropped.  Here it runs twice for key "a" while nothing is removed. */
  lemma TwoRunsBetweenRemovals() returns (before: seq<Move>, after: seq<Move>)
    ensures Valid(Init(1, 1), before) && Valid(Play(Init(1, 1), before), after)
    ensures var s := Play(Init(1, 1), before);
            var s' := Play(s, after);
            s'.sh.removed == s.sh.removed && Count(s.sh.runs, One("a")) == 0 && Count(s'.sh.runs, One("a")) == 2
  {
    var a, slots := One("a"), [Slot(0, false), Slot(1, false)];
    before := DropBetweenLookups();
    after := [Move.Thread(0, Go), Move.Thread(1, Go), Move.Thread(0, Makes(0)), Move.Thread(1, Makes(1))];
    var pc0, pc1 := Publish(0, Archive("a", 0), true), Publish(1, Archive("a", 1), true);
    var s5 := Play(Init(1, 1), before);
    var s6 := TwoThreads([(a, 1)], [a, a], slots, {}, [], [a], Make(0), Probe(1));
    var s7 := TwoThreads([(a, 1)], [a, a], slots, {}, [], [a], Make(0), Make(1));
    var s8 := TwoThreads([(a, 1)], [a, a], slots, {0}, [a], [a], pc0, Make(1));
    var s9 := TwoThreads([(a, 1)], [a, a], slots, {0, 1}, [a, a], [a], pc0, pc1);
    BothProbe(a, slots);
    BothMake(a, slots);
    PlayChain(s5, after, [s5, s6, s7, s8, s9]);
    assert [a, a][1..] == [a];
  }

  lemma {:induction false} PlayChain(s: State, moves: seq<Move>, states: seq<State>)
    requires |states| == |moves| + 1 && states[0] == s
    requires forall i | 0 <= i < |moves| :: CanDo(states[i], moves[i]) && states[i + 1] == Do(states[i], moves[i])
    ensures Valid(s, moves) && Play(s, moves) == states[|moves|]
    decreases |moves|
  {
    if moves != [] {
      PlayChain(states[1], moves[1..], states[1..]);
    }
  }
}
