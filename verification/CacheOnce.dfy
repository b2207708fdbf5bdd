/** When the factory of a key runs at most once between two removals of the key: the exact
    condition, for every reachable state and every continuation. */
module CacheOnce {
  import opened Seqs
  import opened Recency
  import opened CacheProtocol
  import opened CacheLiveness
  import opened CacheSafety

  /** A call for `k` that has missed and has not entered the factory yet. */
  predicate About(c: Call, k: Key) {
    c.key == k && (c.pc.Probe? || c.pc.Make?)
  }

  function PreOf(th: Thread, k: Key): nat {
    match th
    case Running(call, inner) => Bit(About(call, k)) + if inner.Some? then Bit(About(inner.value, k)) else 0
    case Finished(_, _) => 0
  }

  /** How many calls for `k` are between their lookup and their factory. */
  function Pre(threads: seq<Thread>, k: Key): nat {
    if threads == [] then 0 else PreOf(threads[0], k) + Pre(threads[1..], k)
  }

  predicate IsStored(sh: Shared, k: Key) {
    k in Keys(sh.Lru(k).items)
  }

  lemma {:induction false} PreUpdate(threads: seq<Thread>, t: nat, th: Thread, k: Key)
    requires t < |threads|
    ensures Pre(threads[t := th], k) + PreOf(threads[t], k) == Pre(threads, k) + PreOf(th, k)
  {
    if t > 0 {
      assert threads[t := th][1..] == threads[1..][t - 1 := th];
      PreUpdate(threads[1..], t - 1, th, k);
    } else {
      assert threads[0 := th][1..] == threads[1..];
    }
  }

  lemma {:induction false} PreSnoc(threads: seq<Thread>, th: Thread, k: Key)
    ensures Pre(threads + [th], k) == Pre(threads, k) + PreOf(th, k)
  {
    if threads == [] {
      assert [th][1..] == [] && [] + [th] == [th];
    } else {
      assert (threads + [th])[1..] == threads[1..] + [th];
      PreSnoc(threads[1..], th, k);
    }
  }

  // ---- Upper bound -----------------------------------------------------------

  /** Runs so far and runs to come without another insertion, against insertions so far. */
  function Potential(sh: Shared, pre: nat, k: Key): int {
    Count(sh.runs, k) + pre - Count(sh.owner, k)
  }

  function PreNext(n: Next, k: Key): nat {
    match n
    case Continue(c) => Bit(About(c, k))
    case Return(_) => 0
  }

  lemma MakePotential(sh: Shared, slot: Slot, c: Call, ch: Choice, k: Key)
    requires CanStep(sh, c, ch) && c.pc.Make?
    ensures var (sh', n) := CallStep(sh, slot, c, ch);
            Potential(sh', PreNext(n, k), k) <= Potential(sh, Bit(About(c, k)), k)
  {
    CountAppend(sh.runs, [c.key], k);
    CountCons(c.key, [], k);
    assert [c.key] + [] == [c.key];
  }

  lemma LookupPotential(sh: Shared, slot: Slot, key: Key, k: Key)
    requires SharedOk(sh)
    ensures var (sh', n) := LookupStep(sh, slot, key);
            Potential(sh', PreNext(n, k), k) <= Potential(sh, 0, k)
  {
    if Recency.Lookup(sh.Lru(key).items, key).None? {
      MissBalance(sh, slot, key, k);
    }
  }

  lemma CallPotential(sh: Shared, slot: Slot, c: Call, ch: Choice, k: Key)
    requires SharedOk(sh) && CanStep(sh, c, ch)
    ensures var (sh', n) := CallStep(sh, slot, c, ch);
            Potential(sh', PreNext(n, k), k) <= Potential(sh, Bit(About(c, k)), k)
  {
    if c.pc.Lookup? {
      LookupPotential(sh, slot, c.key, k);
    } else if c.pc.Make? {
      MakePotential(sh, slot, c, ch, k);
    }
  }

  lemma InnerPotential(s: State, t: nat, ch: Choice, k: Key)
    requires Inv(s) && CanMove(s, t, ch) && s.threads[t].inner.Some?
    ensures var s' := MoveThread(s, t, ch);
            Potential(s'.sh, PreOf(s'.threads[t], k), k) <= Potential(s.sh, PreOf(s.threads[t], k), k)
  {
    var call, c := s.threads[t].call, s.threads[t].inner.value;
    CallPotential(s.sh, Slot(t, true), c, ch, k);
    var (sh, n) := CallStep(s.sh, Slot(t, true), c, ch);
    if n.Return? {
      ResumeCounts(sh, call, n.result, k);
    }
  }

  lemma OuterPotential(s: State, t: nat, ch: Choice, k: Key)
    requires Inv(s) && CanMove(s, t, ch) && s.threads[t].inner.None?
    ensures var s' := MoveThread(s, t, ch);
            Potential(s'.sh, PreOf(s'.threads[t], k), k) <= Potential(s.sh, PreOf(s.threads[t], k), k)
  {
    if !Nests(s.threads[t].call) {
      CallPotential(s.sh, Slot(t, false), s.threads[t].call, ch, k);
    }
  }

  /** No move raises the potential: a miss makes one insertion and one call about to run, and a
      factory run ends that. */
  lemma DoPotential(s: State, m: Move, k: Key)
    requires Inv(s) && CanDo(s, m)
    ensures Potential(Do(s, m).sh, Pre(Do(s, m).threads, k), k) <= Potential(s.sh, Pre(s.threads, k), k)
  {
    match m {
      case Thread(t, ch) =>
        var s' := MoveThread(s, t, ch);
        if s.threads[t].inner.Some? { InnerPotential(s, t, ch, k); } else { OuterPotential(s, t, ch, k); }
        OthersStay(s, t, ch);
        assert s'.threads == s.threads[t := s'.threads[t]];
        PreUpdate(s.threads, t, s'.threads[t], k);
      case Spawn(key) => PreSnoc(s.threads, Running(Call(key, Lookup), None), k);
      case _ =>
    }
  }

  lemma {:induction false} PlayPotential(s: State, moves: seq<Move>, k: Key)
    requires Inv(s) && Valid(s, moves)
    ensures var s' := Play(s, moves);
            Potential(s'.sh, Pre(s'.threads, k), k) <= Potential(s.sh, Pre(s.threads, k), k)
            && Balance(s'.sh, k) == Balance(s.sh, k)
    decreases |moves|
  {
    if moves != [] {
      DoPotential(s, moves[0], k);
      DoBalance(s, moves[0], k);
      DoKeepsInv(s, moves[0]);
      PlayPotential(Do(s, moves[0]), moves[1..], k);
    }
  }

  /** How many runs can come before the next removal: the calls that are about to run, and one
      more if the key is not stored. */
  function RunsLeft(s: State, k: Key): nat {
    Pre(s.threads, k) + Bit(!IsStored(s.sh, k))
  }

  lemma RunsAtMost(s: State, moves: seq<Move>, k: Key)
    requires Inv(s) && Valid(s, moves) && Count(Play(s, moves).sh.removed, k) == Count(s.sh.removed, k)
    ensures Count(Play(s, moves).sh.runs, k) <= Count(s.sh.runs, k) + RunsLeft(s, k)
  {
    PlayPotential(s, moves, k);
    PlayKeepsInv(s, moves);
    HeldIsStored(s, k);
    HeldIsStored(Play(s, moves), k);
  }

  // ---- Lower bound -----------------------------------------------------------

  /** Only the call a thread executes can be about to run. */
  lemma AboutIsCurrent(s: State, t: nat, k: Key)
    requires Inv(s) && t < |s.threads| && PreOf(s.threads[t], k) > 0
    ensures s.threads[t].Running? && About(Current(s.threads[t]), k) && PreOf(s.threads[t], k) == 1
  {
    assert ThreadOk(s.sh, s.threads[t]);
  }

  /** `s'` is `s` after thread `t` moved without touching a cache. */
  ghost predicate OnlyThread(s: State, s': State, t: nat) {
    && s'.sh.archives == s.sh.archives && s'.sh.searchers == s.sh.searchers && s'.sh.removed == s.sh.removed
    && |s'.threads| == |s.threads| && forall u | 0 <= u < |s.threads| && u != t :: s'.threads[u] == s.threads[u]
  }

  /** From the probe to the factory: the weak pointer has expired. */
  lemma ProbeMove(s: State, t: nat, k: Key)
    requires Inv(s) && t < |s.threads| && s.threads[t].Running?
    requires About(Current(s.threads[t]), k) && Current(s.threads[t]).pc.Probe?
    ensures CanMove(s, t, Go)
    ensures var s' := MoveThread(s, t, Go);
            OnlyThread(s, s', t) && s'.sh.runs == s.sh.runs && s'.threads[t].Running?
            && About(Current(s'.threads[t]), k) && Current(s'.threads[t]).pc.Make?
  {
    CurrentCallOk(s, t);
    assert ThreadOk(s.sh, s.threads[t]);
    OthersStay(s, t, Go);
  }

  lemma MakeMove(s: State, t: nat, k: Key) returns (ch: Choice)
    requires Inv(s) && t < |s.threads| && s.threads[t].Running?
    requires About(Current(s.threads[t]), k) && Current(s.threads[t]).pc.Make?
    ensures CanMove(s, t, ch)
    ensures OnlyThread(s, MoveThread(s, t, ch), t) && MoveThread(s, t, ch).sh.runs == s.sh.runs + [k]
  {
    assert ThreadOk(s.sh, s.threads[t]);
    ch := Enabled(s, t);
    OthersStay(s, t, ch);
  }

  /** A call that is about to run can run its factory, with nothing removed and nobody else moved. */
  lemma RunFactory(s: State, t: nat, k: Key) returns (moves: seq<Move>)
    requires Inv(s) && t < |s.threads| && PreOf(s.threads[t], k) > 0
    ensures Valid(s, moves) && OnlyThread(s, Play(s, moves), t)
    ensures Count(Play(s, moves).sh.runs, k) == Count(s.sh.runs, k) + 1
  {
    AboutIsCurrent(s, t, k);
    CountAppend(s.sh.runs, [k], k);
    CountCons(k, [], k);
    assert [k] + [] == [k];
    if Current(s.threads[t]).pc.Make? {
      var ch := MakeMove(s, t, k);
      moves := [Move.Thread(t, ch)];
      PlayOne(s, moves[0]);
    } else {
      ProbeMove(s, t, k);
      var s1 := MoveThread(s, t, Go);
      DoKeepsInv(s, Move.Thread(t, Go));
      var ch := MakeMove(s1, t, k);
      moves := [Move.Thread(t, Go), Move.Thread(t, ch)];
      PlayTwo(s, moves[0], moves[1]);
    }
  }

  lemma {:induction false} FindAbout(threads: seq<Thread>, k: Key) returns (t: nat)
    requires Pre(threads, k) > 0
    ensures t < |threads| && PreOf(threads[t], k) > 0
  {
    if PreOf(threads[0], k) > 0 {
      t := 0;
    } else {
      t := FindAbout(threads[1..], k);
      t := t + 1;
    }
  }

  lemma FindTwo(s: State, k: Key) returns (t: nat, u: nat)
    requires Inv(s) && Pre(s.threads, k) >= 2
    ensures t < |s.threads| && u < |s.threads| && t != u
    ensures PreOf(s.threads[t], k) > 0 && PreOf(s.threads[u], k) > 0
  {
    t := FindAbout(s.threads, k);
    AboutIsCurrent(s, t, k);
    var idle := Finished(k, Result.Failed);
    PreUpdate(s.threads, t, idle, k);
    u := FindAbout(s.threads[t := idle], k);
  }

  /** A key that is not stored can be missed by a new call, with nothing evicted. */
  lemma FreshMiss(s: State, k: Key) returns (moves: seq<Move>)
    requires Inv(s) && !IsStored(s.sh, k)
    ensures Valid(s, moves)
    ensures var s' := Play(s, moves);
            s'.sh.runs == s.sh.runs && s'.sh.removed == s.sh.removed && |s'.threads| == |s.threads| + 1
            && PreOf(s'.threads[|s.threads|], k) == 1
  {
    var n, t := |s.sh.Lru(k).items| + 1, |s.threads|;
    moves := [Resize(k.One?, n), Spawn(k), Move.Thread(t, Go)];
    var s1 := Do(s, moves[0]);
    var s2 := Do(s1, moves[1]);
    assert s2.sh.Lru(k) == SetMaxSize(s.sh.Lru(k), n);
    assert CanDo(s2, moves[2]);
    var s3 := Do(s2, moves[2]);
    MissKeepsAll(s2.sh, Slot(t, false), k);
    PlayThree(s, moves[0], moves[1], moves[2]);
  }

  lemma MissKeepsAll(sh: Shared, slot: Slot, k: Key)
    requires !IsStored(sh, k) && sh.Lru(k).maxSize > |sh.Lru(k).items|
    ensures var (sh', n) := LookupStep(sh, slot, k);
            sh'.removed == sh.removed && sh'.runs == sh.runs && n == Continue(Call(k, Probe(|sh.promises|)))
  {
  }

  /** As many runs as the bound allows, up to two, without a removal. */
  lemma TwoRuns(s: State, k: Key) returns (moves: seq<Move>)
    requires Inv(s) && RunsLeft(s, k) >= 2
    ensures Valid(s, moves)
    ensures Play(s, moves).sh.removed == s.sh.removed
    ensures Count(Play(s, moves).sh.runs, k) == Count(s.sh.runs, k) + 2
  {
    if Pre(s.threads, k) >= 2 {
      var t, u := FindTwo(s, k);
      moves := RunFactory(s, t, k);
      PlayKeepsInv(s, moves);
      var s1 := Play(s, moves);
      assert s1.threads[u] == s.threads[u];
      var more := RunFactory(s1, u, k);
      PlayAppend(s, moves, more);
      moves := moves + more;
    } else {
      var t := FindAbout(s.threads, k);
      moves := RunFactory(s, t, k);
      PlayKeepsInv(s, moves);
      var s1 := Play(s, moves);
      assert !IsStored(s1.sh, k);
      var more := RunFresh(s1, k);
      PlayAppend(s, moves, more);
      moves := moves + more;
    }
  }

  lemma RunFresh(s: State, k: Key) returns (moves: seq<Move>)
    requires Inv(s) && !IsStored(s.sh, k)
    ensures Valid(s, moves)
    ensures Play(s, moves).sh.removed == s.sh.removed
    ensures Count(Play(s, moves).sh.runs, k) == Count(s.sh.runs, k) + 1
  {
    moves := FreshMiss(s, k);
    PlayKeepsInv(s, moves);
    var s1 := Play(s, moves);
    var more := RunFactory(s1, |s.threads|, k);
    PlayAppend(s, moves, more);
    moves := moves + more;
  }

  // ---- The exact condition ---------------------------------------------------

  /** In every continuation without a removal of `k`, its factory runs at most once more. */
  ghost predicate AtMostOnce(s: State, k: Key) {
    forall moves | Valid(s, moves) && Count(Play(s, moves).sh.removed, k) == Count(s.sh.removed, k) ::
      Count(Play(s, moves).sh.runs, k) <= Count(s.sh.runs, k) + 1
  }

  /** The factory runs at most once before the next removal exactly if the calls between lookup
      and factory, plus one if the key is not stored, are at most one. */
  lemma AtMostOnceIff(s: State, k: Key)
    requires Inv(s)
    ensures AtMostOnce(s, k) <==> Pre(s.threads, k) + Bit(!IsStored(s.sh, k)) <= 1
  {
    if RunsLeft(s, k) >= 2 {
      var moves := TwoRuns(s, k);
      assert Count(Play(s, moves).sh.removed, k) == Count(s.sh.removed, k);
    } else {
      forall moves | Valid(s, moves) && Count(Play(s, moves).sh.removed, k) == Count(s.sh.removed, k)
        ensures Count(Play(s, moves).sh.runs, k) <= Count(s.sh.runs, k) + 1
      {
        RunsAtMost(s, moves, k);
      }
    }
  }

  /** An insertion of `k` is a miss: `k` was not stored. */
  lemma InsertsWhenMissing(s: State, m: Move, k: Key)
    requires Inv(s) && CanDo(s, m)
    ensures Count(Do(s, m).sh.owner, k) - Count(s.sh.owner, k) <= Bit(!IsStored(s.sh, k))
  {
    if m.Thread? {
      var th := s.threads[m.t];
      match th.inner {
        case Some(c) =>
          CallInserts(s.sh, Slot(m.t, true), c, m.ch, k);
          var (sh, n) := CallStep(s.sh, Slot(m.t, true), c, m.ch);
          if n.Return? {
            ResumeCounts(sh, th.call, n.result, k);
          }
        case None =>
          if !Nests(th.call) {
            CallInserts(s.sh, Slot(m.t, false), th.call, m.ch, k);
          }
      }
    }
  }

  lemma CallInserts(sh: Shared, slot: Slot, c: Call, ch: Choice, k: Key)
    requires SharedOk(sh) && CanStep(sh, c, ch)
    ensures Count(CallStep(sh, slot, c, ch).0.owner, k) - Count(sh.owner, k) <= Bit(!IsStored(sh, k))
  {
    if c.pc.Lookup? && Recency.Lookup(sh.Lru(c.key).items, c.key).None? {
      MissBalance(sh, slot, c.key, k);
    }
  }

  /** Right after a removal of `k`: its factory runs at most once before the next one exactly if no
      call for `k` is between its lookup and its factory. */
  lemma AfterRemoval(s: State, m: Move, k: Key)
    requires Inv(s) && CanDo(s, m) && Count(Do(s, m).sh.removed, k) > Count(s.sh.removed, k)
    ensures Inv(Do(s, m)) && !IsStored(Do(s, m).sh, k)
    ensures AtMostOnce(Do(s, m), k) <==> Pre(Do(s, m).threads, k) == 0
  {
    var s' := Do(s, m);
    DoKeepsInv(s, m);
    DoBalance(s, m, k);
    InsertsWhenMissing(s, m, k);
    HeldIsStored(s, k);
    HeldIsStored(s', k);
    AtMostOnceIff(s', k);
  }
}
