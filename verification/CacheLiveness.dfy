/** The two stacked caches never deadlock, and every call comes back. */
module CacheLiveness {
  import opened Seqs
  import opened CacheProtocol

  /** The call a thread is executing: the nested one if there is one. */
  function Current(th: Thread): Call
    requires th.Running?
  {
    if th.inner.Some? then th.inner.value else th.call
  }

  /** Thread `t` is blocked in `get()` on an unresolved placeholder. */
  predicate Waits(s: State, t: nat) {
    && t < |s.threads| && s.threads[t].Running? && Current(s.threads[t]).pc.Wait?
    && Current(s.threads[t]).pc.p < |s.sh.promises| && s.sh.promises[Current(s.threads[t]).pc.p].Pending?
  }

  /** Waiting for a searcher ranks above waiting for an archive, which ranks above not waiting. */
  function Rank(s: State, t: nat): nat {
    if !Waits(s, t) then 0 else if Current(s.threads[t]).key.One? then 1 else 2
  }

  lemma {:induction false} Listing(ids: set<string>) returns (order: seq<string>)
    ensures Lists(order, ids) && |order| == |ids|
  {
    if ids == {} {
      order := [];
    } else {
      var x :| x in ids;
      var rest := Listing(ids - {x});
      order := [x] + rest;
      assert forall y :: y in order <==> y == x || y in rest;
    }
  }

  /** A thread that is not blocked can always take its next step. */
  lemma Enabled(s: State, t: nat) returns (ch: Choice)
    requires Inv(s) && t < |s.threads| && s.threads[t].Running? && !Waits(s, t)
    ensures CanMove(s, t, ch)
  {
    var th := s.threads[t];
    var c := Current(th);
    var slot := Slot(t, th.inner.Some?);
    assert CallAt(s.threads, slot) == Some(c);
    assert SlotOk(s.sh, slot, Some(c));
    assert ThreadOk(s.sh, th);
    ch := Go;
    if c.pc.Make? && c.key.Many? {
      var order := Listing(c.key.ids);
      ch := Opens(order);
    } else if c.pc.Make? || (c.pc.Build? && c.pc.todo == []) {
      ch := Throws;
    }
  }

  /** A blocked thread waits for a placeholder owned by a live call of another thread of
      strictly lower rank. */
  lemma WaitsForLowerRank(s: State, t: nat) returns (u: nat)
    requires Inv(s) && Waits(s, t)
    ensures u < |s.threads| && u != t && s.threads[u].Running?
    ensures var p := Current(s.threads[t]).pc.p;
            s.sh.producer[p].t == u && OwnedBy(CallAt(s.threads, s.sh.producer[p])) == Some(p)
    ensures Rank(s, u) < Rank(s, t)
  {
    var c := Current(s.threads[t]);
    var here := Slot(t, s.threads[t].inner.Some?);
    assert CallAt(s.threads, here) == Some(c) && SlotOk(s.sh, here, Some(c));
    var p := c.pc.p;
    var slot := s.sh.producer[p];
    assert SlotOk(s.sh, slot, CallAt(s.threads, slot));
    var producer := CallAt(s.threads, slot).value;
    assert producer.key == c.key;
    u := slot.t;
    assert ThreadOk(s.sh, s.threads[u]) && ThreadOk(s.sh, s.threads[t]);
    if Waits(s, u) {
      assert !slot.inner && s.threads[u].inner.Some? && Nests(producer);
      assert Current(s.threads[u]).key.One? && producer.key.Many?;
    }
  }

  /** No deadlock: while a call is unfinished, some thread can move. */
  lemma {:induction false} DeadlockFree(s: State, t: nat) returns (u: nat, ch: Choice)
    requires Inv(s) && t < |s.threads| && s.threads[t].Running?
    ensures CanMove(s, u, ch)
    decreases Rank(s, t)
  {
    if Waits(s, t) {
      u := WaitsForLowerRank(s, t);
      u, ch := DeadlockFree(s, u);
    } else {
      u := t;
      ch := Enabled(s, t);
    }
  }

  // ---- Every call finishes -------------------------------------------------------------

  function SetSize(k: Key): nat {
    if k.Many? then |k.ids| else 0
  }

  /** An upper bound on the steps a call still takes, ten for each nested call. */
  function CallWeight(c: Call): nat {
    match c.pc
    case Lookup => 7 + 10 * SetSize(c.key)
    case Probe(_) => 6 + 10 * SetSize(c.key)
    case Make(_) => 5 + 10 * SetSize(c.key)
    case Build(_, todo, _) => 4 + 10 * |todo|
    case Publish(_, _, _) => 3
    case Remember(_, _) => 2
    case Forget(_) => 2
    case Unwind(_) => 1
    case Wait(_) => 1
  }

  function ThreadWeight(th: Thread): nat {
    match th
    case Running(call, None) => CallWeight(call)
    case Running(call, Some(c)) => if Nests(call) then CallWeight(call) - 10 + CallWeight(c) else CallWeight(call)
    case Finished(_, _) => 0
  }

  function Weight(threads: seq<Thread>): nat {
    if threads == [] then 0 else ThreadWeight(threads[0]) + Weight(threads[1..])
  }

  lemma {:induction false} WeightUpdate(threads: seq<Thread>, t: nat, th: Thread)
    requires t < |threads|
    ensures Weight(threads[t := th]) + ThreadWeight(threads[t]) == Weight(threads) + ThreadWeight(th)
  {
    if t > 0 {
      assert threads[t := th][1..] == threads[1..][t - 1 := th];
      WeightUpdate(threads[1..], t - 1, th);
    } else {
      assert threads[0 := th][1..] == threads[1..];
    }
  }

  lemma {:induction false} ListingSize(order: seq<string>, ids: set<string>)
    requires Lists(order, ids)
    ensures |order| == |ids|
  {
    if order == [] {
      assert ids == {};
    } else {
      var x, rest := order[0], order[1..];
      assert order == [x] + rest;
      assert forall y :: y in rest <==> y in ids - {x};
      ListingSize(rest, ids - {x});
    }
  }

  lemma CallStepLighter(sh: Shared, slot: Slot, c: Call, ch: Choice)
    requires CanStep(sh, c, ch)
    ensures var n := CallStep(sh, slot, c, ch).1; n.Continue? ==> CallWeight(n.call) < CallWeight(c)
  {
    if c.pc.Make? && c.key.Many? {
      ListingSize(ch.order, c.key.ids);
    }
  }

  /** Every step of a thread uses up some of its weight. */
  lemma MoveLighter(s: State, t: nat, ch: Choice)
    requires Inv(s) && CanMove(s, t, ch)
    ensures Weight(MoveThread(s, t, ch).threads) < Weight(s.threads)
    ensures |MoveThread(s, t, ch).threads| == |s.threads|
  {
    var s' := MoveThread(s, t, ch);
    assert ThreadOk(s.sh, s.threads[t]);
    WeightUpdate(s.threads, t, s'.threads[t]);
    var call := s.threads[t].call;
    match s.threads[t].inner {
      case Some(c) => CallStepLighter(s.sh, Slot(t, true), c, ch);
      case None => if !Nests(call) { CallStepLighter(s.sh, Slot(t, false), call, ch); }
    }
    assert s'.threads == s.threads[t := s'.threads[t]];
  }

  ghost predicate ThreadMoves(moves: seq<Move>) {
    forall m | m in moves :: m.Thread?
  }

  /** No schedule can run the calls for longer than their weight. */
  lemma {:induction false} RunsAreBounded(s: State, moves: seq<Move>)
    requires Inv(s) && Valid(s, moves) && ThreadMoves(moves)
    ensures |moves| <= Weight(s.threads)
    decreases |moves|
  {
    if moves != [] {
      var m := moves[0];
      MoveLighter(s, m.t, m.ch);
      DoKeepsInv(s, m);
      RunsAreBounded(Do(s, m), moves[1..]);
    }
  }

  ghost predicate AllFinished(s: State) {
    forall t | 0 <= t < |s.threads| :: s.threads[t].Finished?
  }

  /** A schedule that cannot be continued has finished every call: together with the bound,
      every fair schedule ends with all calls returned. */
  lemma StuckMeansFinished(s: State, moves: seq<Move>)
    requires Inv(s) && Valid(s, moves)
    requires forall t: nat, ch: Choice :: !CanMove(Play(s, moves), t, ch)
    ensures AllFinished(Play(s, moves))
  {
    PlayKeepsInv(s, moves);
    var end := Play(s, moves);
    forall t | 0 <= t < |end.threads|
      ensures end.threads[t].Finished?
    {
      if end.threads[t].Running? {
        var u, ch := DeadlockFree(end, t);
      }
    }
  }

  /** From every reachable state there is a way to finish every call. */
  lemma {:induction false} AllCallsCanFinish(s: State) returns (moves: seq<Move>)
    requires Inv(s)
    ensures Valid(s, moves) && ThreadMoves(moves) && AllFinished(Play(s, moves)) && |moves| <= Weight(s.threads)
    decreases Weight(s.threads)
  {
    if t: nat :| t < |s.threads| && s.threads[t].Running? {
      var u, ch := DeadlockFree(s, t);
      var m := Move.Thread(u, ch);
      MoveLighter(s, u, ch);
      DoKeepsInv(s, m);
      var rest := AllCallsCanFinish(Do(s, m));
      moves := [m] + rest;
      assert moves[1..] == rest;
    } else {
      moves := [];
    }
  }
}
