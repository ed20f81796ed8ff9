/**
 Concurrent workers of arb/executor.go around the position ledger. Each worker runs one opportunity:
 it locks its input, for a cross-chain opportunity a second position as well, executes, and its
 deferred unlocks run in reverse order on every way out. Ledger operations are critical sections, so
 a run is an interleaving of the workers' atomic steps.
 */
module LockBrackets {
  import opened Positions

  /** An opportunity: input is what the opportunity asks for (absent or not positive means "take the
      maximum trade size"), buy is the position of the first path step and sell that of the second. */
  datatype Job = Job(crossChain: bool, pathLength: nat, input: int, buy: Key, sell: Key)

  datatype Phase = Start | LockBuy(amount: int) | LockSell(amount: int) | Execute | Unwind | Done

  /** held lists the deferred unlocks, the latest last. */
  datatype Worker = Worker(job: Job, phase: Phase, held: seq<(Key, int)>)

  datatype System = System(positions: Ledger, workers: seq<Worker>)

  /** One atomic step of worker w. The environment supplies the maximum trade size when asked;
      whether execution succeeds makes no difference to the locks. */
  function Step(s: System, w: nat, maxTradeSize: int): System
    requires w < |s.workers|
  {
    var me := s.workers[w];
    match me.phase
    case Start =>
      var amount := if me.job.input > 0 then me.job.input else maxTradeSize;
      s.(workers := s.workers[w := me.(phase := if me.job.pathLength < 2 || amount <= 0 then Done else LockBuy(amount))])
    case LockBuy(amount) =>
      if CanLock(s.positions, me.job.buy, amount)
      then System(Locked(s.positions, me.job.buy, amount),
                  s.workers[w := me.(held := me.held + [(me.job.buy, amount)],
                                     phase := if me.job.crossChain then LockSell(amount) else Execute)])
      else s.(workers := s.workers[w := me.(phase := Unwind)])
    case LockSell(amount) =>
      if CanLock(s.positions, me.job.sell, amount)
      then System(Locked(s.positions, me.job.sell, amount),
                  s.workers[w := me.(held := me.held + [(me.job.sell, amount)], phase := Execute)])
      else s.(workers := s.workers[w := me.(phase := Unwind)])
    case Execute =>
      s.(workers := s.workers[w := me.(phase := Unwind)])
    case Unwind =>
      if me.held == [] then s.(workers := s.workers[w := me.(phase := Done)])
      else
        var (k, amount) := me.held[|me.held| - 1];
        System(Unlocked(s.positions, k, amount), s.workers[w := me.(held := me.held[..|me.held| - 1])])
    case Done => s
  }

  // ---------- outstanding locks ----------

  function HeldAt(held: seq<(Key, int)>, k: Key): int {
    if held == [] then 0
    else HeldAt(held[..|held| - 1], k) + (if held[|held| - 1].0 == k then held[|held| - 1].1 else 0)
  }

  function Outstanding(workers: seq<Worker>, k: Key): int {
    if workers == [] then 0
    else Outstanding(workers[..|workers| - 1], k) + HeldAt(workers[|workers| - 1].held, k)
  }

  lemma {:induction false} OutstandingUpdate(workers: seq<Worker>, w: nat, me: Worker, k: Key)
    requires w < |workers|
    ensures Outstanding(workers[w := me], k) == Outstanding(workers, k) - HeldAt(workers[w].held, k) + HeldAt(me.held, k)
  {
    var n := |workers| - 1;
    if w == n {
      assert workers[w := me][..n] == workers[..n];
    } else {
      assert workers[w := me][..n] == workers[..n][w := me];
      OutstandingUpdate(workers[..n], w, me, k);
    }
  }

  lemma {:induction false} OutstandingNonNegative(workers: seq<Worker>, k: Key)
    requires forall w | w in workers :: HoldsPositive(w)
    ensures Outstanding(workers, k) >= 0
  {
    if workers != [] {
      var n := |workers| - 1;
      assert workers[n] in workers;
      OutstandingNonNegative(workers[..n], k);
      HeldNonNegative(workers[n].held, k);
    }
  }

  lemma {:induction false} HeldNonNegative(held: seq<(Key, int)>, k: Key)
    requires forall h | h in held :: h.1 > 0
    ensures HeldAt(held, k) >= 0
  {
    if held != [] { HeldNonNegative(held[..|held| - 1], k); }
  }

  predicate HoldsPositive(w: Worker) {
    forall h | h in w.held :: h.1 > 0
  }

  /** A worker's phase agrees with what it holds; a finished worker holds nothing. */
  ghost predicate WorkerOk(w: Worker, positions: Ledger) {
    && HoldsPositive(w) && (forall h | h in w.held :: h.0 in positions)
    && (w.phase.Start? || w.phase.LockBuy? || w.phase.Done? ==> w.held == [])
    && (w.phase.LockBuy? || w.phase.LockSell? ==> w.phase.amount > 0)
    && (!w.phase.Start? && !w.phase.Done? ==> w.job.pathLength >= 2)
    && ((w.phase.LockBuy? || w.phase.LockSell?) && w.job.input > 0 ==> w.phase.amount == w.job.input)
    && (w.phase.LockSell? ==> w.job.crossChain && w.held == [(w.job.buy, w.phase.amount)])
    && (w.phase.Execute? ==> Equipped(w))
  }

  /** A worker about to execute holds exactly its locks: the amount asked for, if one was, of its input,
      and for a cross-chain job as much of the second position. */
  ghost predicate Equipped(w: Worker) {
    exists amount: int | amount > 0 && (w.job.input > 0 ==> amount == w.job.input) ::
      w.held == if w.job.crossChain then [(w.job.buy, amount), (w.job.sell, amount)] else [(w.job.buy, amount)]
  }

  /** Every position splits into available and locked, neither negative, and the locked part is
      exactly what the workers hold. */
  ghost predicate PositionOk(s: System, k: Key)
    requires k in s.positions
  {
    && s.positions[k].amount == s.positions[k].available + s.positions[k].locked
    && s.positions[k].available >= 0
    && s.positions[k].locked == Outstanding(s.workers, k)
  }

  ghost predicate Inv(s: System) {
    && (forall k {:trigger PositionOk(s, k)} | k in s.positions :: PositionOk(s, k))
    && (forall w | w in s.workers :: WorkerOk(w, s.positions))
  }

  /** The amounts and the set of positions never change: only the split does. */
  ghost predicate SameAmounts(a: Ledger, b: Ledger) {
    a.Keys == b.Keys && forall k | k in a :: a[k].amount == b[k].amount
  }

  /** The split of position k follows what a worker's held locks changed by. */
  ghost predicate ShiftedAt(m: Ledger, n: Ledger, held: seq<(Key, int)>, held': seq<(Key, int)>, k: Key)
    requires k in m && k in n
  {
    var moved := HeldAt(held', k) - HeldAt(held, k);
    n[k] == Position(m[k].amount, m[k].available - moved, m[k].locked + moved) && m[k].available >= moved
  }

  ghost predicate Shifted(m: Ledger, n: Ledger, held: seq<(Key, int)>, held': seq<(Key, int)>) {
    m.Keys == n.Keys && forall k {:trigger ShiftedAt(m, n, held, held', k)} | k in m :: ShiftedAt(m, n, held, held', k)
  }

  /** Replacing worker w, with the ledger split moved by what its held locks changed by. */
  lemma MoveKeepsInv(s: System, w: nat, me: Worker, positions: Ledger)
    requires Inv(s) && w < |s.workers| && WorkerOk(me, positions) && Shifted(s.positions, positions, s.workers[w].held, me.held)
    ensures Inv(System(positions, s.workers[w := me]))
  {
    var n := System(positions, s.workers[w := me]);
    forall v | v in n.workers ensures WorkerOk(v, n.positions) {
      if v != me { assert v in s.workers; }
    }
    forall k | k in n.positions ensures PositionOk(n, k) {
      assert PositionOk(s, k);
      assert ShiftedAt(s.positions, positions, s.workers[w].held, me.held, k);
      OutstandingUpdate(s.workers, w, me, k);
    }
  }

  lemma HeldAppend(held: seq<(Key, int)>, h: (Key, int), k: Key)
    ensures HeldAt(held + [h], k) == HeldAt(held, k) + (if h.0 == k then h.1 else 0)
  {
    assert (held + [h])[..|held|] == held;
  }

  lemma TakeKeepsInv(s: System, w: nat, k: Key, amount: int, phase: Phase)
    requires Inv(s) && w < |s.workers| && CanLock(s.positions, k, amount) && amount > 0
    requires phase == Execute || phase == LockSell(amount)
    requires s.workers[w].job.pathLength >= 2 && (s.workers[w].job.input > 0 ==> amount == s.workers[w].job.input)
    requires phase == Execute ==> Equipped(s.workers[w].(held := s.workers[w].held + [(k, amount)]))
    requires phase == LockSell(amount) ==> s.workers[w].job.crossChain && s.workers[w].held == [] && k == s.workers[w].job.buy
    ensures var me := s.workers[w];
            Inv(System(Locked(s.positions, k, amount), s.workers[w := me.(held := me.held + [(k, amount)], phase := phase)]))
  {
    var me := s.workers[w];
    var me' := me.(held := me.held + [(k, amount)], phase := phase);
    assert WorkerOk(me, s.positions);
    TakenWorkerOk(me, s.positions, k, amount, phase);
    AllAvailable(s);
    TakenShift(s.positions, me.held, k, amount);
    hide *;
    MoveKeepsInv(s, w, me', Locked(s.positions, k, amount));
  }

  lemma TakenShift(m: Ledger, held: seq<(Key, int)>, k: Key, amount: int)
    requires CanLock(m, k, amount) && forall q | q in m :: m[q].available >= 0
    ensures Shifted(m, Locked(m, k, amount), held, held + [(k, amount)])
  {
    forall q | q in m ensures ShiftedAt(m, Locked(m, k, amount), held, held + [(k, amount)], q) {
      HeldAppend(held, (k, amount), q);
    }
  }

  lemma ReleasedShift(m: Ledger, held: seq<(Key, int)>)
    requires held != [] && held[|held| - 1].0 in m && held[|held| - 1].1 > 0 && forall q | q in m :: m[q].available >= 0
    ensures Shifted(m, Unlocked(m, held[|held| - 1].0, held[|held| - 1].1), held, held[..|held| - 1])
  {
    var h := held[|held| - 1];
    forall q | q in m ensures ShiftedAt(m, Unlocked(m, h.0, h.1), held, held[..|held| - 1], q) {}
  }

  lemma AllAvailable(s: System)
    requires Inv(s)
    ensures forall q | q in s.positions :: s.positions[q].available >= 0
  {
    forall q | q in s.positions ensures s.positions[q].available >= 0 {
      assert PositionOk(s, q);
    }
  }

  lemma TakenWorkerOk(me: Worker, positions: Ledger, k: Key, amount: int, phase: Phase)
    requires WorkerOk(me, positions) && k in positions && amount > 0 && me.job.pathLength >= 2 && (me.job.input > 0 ==> amount == me.job.input)
    requires phase == Execute || phase == LockSell(amount)
    requires phase == Execute ==> Equipped(me.(held := me.held + [(k, amount)]))
    requires phase == LockSell(amount) ==> me.job.crossChain && me.held == [] && k == me.job.buy
    ensures WorkerOk(me.(held := me.held + [(k, amount)], phase := phase), Locked(positions, k, amount))
  {
    var me' := me.(held := me.held + [(k, amount)], phase := phase);
    assert phase == Execute ==> Equipped(me') by {
      if phase == Execute {
        var e := me.(held := me.held + [(k, amount)]);
        var a: int :| a > 0 && (e.job.input > 0 ==> a == e.job.input) &&
          e.held == if e.job.crossChain then [(e.job.buy, a), (e.job.sell, a)] else [(e.job.buy, a)];
        assert me'.held == if me'.job.crossChain then [(me'.job.buy, a), (me'.job.sell, a)] else [(me'.job.buy, a)];
      }
    }
    hide Equipped;
  }

  lemma ReleaseKeepsInv(s: System, w: nat)
    requires Inv(s) && w < |s.workers| && s.workers[w].phase == Unwind && s.workers[w].held != []
    ensures var me := s.workers[w];
            var (k, amount) := me.held[|me.held| - 1];
            k in s.positions &&
            Inv(System(Unlocked(s.positions, k, amount), s.workers[w := me.(held := me.held[..|me.held| - 1])]))
  {
    var me := s.workers[w];
    var h := me.held[|me.held| - 1];
    assert WorkerOk(me, s.positions) && h in me.held;
    AllAvailable(s);
    ReleasedShift(s.positions, me.held);
    assert WorkerOk(me.(held := me.held[..|me.held| - 1]), Unlocked(s.positions, h.0, h.1));
    hide *;
    MoveKeepsInv(s, w, me.(held := me.held[..|me.held| - 1]), Unlocked(s.positions, h.0, h.1));
  }

  lemma StepKeepsInv(s: System, w: nat, maxTradeSize: int)
    requires Inv(s) && w < |s.workers|
    ensures Inv(Step(s, w, maxTradeSize))
    ensures SameAmounts(s.positions, Step(s, w, maxTradeSize).positions)
    ensures |Step(s, w, maxTradeSize).workers| == |s.workers|
  {
    var me := s.workers[w];
    var n := Step(s, w, maxTradeSize);
    assert WorkerOk(me, s.positions);
    if n.positions == s.positions && n.workers[w].held == me.held {
      AllAvailable(s);
      assert Shifted(s.positions, s.positions, me.held, me.held) by {
        forall q | q in s.positions ensures ShiftedAt(s.positions, s.positions, me.held, me.held, q) {}
      }
      MoveKeepsInv(s, w, n.workers[w], s.positions);
      assert n == System(s.positions, s.workers[w := n.workers[w]]);
    } else {
      match me.phase
      case LockBuy(amount) =>
        assert me.held + [(me.job.buy, amount)] == [(me.job.buy, amount)];
        TakeKeepsInv(s, w, me.job.buy, amount, n.workers[w].phase);
      case LockSell(amount) =>
        assert me.held + [(me.job.sell, amount)] == [(me.job.buy, amount), (me.job.sell, amount)];
        TakeKeepsInv(s, w, me.job.sell, amount, n.workers[w].phase);
      case Unwind => ReleaseKeepsInv(s, w);
      case _ =>
    }
  }

  /** The way of a worker: nothing for a path of one step or without an amount; otherwise one lock, a
      second for a cross-chain job, execution, and the deferred unlocks, the latest first. */
  lemma StepPhases(s: System, w: nat, maxTradeSize: int)
    requires w < |s.workers|
    ensures var me, n := s.workers[w], Step(s, w, maxTradeSize).workers[w];
            && (me.phase.Start? && me.job.pathLength < 2 ==> n == me.(phase := Done))
            && (me.phase.Start? && me.job.input <= 0 && maxTradeSize <= 0 ==> n == me.(phase := Done))
            && (me.phase.Start? && me.job.pathLength >= 2 && me.job.input > 0 ==> n == me.(phase := LockBuy(me.job.input)))
            && (me.phase.Start? && me.job.pathLength >= 2 && me.job.input <= 0 < maxTradeSize ==> n == me.(phase := LockBuy(maxTradeSize)))
            && (me.phase.LockBuy? && n.phase != Unwind ==> n.phase == if me.job.crossChain then LockSell(me.phase.amount) else Execute)
            && (me.phase.LockSell? && n.phase != Unwind ==> n.phase == Execute)
            && (me.phase.Execute? ==> n == me.(phase := Unwind))
            && (me.phase.Unwind? && me.held == [] ==> n == me.(phase := Done))
            && (me.phase.Unwind? && me.held != [] ==> n == me.(held := me.held[..|me.held| - 1]))
            && (me.phase.Done? ==> n == me)
  {
  }

  /** A failed lock, first or second, and every other step leaves the ledger as it was; a successful lock
      moves the amount of one position from available to locked, an unlock moves it back. */
  lemma StepLedger(s: System, w: nat, maxTradeSize: int)
    requires Inv(s) && w < |s.workers|
    ensures var me, n := s.workers[w], Step(s, w, maxTradeSize);
            && (forall v: nat | v < |s.workers| && v != w :: n.workers[v] == s.workers[v]) && n.workers[w].job == me.job
            && (me.phase.Start? || me.phase.Execute? || me.phase.Done? ==> n.positions == s.positions)
            && (me.phase.LockBuy? || me.phase.LockSell? ==>
                  var k, a := (if me.phase.LockBuy? then me.job.buy else me.job.sell), me.phase.amount;
                  if k in s.positions && s.positions[k].available >= a then
                    && n.positions == s.positions[k := Position(s.positions[k].amount, s.positions[k].available - a, s.positions[k].locked + a)]
                    && n.workers[w].held == me.held + [(k, a)]
                  else n.positions == s.positions && n.workers[w].phase == Unwind && n.workers[w].held == me.held)
            && (me.phase.Unwind? && me.held != [] ==>
                  var k, a := me.held[|me.held| - 1].0, me.held[|me.held| - 1].1;
                  && k in s.positions
                  && n.positions == s.positions[k := Position(s.positions[k].amount, s.positions[k].available + a, s.positions[k].locked - a)])
  {
    var me := s.workers[w];
    assert WorkerOk(me, s.positions);
    if me.held != [] { assert me.held[|me.held| - 1] in me.held; }
    hide Inv, WorkerOk;
  }

  // ---------- whole runs ----------

  datatype Event = Event(worker: nat, maxTradeSize: int)

  /** A schedule: which worker moves next; events for workers that do not exist are ignored. */
  function Run(s: System, schedule: seq<Event>): System {
    if schedule == [] then s
    else
      var r := Run(s, schedule[..|schedule| - 1]);
      var e := schedule[|schedule| - 1];
      if e.worker < |r.workers| then Step(r, e.worker, e.maxTradeSize) else r
  }

  ghost predicate Fresh(s: System) {
    && (forall k | k in s.positions ::
          s.positions[k].locked == 0 && s.positions[k].amount == s.positions[k].available >= 0)
    && (forall w | w in s.workers :: w.phase == Start && w.held == [])
  }

  lemma {:induction false} NothingOutstanding(workers: seq<Worker>, k: Key)
    requires forall w | w in workers :: w.held == []
    ensures Outstanding(workers, k) == 0
  {
    if workers != [] {
      var n := |workers| - 1;
      assert workers[n] in workers;
      NothingOutstanding(workers[..n], k);
    }
  }

  /** For any number of workers and any interleaving, the ledger stays exact. */
  lemma {:induction false} EveryRunKeepsInv(s: System, schedule: seq<Event>)
    requires Fresh(s)
    ensures Inv(Run(s, schedule)) && SameAmounts(s.positions, Run(s, schedule).positions)
  {
    if schedule == [] {
      forall k | k in s.positions ensures PositionOk(s, k) {
        NothingOutstanding(s.workers, k);
      }
    } else {
      EveryRunKeepsInv(s, schedule[..|schedule| - 1]);
      var r := Run(s, schedule[..|schedule| - 1]);
      var e := schedule[|schedule| - 1];
      if e.worker < |r.workers| {
        StepKeepsInv(r, e.worker, e.maxTradeSize);
      }
    }
  }

  /** At any moment of any run, a worker that executes holds exactly the locks of its job. */
  lemma ExecutingHoldsItsLocks(s: System, schedule: seq<Event>, w: nat)
    requires Fresh(s) && w < |Run(s, schedule).workers| && Run(s, schedule).workers[w].phase == Execute
    ensures var me := Run(s, schedule).workers[w];
            exists amount: int | amount > 0 && (me.job.input > 0 ==> amount == me.job.input) ::
              me.held == if me.job.crossChain then [(me.job.buy, amount), (me.job.sell, amount)] else [(me.job.buy, amount)]
  {
    EveryRunKeepsInv(s, schedule);
    assert WorkerOk(Run(s, schedule).workers[w], Run(s, schedule).positions);
  }

  /** Available funds never go negative and locks never exceed the position, at any moment. */
  lemma EveryRunSolvent(s: System, schedule: seq<Event>)
    requires Fresh(s)
    ensures Balanced(Run(s, schedule).positions) && Solvent(Run(s, schedule).positions)
  {
    EveryRunKeepsInv(s, schedule);
    var r := Run(s, schedule);
    forall k | k in r.positions
      ensures r.positions[k].locked >= 0 && r.positions[k].available >= 0
      ensures r.positions[k].amount == r.positions[k].available + r.positions[k].locked
    {
      assert PositionOk(r, k);
      OutstandingNonNegative(r.workers, k);
    }
  }

  /** Once every worker has finished, by whatever exit, the ledger is back to its initial state. */
  lemma FinishedRunReleasesAll(s: System, schedule: seq<Event>)
    requires Fresh(s) && forall w | w in Run(s, schedule).workers :: w.phase == Done
    ensures Run(s, schedule).positions == s.positions
  {
    EveryRunKeepsInv(s, schedule);
    var r := Run(s, schedule);
    forall k | k in s.positions ensures r.positions[k] == s.positions[k] {
      assert PositionOk(r, k);
      NothingOutstanding(r.workers, k);
    }
  }

  /** A worker that has begun to unwind needs one step per held lock, and one more, to be done. */
  lemma {:induction false} UnwindFinishes(s: System, w: nat)
    requires w < |s.workers| && s.workers[w].phase == Unwind
    ensures Repeat(s, w, |s.workers[w].held| + 1).workers[w] == s.workers[w].(phase := Done, held := [])
    decreases |s.workers[w].held|
  {
    if s.workers[w].held != [] {
      UnwindFinishes(Step(s, w, 0), w);
    }
  }

  function Repeat(s: System, w: nat, n: nat): (r: System)
    requires w < |s.workers|
    ensures |r.workers| == |s.workers|
    decreases n
  {
    if n == 0 then s else Repeat(Step(s, w, 0), w, n - 1)
  }
}
