/**
 The position ledger of arb/positions.go and the greedy planner GetRebalancePlan, which pairs chains
 that hold too much of a token with chains that hold too little.
 */
module Positions {
  import opened Common

  datatype Key = Key(chain: nat, token: nat)

  datatype Position = Position(amount: int, available: int, locked: int)

  datatype Trade = Trade(fromChain: nat, toChain: nat, token: nat, amount: int)

  type Ledger = map<Key, Position>

  // ---------- locking ----------

  predicate CanLock(m: Ledger, k: Key, amount: int) {
    k in m && m[k].available >= amount
  }

  function Locked(m: Ledger, k: Key, amount: int): Ledger
    requires k in m
  {
    m[k := Position(m[k].amount, m[k].available - amount, m[k].locked + amount)]
  }

  function Unlocked(m: Ledger, k: Key, amount: int): Ledger {
    if k in m then m[k := Position(m[k].amount, m[k].available + amount, m[k].locked - amount)] else m
  }

  /** A trade's effect: the input leaves the locked part, the output arrives as available. */
  function Traded(m: Ledger, chain: nat, tokenIn: nat, tokenOut: nat, amountIn: int, amountOut: int): Ledger {
    var i, o := Key(chain, tokenIn), Key(chain, tokenOut);
    var paid := if i in m then m[i := Position(m[i].amount - amountIn, m[i].available, m[i].locked - amountIn)] else m;
    if o in paid
    then paid[o := Position(paid[o].amount + amountOut, paid[o].available + amountOut, paid[o].locked)]
    else paid[o := Position(amountOut, amountOut, 0)]
  }

  predicate Balanced(m: Ledger) {
    forall k | k in m :: m[k].amount == m[k].available + m[k].locked
  }

  predicate Solvent(m: Ledger) {
    forall k | k in m :: m[k].available >= 0 && m[k].locked >= 0
  }

  lemma TradedKeepsBalance(m: Ledger, chain: nat, tokenIn: nat, tokenOut: nat, amountIn: int, amountOut: int)
    requires Balanced(m)
    ensures Balanced(Traded(m, chain, tokenIn, tokenOut, amountIn, amountOut))
  {
  }

  /** A trade keeps every part non-negative exactly when its input was locked beforehand. */
  lemma TradedSolventIff(m: Ledger, chain: nat, tokenIn: nat, tokenOut: nat, amountIn: int, amountOut: int)
    requires Solvent(m) && amountOut >= 0
    ensures Solvent(Traded(m, chain, tokenIn, tokenOut, amountIn, amountOut))
       <==> (Key(chain, tokenIn) in m ==> m[Key(chain, tokenIn)].locked >= amountIn)
  {
    var i, n := Key(chain, tokenIn), Traded(m, chain, tokenIn, tokenOut, amountIn, amountOut);
    if i in m {
      assert n[i].locked == m[i].locked - amountIn;
    }
  }

  /** Unlocking undoes a lock. */
  lemma UnlockUndoesLock(m: Ledger, k: Key, amount: int)
    requires k in m
    ensures Unlocked(Locked(m, k, amount), k, amount) == m
  {
  }

  // ---------- totals over all chains ----------

  /** The amount of a token over all chains. */
  ghost function Total(m: Ledger, token: nat): int
    decreases |m|
  {
    if m == map[] then 0
    else
      var k :| k in m;
      Total(m - {k}, token) + if k.token == token then m[k].amount else 0
  }

  /** It does not matter in which order the positions are added up. */
  lemma {:induction false} TotalWithout(m: Ledger, k: Key, token: nat)
    requires k in m
    ensures Total(m, token) == Total(m - {k}, token) + if k.token == token then m[k].amount else 0
    decreases |m|
  {
    var j :| j in m && Total(m, token) == Total(m - {j}, token) + if j.token == token then m[j].amount else 0;
    if j != k {
      assert |m - {j}| < |m| by { OneLess(m, j); }
      assert |m - {k}| < |m| by { OneLess(m, k); }
      TotalWithout(m - {j}, k, token);
      TotalWithout(m - {k}, j, token);
      assert m - {j} - {k} == m - {k} - {j};
    }
  }

  lemma OneLess(m: Ledger, k: Key)
    requires k in m
    ensures |m - {k}| == |m| - 1
  {
    assert (m - {k}).Keys == m.Keys - {k} && |m.Keys| == |m| && |(m - {k}).Keys| == |m - {k}|;
  }

  /** Changing one position changes the total of its token by as much, and no other. */
  lemma TotalChange(m: Ledger, k: Key, p: Position, token: nat)
    ensures Total(m[k := p], token) ==
            Total(m, token) + if k.token != token then 0 else p.amount - if k in m then m[k].amount else 0
  {
    TotalWithout(m[k := p], k, token);
    if k in m {
      TotalWithout(m, k, token);
      assert m[k := p] - {k} == m - {k};
    } else {
      assert m[k := p] - {k} == m;
    }
  }

  /** A trade takes its input from the total of one token and adds its output to that of the other; the
      input is taken only from a position that is there. */
  lemma TradedTotals(m: Ledger, chain: nat, tokenIn: nat, tokenOut: nat, amountIn: int, amountOut: int, token: nat)
    ensures Total(Traded(m, chain, tokenIn, tokenOut, amountIn, amountOut), token) ==
            Total(m, token) - (if token == tokenIn && Key(chain, tokenIn) in m then amountIn else 0) + if token == tokenOut then amountOut else 0
  {
    hide Total;
    var i, o := Key(chain, tokenIn), Key(chain, tokenOut);
    var paid := if i in m then m[i := Position(m[i].amount - amountIn, m[i].available, m[i].locked - amountIn)] else m;
    if i in m { TotalChange(m, i, paid[i], token); }
    TotalChange(paid, o, Traded(m, chain, tokenIn, tokenOut, amountIn, amountOut)[o], token);
  }

  /** Locking and unlocking leave every total alone. */
  lemma LockedTotals(m: Ledger, k: Key, amount: int, token: nat)
    requires k in m
    ensures Total(Locked(m, k, amount), token) == Total(Unlocked(m, k, amount), token) == Total(m, token)
  {
    hide Total;
    TotalChange(m, k, Locked(m, k, amount)[k], token);
    TotalChange(m, k, Unlocked(m, k, amount)[k], token);
  }

  class PositionManager {
    var positions: Ledger
    var targets: map<Key, int>
    const minRebalanceAmount: int
    var totalTrades: nat

    constructor (initial: map<Key, int>, minRebalanceAmount: int)
      ensures positions == map k | k in initial :: Position(initial[k], initial[k], 0)
      ensures targets == initial && this.minRebalanceAmount == minRebalanceAmount && totalTrades == 0
    {
      positions := map k | k in initial :: Position(initial[k], initial[k], 0);
      targets, this.minRebalanceAmount, totalTrades := initial, minRebalanceAmount, 0;
    }

    method Lock(k: Key, amount: int) returns (ok: bool)
      modifies this`positions
      ensures ok == CanLock(old(positions), k, amount)
      ensures positions == if ok then Locked(old(positions), k, amount) else old(positions)
      ensures ok <==> k in old(positions) && old(positions)[k].available >= amount
      ensures ok ==>
                var p := old(positions)[k];
                positions == old(positions)[k := Position(p.amount, p.available - amount, p.locked + amount)]
    {
      if k !in positions { return false; }
      var pos := positions[k];
      if pos.available < amount { return false; }
      pos := pos.(available := pos.available - amount);
      pos := pos.(locked := pos.locked + amount);
      positions := positions[k := pos];
      ok := true;
    }

    method Unlock(k: Key, amount: int)
      modifies this`positions
      ensures positions == Unlocked(old(positions), k, amount)
      ensures k !in old(positions) ==> positions == old(positions)
      ensures k in old(positions) ==>
                var p := old(positions)[k];
                positions == old(positions)[k := Position(p.amount, p.available + amount, p.locked - amount)]
    {
      if k !in positions { return; }
      var pos := positions[k];
      pos := pos.(locked := pos.locked - amount);
      pos := pos.(available := pos.available + amount);
      positions := positions[k := pos];
    }

    method AdjustAfterTrade(chain: nat, tokenIn: nat, tokenOut: nat, amountIn: int, amountOut: int)
      modifies this`positions, this`totalTrades
      ensures positions == Traded(old(positions), chain, tokenIn, tokenOut, amountIn, amountOut)
      ensures totalTrades == old(totalTrades) + 1
      ensures tokenIn != tokenOut ==>
                var i, o := Key(chain, tokenIn), Key(chain, tokenOut);
                && positions.Keys == old(positions).Keys + {o} && (forall k | k in old(positions) && k != i && k != o :: positions[k] == old(positions)[k])
                && (i in old(positions) ==>
                      var p := old(positions)[i]; positions[i] == Position(p.amount - amountIn, p.available, p.locked - amountIn))
                && positions[o] == var p := (if o in old(positions) then old(positions)[o] else Position(0, 0, 0));
                                   Position(p.amount + amountOut, p.available + amountOut, p.locked)
    {
      var i, o := Key(chain, tokenIn), Key(chain, tokenOut);
      if i in positions {
        var pos := positions[i];
        positions := positions[i := pos.(amount := pos.amount - amountIn, locked := pos.locked - amountIn)];
      }
      if o in positions {
        var pos := positions[o];
        positions := positions[o := pos.(amount := pos.amount + amountOut, available := pos.available + amountOut)];
      } else {
        positions := positions[o := Position(amountOut, amountOut, 0)];
      }
      totalTrades := totalTrades + 1;
    }

    /** Collects the imbalances, in whatever order the map yields them, and plans the transfers. */
    method GetRebalancePlan() returns (trades: seq<Trade>)
      ensures Planned(positions, targets, minRebalanceAmount, trades)
    {
      var list, todo := [], positions.Keys;
      while todo != {}
        invariant todo <= positions.Keys && Distinct(list)
        invariant forall k :: k in list <==> k in positions && k !in todo && k in targets
                                             && Abs(positions[k].amount - targets[k]) >= Abs(minRebalanceAmount)
      {
        var k :| k in todo;
        todo := todo - {k};
        if k in targets && Abs(positions[k].amount - targets[k]) >= Abs(minRebalanceAmount) {
          list := list + [k];
        }
      }
      var delta := Deviations(list, positions, targets);
      var left;
      trades, left := PlanTransfers(list, delta, minRebalanceAmount);
      assert PlansFor(positions, targets, minRebalanceAmount, list, left, trades);
    }
  }

  // ---------- the planner ----------

  predicate Distinct(keys: seq<Key>) {
    forall i, j | 0 <= i < j < |keys| :: keys[i] != keys[j]
  }

  /** How far each position is from its target. */
  function Deviations(keys: seq<Key>, positions: Ledger, targets: map<Key, int>): (d: seq<int>)
    requires forall k | k in keys :: k in positions && k in targets
    ensures |d| == |keys| && forall i | 0 <= i < |d| :: d[i] == positions[keys[i]].amount - targets[keys[i]]
  {
    seq(|keys|, i requires 0 <= i < |keys| => positions[keys[i]].amount - targets[keys[i]])
  }

  /** What the trades take out of a position, less what they bring in. */
  function Outflow(trades: seq<Trade>, k: Key): int {
    if trades == [] then 0
    else
      var t := trades[|trades| - 1];
      Outflow(trades[..|trades| - 1], k)
        + (if t.token == k.token && t.fromChain == k.chain then t.amount else 0)
        - (if t.token == k.token && t.toChain == k.chain then t.amount else 0)
  }

  function TradesOf(trades: seq<Trade>, token: nat): nat {
    if trades == [] then 0
    else TradesOf(trades[..|trades| - 1], token) + (if trades[|trades| - 1].token == token then 1 else 0)
  }

  /** Number of positions of a token, and of those with a deviation left. */
  function CountOf(keys: seq<Key>, token: nat): nat {
    if keys == [] then 0
    else CountOf(keys[..|keys| - 1], token) + (if keys[|keys| - 1].token == token then 1 else 0)
  }

  function OpenOf(keys: seq<Key>, d: seq<int>, token: nat): nat
    requires |keys| == |d|
  {
    if keys == [] then 0
    else
      var n := |keys| - 1;
      OpenOf(keys[..n], d[..n], token) + (if keys[n].token == token && d[n] != 0 then 1 else 0)
  }

  function TotalOf(keys: seq<Key>, d: seq<int>, token: nat): int
    requires |keys| == |d|
  {
    if keys == [] then 0
    else
      var n := |keys| - 1;
      TotalOf(keys[..n], d[..n], token) + (if keys[n].token == token then d[n] else 0)
  }

  /** Every deviation moves toward zero and never past it. */
  ghost predicate Shrinks(d0: seq<int>, d: seq<int>) {
    |d0| == |d| && forall i {:trigger d[i]} | 0 <= i < |d| ::
      (d0[i] >= 0 ==> 0 <= d[i] <= d0[i]) && (d0[i] <= 0 ==> d0[i] <= d[i] <= 0)
  }

  /** The trades account exactly for the change. */
  ghost predicate Accounts(keys: seq<Key>, d0: seq<int>, d: seq<int>, trades: seq<Trade>)
    requires |keys| == |d0| == |d|
  {
    forall i | 0 <= i < |d| :: d[i] == d0[i] - Outflow(trades, keys[i])
  }

  ghost predicate Sized(trades: seq<Trade>, min: int) {
    forall t | t in trades :: t.amount >= min && t.amount >= 0 && t.fromChain != t.toChain
  }

  /** At the start the trade's source held too much and its destination too little. */
  ghost predicate Wanted(keys: seq<Key>, d0: seq<int>, t: Trade)
    requires |keys| == |d0|
  {
    && (exists i | 0 <= i < |keys| :: keys[i] == Key(t.fromChain, t.token) && d0[i] > 0)
    && (exists j | 0 <= j < |keys| :: keys[j] == Key(t.toChain, t.token) && d0[j] < 0)
  }

  /** Every trade takes from a chain that held too much and brings to one that held too little. */
  ghost predicate Directed(keys: seq<Key>, d0: seq<int>, trades: seq<Trade>)
    requires |keys| == |d0|
  {
    forall t | t in trades :: Wanted(keys, d0, t)
  }

  /** Positions i and j cannot both be improved by a transfer of at least min from i to j. */
  ghost predicate Settled(keys: seq<Key>, d: seq<int>, min: int, i: nat, j: nat)
    requires i < |keys| == |d| && j < |keys|
  {
    keys[i].token == keys[j].token ==> !(d[i] >= min && d[j] <= -min)
  }

  /** Each trade of a token closes a position, and the last closes two. */
  ghost predicate Frugal(keys: seq<Key>, d: seq<int>, trades: seq<Trade>, token: nat)
    requires |keys| == |d|
  {
    && TradesOf(trades, token) + OpenOf(keys, d, token) <= CountOf(keys, token)
    && (CountOf(keys, token) > 0 && OpenOf(keys, d, token) == 0 ==> TradesOf(trades, token) < CountOf(keys, token))
  }

  /** What a plan guarantees, for every order of the imbalances. */
  ghost predicate PlanOk(keys: seq<Key>, d0: seq<int>, d: seq<int>, trades: seq<Trade>, min: int)
    requires |keys| == |d0| == |d|
  {
    && Shrinks(d0, d) && Accounts(keys, d0, d, trades) && Sized(trades, min) && Directed(keys, d0, trades)
    && (forall token :: TotalOf(keys, d, token) == TotalOf(keys, d0, token))
    && (min > 0 ==> forall i, j | 0 <= i < |keys| && 0 <= j < |keys| :: Settled(keys, d, min, i, j))
    && (min > 0 ==> forall token | CountOf(keys, token) > 0 :: TradesOf(trades, token) < CountOf(keys, token))
  }

  /** keys lists exactly the positions that deviate by at least the minimum, each once. */
  ghost predicate Selected(positions: Ledger, targets: map<Key, int>, min: int, keys: seq<Key>) {
    && Distinct(keys)
    && forall k :: k in keys <==> k in positions && k in targets && Abs(positions[k].amount - targets[k]) >= Abs(min)
  }

  /** The trades take the deviations of those positions to what is left. */
  ghost predicate PlansFor(positions: Ledger, targets: map<Key, int>, min: int, keys: seq<Key>, left: seq<int>, trades: seq<Trade>) {
    && Selected(positions, targets, min, keys) && |left| == |keys|
    && PlanOk(keys, Deviations(keys, positions, targets), left, trades, min)
  }

  ghost predicate Planned(positions: Ledger, targets: map<Key, int>, min: int, trades: seq<Trade>) {
    exists keys, left :: PlansFor(positions, targets, min, keys, left, trades)
  }

  // ---------- one transfer ----------

  lemma {:induction false} TotalUpdate(keys: seq<Key>, d: seq<int>, i: nat, x: int, token: nat)
    requires |keys| == |d| && i < |d|
    ensures TotalOf(keys, d[i := x], token) == TotalOf(keys, d, token) + (if keys[i].token == token then x - d[i] else 0)
  {
    var n := |keys| - 1;
    if i == n {
      assert d[i := x][..n] == d[..n];
    } else {
      assert d[i := x][..n] == d[..n][i := x];
      TotalUpdate(keys[..n], d[..n], i, x, token);
    }
  }

  function Bit(b: bool): nat {
    if b then 1 else 0
  }

  lemma {:induction false} OpenUpdate(keys: seq<Key>, d: seq<int>, i: nat, x: int, token: nat)
    requires |keys| == |d| && i < |d|
    ensures OpenOf(keys, d[i := x], token)
         == OpenOf(keys, d, token) + (if keys[i].token == token then Bit(x != 0) - Bit(d[i] != 0) else 0)
  {
    var n := |keys| - 1;
    if i == n {
      assert d[i := x][..n] == d[..n];
    } else {
      assert d[i := x][..n] == d[..n][i := x];
      OpenUpdate(keys[..n], d[..n], i, x, token);
    }
  }

  lemma {:induction false} OpenPositive(keys: seq<Key>, d: seq<int>, i: nat)
    requires |keys| == |d| && i < |d| && d[i] != 0
    ensures OpenOf(keys, d, keys[i].token) > 0
  {
    var n := |keys| - 1;
    if i < n { OpenPositive(keys[..n], d[..n], i); }
  }

  lemma {:induction false} OpenAtMostCount(keys: seq<Key>, d: seq<int>, token: nat)
    requires |keys| == |d|
    ensures OpenOf(keys, d, token) <= CountOf(keys, token)
    ensures (forall i | 0 <= i < |d| :: d[i] != 0) ==> OpenOf(keys, d, token) == CountOf(keys, token)
  {
    if keys != [] {
      var n := |keys| - 1;
      OpenAtMostCount(keys[..n], d[..n], token);
    }
  }

  /** The planner's state, kept by every transfer. */
  ghost predicate Planning(keys: seq<Key>, d0: seq<int>, d: seq<int>, trades: seq<Trade>, min: int)
    requires |keys| == |d0| == |d|
  {
    && Shrinks(d0, d) && Accounts(keys, d0, d, trades) && Sized(trades, min) && Directed(keys, d0, trades)
    && (forall token :: TotalOf(keys, d, token) == TotalOf(keys, d0, token))
    && (min > 0 ==> forall token :: Frugal(keys, d, trades, token))
  }

  function After(d: seq<int>, i: nat, j: nat, amount: int): (r: seq<int>)
    requires i < |d| && j < |d|
    ensures |r| == |d|
  {
    d[i := d[i] - amount][j := d[j] + amount]
  }

  lemma TransferKeepsFrugal(keys: seq<Key>, d: seq<int>, trades: seq<Trade>, i: nat, j: nat, t: Trade, token: nat)
    requires |keys| == |d| && i < |d| && j < |d| && i != j && keys[i].token == keys[j].token == t.token
    requires d[i] > 0 > d[j] && t.amount == if d[i] <= -d[j] then d[i] else -d[j]
    requires Frugal(keys, d, trades, token)
    ensures Frugal(keys, After(d, i, j, t.amount), trades + [t], token)
  {
    var e := d[i := d[i] - t.amount];
    var r := After(d, i, j, t.amount);
    OpenUpdate(keys, d, i, e[i], token);
    OpenUpdate(keys, e, j, r[j], token);
    assert (trades + [t])[..|trades|] == trades;
    if token == t.token {
      OpenPositive(keys, d, i);
      if r[i] != 0 { OpenPositive(keys, r, i); }
      if r[j] != 0 { OpenPositive(keys, r, j); }
    }
  }

  lemma TransferKeepsAccounts(keys: seq<Key>, d0: seq<int>, d: seq<int>, trades: seq<Trade>, i: nat, j: nat, t: Trade)
    requires |keys| == |d0| == |d| && i < |d| && j < |d| && i != j && Distinct(keys)
    requires t.token == keys[i].token == keys[j].token && t.fromChain == keys[i].chain && t.toChain == keys[j].chain
    requires Accounts(keys, d0, d, trades)
    ensures Accounts(keys, d0, After(d, i, j, t.amount), trades + [t])
  {
    assert (trades + [t])[..|trades|] == trades;
    var r := After(d, i, j, t.amount);
    forall k | 0 <= k < |d| ensures r[k] == d0[k] - Outflow(trades + [t], keys[k]) {
      assert k != i ==> keys[k] != keys[i];
      assert k != j ==> keys[k] != keys[j];
      assert keys[i] != keys[j];
    }
  }

  lemma TransferKeepsPlanning(keys: seq<Key>, d0: seq<int>, d: seq<int>, trades: seq<Trade>, min: int, i: nat, j: nat, t: Trade)
    requires |keys| == |d0| == |d| && i < |d| && j < |d| && i != j && Distinct(keys)
    requires t == Trade(keys[i].chain, keys[j].chain, keys[i].token, t.amount) && keys[i].token == keys[j].token
    requires d[i] >= 0 > d[j] && d0[i] > 0 && t.amount == (if -d[j] < d[i] then -d[j] else d[i]) && t.amount >= min
    requires Planning(keys, d0, d, trades, min)
    ensures Planning(keys, d0, After(d, i, j, t.amount), trades + [t], min)
    ensures min > 0 ==> Settled(keys, After(d, i, j, t.amount), min, i, j)
  {
    var e := d[i := d[i] - t.amount];
    var r := After(d, i, j, t.amount);
    TransferKeepsAccounts(keys, d0, d, trades, i, j, t);
    assert Wanted(keys, d0, t) by {
      assert d[j] < 0;
      assert keys[i] == Key(t.fromChain, t.token) && keys[j] == Key(t.toChain, t.token);
    }
    hide Wanted;
    forall token ensures TotalOf(keys, r, token) == TotalOf(keys, d0, token) {
      TotalUpdate(keys, d, i, e[i], token);
      TotalUpdate(keys, e, j, r[j], token);
    }
    if min > 0 {
      forall token ensures Frugal(keys, r, trades + [t], token) {
        assert Frugal(keys, d, trades, token);
        TransferKeepsFrugal(keys, d, trades, i, j, t, token);
      }
    }
    assert keys[i] != keys[j];
  }

  /** A settled pair stays settled while deviations shrink. */
  lemma SettledStays(keys: seq<Key>, d: seq<int>, e: seq<int>, min: int, i: nat, j: nat)
    requires i < |keys| == |d| == |e| && j < |keys| && min > 0 && Shrinks(d, e) && Settled(keys, d, min, i, j)
    ensures Settled(keys, e, min, i, j)
  {
    assert e[i] <= e[i] && e[j] <= e[j];
  }

  method PlanTransfers(keys: seq<Key>, d0: seq<int>, min: int) returns (trades: seq<Trade>, left: seq<int>)
    requires |keys| == |d0| && Distinct(keys) && forall i | 0 <= i < |d0| :: Abs(d0[i]) >= min
    ensures |left| == |keys| && PlanOk(keys, d0, left, trades, min)
  {
    var d := d0;
    trades := [];
    forall token ensures min > 0 ==> Frugal(keys, d, trades, token) {
      OpenAtMostCount(keys, d, token);
    }
    for i := 0 to |keys|
      invariant |d| == |keys| && Planning(keys, d0, d, trades, min)
      invariant min > 0 ==> forall a, b | 0 <= a < i && 0 <= b < |keys| :: Settled(keys, d, min, a, b)
    {
      if d[i] > 0 {
        for j := 0 to |keys|
          invariant |d| == |keys| && d[i] >= 0 && d0[i] > 0 && Planning(keys, d0, d, trades, min)
          invariant min > 0 ==> forall a, b | 0 <= a < i && 0 <= b < |keys| :: Settled(keys, d, min, a, b)
          invariant min > 0 ==> forall b | 0 <= b < j :: Settled(keys, d, min, i, b)
        {
          if i != j && d[j] < 0 && keys[i].token == keys[j].token {
            var amount := if -d[j] < d[i] then -d[j] else d[i];
            if amount >= min {
              var t := Trade(keys[i].chain, keys[j].chain, keys[i].token, amount);
              ghost var before := d;
              TransferKeepsPlanning(keys, d0, d, trades, min, i, j, t);
              d := After(d, i, j, amount);
              trades := trades + [t];
              if min > 0 {
                forall a: nat, b: nat | a < |keys| && b < |keys| && Settled(keys, before, min, a, b)
                  ensures Settled(keys, d, min, a, b)
                {
                  SettledStays(keys, before, d, min, a, b);
                }
              }
            }
          }
        }
      }
    }
    left := d;
    forall token | min > 0 && CountOf(keys, token) > 0 ensures TradesOf(trades, token) < CountOf(keys, token) {
      assert Frugal(keys, d, trades, token);
    }
  }
}
