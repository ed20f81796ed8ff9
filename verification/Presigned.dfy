/**
 The cache of pre-signed transactions (arb/presigned.go): nonce allocation, refills, hand-out,
 pruning and nonce bookkeeping. Building and signing a transaction is a parameter that may fail; a
 failed attempt still consumes its nonce. Nonces are 64-bit and their counter wraps around.
 */
module Presigned {
  import opened Common

  const TwoTo64: nat := 0x1_0000_0000_0000_0000
  type Uint64 = x: nat | x < TwoTo64

  /** One list of the cache: its chain, exchange, direction and amount. */
  datatype Slot = Slot(chain: Uint64, dex: string, direction: string, amount: int)
  datatype Tx = Tx(slot: Slot, nonce: Uint64, createdAt: int, expiresAt: int)
  type Cache = map<Slot, seq<Tx>>
  type Nonces = map<Uint64, Uint64>

  function NonceOf(nonces: Nonces, chain: Uint64): Uint64 {
    if chain in nonces then nonces[chain] else 0
  }

  function Succ(nonce: Uint64): Uint64 {
    (nonce + 1) % TwoTo64
  }

  /** The transactions of a list that satisfy a condition, in order. */
  function Filter(txs: seq<Tx>, keep: Tx -> bool): seq<Tx> {
    if txs == [] then []
    else Filter(txs[..|txs| - 1], keep) + (if keep(txs[|txs| - 1]) then [txs[|txs| - 1]] else [])
  }

  function Unexpired(now: int): Tx -> bool {
    (tx: Tx) => now < tx.expiresAt
  }

  function OtherNonce(nonce: Uint64): Tx -> bool {
    (tx: Tx) => tx.nonce != nonce
  }

  ghost predicate Increasing(txs: seq<Tx>) {
    forall i, j | 0 <= i < j < |txs| :: txs[i].nonce < txs[j].nonce
  }

  lemma {:induction false} FilterMembers(txs: seq<Tx>, keep: Tx -> bool)
    ensures forall tx :: tx in Filter(txs, keep) <==> tx in txs && keep(tx)
  {
    if txs != [] {
      var n := |txs| - 1;
      FilterMembers(txs[..n], keep);
      assert txs == txs[..n] + [txs[n]];
    }
  }

  lemma {:induction false} FilterCounts(txs: seq<Tx>, keep: Tx -> bool, tx: Tx)
    ensures multiset(Filter(txs, keep))[tx] == if keep(tx) then multiset(txs)[tx] else 0
  {
    if txs != [] {
      var n := |txs| - 1;
      FilterCounts(txs[..n], keep, tx);
      assert txs == txs[..n] + [txs[n]];
    }
  }

  lemma {:induction false} FilterIncreasing(txs: seq<Tx>, keep: Tx -> bool)
    requires Increasing(txs)
    ensures Increasing(Filter(txs, keep))
  {
    if txs != [] {
      var n := |txs| - 1;
      FilterIncreasing(txs[..n], keep);
      FilterMembers(txs[..n], keep);
      var f := Filter(txs[..n], keep);
      forall i | 0 <= i < |f| ensures f[i].nonce < txs[n].nonce {
        assert f[i] in txs[..n];
      }
    }
  }

  // ---------- what is issued ----------

  /** A nonce of a chain. */
  type Stamp = (Uint64, Uint64)

  function StampOf(tx: Tx): Stamp {
    (tx.slot.chain, tx.nonce)
  }

  /** Some nonce of the chain was issued twice. */
  ghost predicate Repeats(log: seq<Stamp>, chain: Uint64) {
    exists i, j | 0 <= i < j < |log| :: log[i] == log[j] && log[i].0 == chain
  }

  /** What has been issued: every nonce in order, the transaction each was last issued for, the chains
      whose counter has passed 2^64 - 1, and the chains on which a nonce was issued twice. */
  datatype Books = Books(log: seq<Stamp>, issued: map<Stamp, Tx>, wrapped: set<Uint64>, repeated: set<Uint64>)

  const NoBooks := Books([], map[], {}, {})

  function Booked(books: Books, tx: Tx): Books {
    var chain, stamp := tx.slot.chain, StampOf(tx);
    Books(books.log + [stamp], books.issued[stamp := tx],
          if tx.nonce == TwoTo64 - 1 then books.wrapped + {chain} else books.wrapped,
          if stamp in books.issued then books.repeated + {chain} else books.repeated)
  }

  ghost predicate BooksOk(books: Books) {
    && (forall stamp :: stamp in books.issued <==> stamp in books.log)
    && (forall chain: Uint64 :: chain in books.wrapped <==> (chain, TwoTo64 - 1) in books.issued)
    && (forall chain: Uint64 :: chain in books.repeated <==> Repeats(books.log, chain))
  }

  /** Issuing a nonce makes a chain repeat exactly if it did before, or the nonce was issued on it before. */
  lemma RepeatsIff(log: seq<Stamp>, stamp: Stamp, chain: Uint64)
    ensures Repeats(log + [stamp], chain) <==> Repeats(log, chain) || (stamp.0 == chain && stamp in log)
  {
    var next := log + [stamp];
    if Repeats(log, chain) {
      var i, j :| 0 <= i < j < |log| && log[i] == log[j] && log[i].0 == chain;
      assert next[i] == next[j] && next[i].0 == chain;
    } else if stamp.0 == chain && stamp in log {
      var i :| 0 <= i < |log| && log[i] == stamp;
      assert next[i] == next[|log|] && next[i].0 == chain;
    }
  }

  lemma BookedOk(books: Books, tx: Tx)
    requires BooksOk(books)
    ensures BooksOk(Booked(books, tx))
  {
    hide Repeats;
    forall chain: Uint64 ensures Repeats(Booked(books, tx).log, chain) <==> chain in Booked(books, tx).repeated {
      RepeatsIff(books.log, StampOf(tx), chain);
    }
  }

  // ---------- the invariant ----------

  ghost predicate Issued(books: Books, tx: Tx) {
    StampOf(tx) in books.issued && books.issued[StampOf(tx)] == tx
  }

  ghost predicate Apart(txs: seq<Tx>) {
    forall i, j | 0 <= i < j < |txs| :: txs[i].nonce != txs[j].nonce
  }

  ghost predicate SlotOk(slot: Slot, txs: seq<Tx>, books: Books, handed: seq<Tx>) {
    && Apart(txs)
    && forall tx | tx in txs :: tx.slot == slot && Issued(books, tx) && tx !in handed
  }

  ghost predicate SlotsOk(cache: Cache, books: Books, handed: seq<Tx>) {
    forall slot {:trigger SlotOk(slot, cache[slot], books, handed)} | slot in cache && slot.chain !in books.repeated ::
      SlotOk(slot, cache[slot], books, handed)
  }

  ghost predicate InOrder(cache: Cache, books: Books) {
    forall slot | slot in cache && slot.chain !in books.wrapped :: Increasing(cache[slot])
  }

  ghost predicate HandedOk(handed: seq<Tx>, books: Books) {
    && (forall k | 0 <= k < |handed| && handed[k].slot.chain !in books.repeated :: Issued(books, handed[k]))
    && (forall k, l | 0 <= k < l < |handed| && handed[k].slot.chain !in books.repeated :: handed[k] != handed[l])
  }

  /** Every nonce issued on a chain whose counter has not wrapped around is below the counter. */
  ghost predicate Below(books: Books, maxNonce: Nonces) {
    forall p | p in books.issued && p.0 !in books.wrapped :: p.1 < NonceOf(maxNonce, p.0)
  }

  ghost predicate CachedIssued(cache: Cache, books: Books) {
    forall slot | slot in cache :: forall tx | tx in cache[slot] :: tx.slot == slot && StampOf(tx) in books.issued
  }

  ghost predicate Core(cache: Cache, maxNonce: Nonces, books: Books, handed: seq<Tx>) {
    && BooksOk(books) && SlotsOk(cache, books, handed) && InOrder(cache, books) && HandedOk(handed, books)
    && Below(books, maxNonce) && CachedIssued(cache, books)
  }

  /** On a chain on which no nonce was issued twice, none occurs twice among all cached and handed-out
      transactions; on one whose counter has not wrapped around, every cached one is below it. */
  lemma NoncesDistinct(cache: Cache, maxNonce: Nonces, books: Books, handed: seq<Tx>, chain: Uint64)
    requires Core(cache, maxNonce, books, handed)
    ensures !Repeats(books.log, chain) ==>
              forall k, l | 0 <= k < l < |handed| && handed[k].slot.chain == chain && handed[l].slot.chain == chain ::
                handed[k].nonce != handed[l].nonce
    ensures !Repeats(books.log, chain) ==>
              forall s, i, k | s in cache && s.chain == chain && 0 <= i < |cache[s]| && 0 <= k < |handed| && handed[k].slot.chain == chain ::
                cache[s][i].nonce != handed[k].nonce
    ensures !Repeats(books.log, chain) ==>
              forall s, t, i, j | s in cache && t in cache && s.chain == chain && t.chain == chain
                                  && 0 <= i < |cache[s]| && 0 <= j < |cache[t]| && (s, i) != (t, j) ::
                cache[s][i].nonce != cache[t][j].nonce
    ensures (chain, TwoTo64 - 1) !in books.issued ==>
              forall s, i | s in cache && s.chain == chain && 0 <= i < |cache[s]| :: cache[s][i].nonce < NonceOf(maxNonce, chain)
  {
    hide Repeats;
    if !Repeats(books.log, chain) {
      forall s, i | s in cache && s.chain == chain && 0 <= i < |cache[s]|
        ensures cache[s][i].slot == s && Issued(books, cache[s][i]) && cache[s][i] !in handed
      {
        assert SlotOk(s, cache[s], books, handed);
      }
      forall s, t, i, j | s in cache && t in cache && s.chain == chain && t.chain == chain
                          && 0 <= i < |cache[s]| && 0 <= j < |cache[t]| && (s, i) != (t, j)
        ensures cache[s][i].nonce != cache[t][j].nonce
      {
        if s == t { assert SlotOk(s, cache[s], books, handed); }
      }
    }
  }

  /** The next nonce of a chain is one issued before only if the counter has wrapped around. */
  lemma RepeatNeedsWrap(cache: Cache, maxNonce: Nonces, books: Books, handed: seq<Tx>, chain: Uint64)
    requires Core(cache, maxNonce, books, handed)
    ensures (chain, NonceOf(maxNonce, chain)) in books.log ==> (chain, TwoTo64 - 1) in books.log
  {
    hide Repeats;
  }

  // ---------- what each operation does to it ----------

  function ListOf(cache: Cache, slot: Slot): seq<Tx> {
    if slot in cache then cache[slot] else []
  }

  /** Issuing the next nonce of a slot's chain; with `kept`, its transaction joins the slot. */
  lemma IssueKeeps(cache: Cache, maxNonce: Nonces, books: Books, handed: seq<Tx>, tx: Tx, kept: bool)
    requires Core(cache, maxNonce, books, handed) && tx.nonce == NonceOf(maxNonce, tx.slot.chain)
    ensures Core(if kept then cache[tx.slot := ListOf(cache, tx.slot) + [tx]] else cache,
                 maxNonce[tx.slot.chain := Succ(tx.nonce)], Booked(books, tx), handed)
  {
    var cache' := if kept then cache[tx.slot := ListOf(cache, tx.slot) + [tx]] else cache;
    BookedOk(books, tx);
    hide Repeats, BooksOk;
    IssueKeepsSlots(cache, books, handed, tx, kept);
    IssueKeepsOrder(cache, maxNonce, books, tx, kept);
    IssueKeepsBelow(maxNonce, books, tx);
    IssueKeepsHanded(books, handed, tx);
  }

  lemma StillIssued(books: Books, tx: Tx, t: Tx)
    requires Issued(books, t) && t.slot.chain !in Booked(books, tx).repeated
    ensures Issued(Booked(books, tx), t) && t != tx && (t.slot.chain == tx.slot.chain ==> t.nonce != tx.nonce)
    ensures t.slot.chain !in books.repeated
  {
  }

  lemma IssueKeepsHanded(books: Books, handed: seq<Tx>, tx: Tx)
    requires HandedOk(handed, books)
    ensures HandedOk(handed, Booked(books, tx))
  {
    forall k | 0 <= k < |handed| && handed[k].slot.chain !in Booked(books, tx).repeated ensures Issued(Booked(books, tx), handed[k]) {
      StillIssued(books, tx, handed[k]);
    }
  }

  lemma IssueKeepsBelow(maxNonce: Nonces, books: Books, tx: Tx)
    requires Below(books, maxNonce) && tx.nonce == NonceOf(maxNonce, tx.slot.chain)
    ensures Below(Booked(books, tx), maxNonce[tx.slot.chain := Succ(tx.nonce)])
  {
  }

  lemma IssueKeepsOrder(cache: Cache, maxNonce: Nonces, books: Books, tx: Tx, kept: bool)
    requires InOrder(cache, books) && Below(books, maxNonce) && CachedIssued(cache, books) && tx.nonce == NonceOf(maxNonce, tx.slot.chain)
    ensures var cache' := if kept then cache[tx.slot := ListOf(cache, tx.slot) + [tx]] else cache;
            InOrder(cache', Booked(books, tx)) && CachedIssued(cache', Booked(books, tx))
  {
    var slot := tx.slot;
    if kept && slot.chain !in Booked(books, tx).wrapped && slot in cache {
      forall t | t in cache[slot] ensures t.nonce < tx.nonce {
        assert StampOf(t) in books.issued;
      }
    }
  }

  lemma IssueKeepsSlots(cache: Cache, books: Books, handed: seq<Tx>, tx: Tx, kept: bool)
    requires SlotsOk(cache, books, handed) && HandedOk(handed, books) && CachedIssued(cache, books)
    ensures SlotsOk(if kept then cache[tx.slot := ListOf(cache, tx.slot) + [tx]] else cache, Booked(books, tx), handed)
  {
    var cache' := if kept then cache[tx.slot := ListOf(cache, tx.slot) + [tx]] else cache;
    var books' := Booked(books, tx);
    forall s | s in cache' && s.chain !in books'.repeated ensures SlotOk(s, cache'[s], books', handed) {
      var txs := ListOf(cache, s);
      if s in cache { assert SlotOk(s, cache[s], books, handed); }
      forall t | t in txs ensures Issued(books', t) && (t.slot.chain == tx.slot.chain ==> t.nonce != tx.nonce) {
        StillIssued(books, tx, t);
      }
      if s == tx.slot {
        forall k | 0 <= k < |handed| ensures handed[k] != tx {
          if handed[k].slot.chain == s.chain { StillIssued(books, tx, handed[k]); }
        }
      }
    }
  }

  /** Raising the counter, or leaving it, keeps everything below it. */
  lemma RaiseKeeps(cache: Cache, maxNonce: Nonces, books: Books, handed: seq<Tx>, chain: Uint64, nonce: Uint64)
    requires Core(cache, maxNonce, books, handed) && NonceOf(maxNonce, chain) < nonce
    ensures Core(cache, maxNonce[chain := nonce], books, handed)
  {
    hide BooksOk, SlotsOk, InOrder, HandedOk, CachedIssued;
  }

  /** Dropping transactions from one list. */
  lemma DropKeeps(cache: Cache, maxNonce: Nonces, books: Books, handed: seq<Tx>, slot: Slot, keep: Tx -> bool)
    requires Core(cache, maxNonce, books, handed) && slot in cache
    ensures Core(cache[slot := Filter(cache[slot], keep)], maxNonce, books, handed)
  {
    hide BooksOk, HandedOk, Below;
    FilterMembers(cache[slot], keep);
    if slot.chain !in books.repeated {
      assert SlotOk(slot, cache[slot], books, handed);
      FilterApart(cache[slot], keep);
    }
    if slot.chain !in books.wrapped { FilterIncreasing(cache[slot], keep); }
    ReplaceKeeps(cache, books, handed, slot, Filter(cache[slot], keep));
  }

  /** Replacing one list by part of it. */
  lemma ReplaceKeeps(cache: Cache, books: Books, handed: seq<Tx>, slot: Slot, txs: seq<Tx>)
    requires slot in cache && SlotsOk(cache, books, handed) && InOrder(cache, books) && CachedIssued(cache, books)
    requires forall t | t in txs :: t in cache[slot]
    requires slot.chain !in books.repeated ==> Apart(txs)
    requires slot.chain !in books.wrapped ==> Increasing(txs)
    ensures SlotsOk(cache[slot := txs], books, handed) && InOrder(cache[slot := txs], books) && CachedIssued(cache[slot := txs], books)
  {
    hide Apart, Increasing;
    var cache' := cache[slot := txs];
    forall s | s in cache' && s.chain !in books.repeated ensures SlotOk(s, cache'[s], books, handed) {
      assert SlotOk(s, cache[s], books, handed);
    }
  }

  /** Handing out transaction i of a list. */
  lemma HandOutKeeps(cache: Cache, maxNonce: Nonces, books: Books, handed: seq<Tx>, slot: Slot, i: nat)
    requires Core(cache, maxNonce, books, handed) && slot in cache && i < |cache[slot]|
    ensures Core(cache[slot := cache[slot][..i] + cache[slot][i + 1..]], maxNonce, books, handed + [cache[slot][i]])
  {
    hide BooksOk, Below;
    var tx, rest := cache[slot][i], cache[slot][..i] + cache[slot][i + 1..];
    assert tx in cache[slot];
    RestMembers(cache[slot], i);
    if slot.chain !in books.repeated {
      assert SlotOk(slot, cache[slot], books, handed);
      RestApart(cache[slot], i);
    }
    if slot.chain !in books.wrapped { RestIncreasing(cache[slot], i); }
    ReplaceKeeps(cache, books, handed, slot, rest);
    var cache' := cache[slot := rest];
    forall s | s in cache' && s.chain !in books.repeated ensures SlotOk(s, cache'[s], books, handed + [tx]) {
      assert SlotOk(s, cache'[s], books, handed);
    }
    HandedGrows(handed, books, tx);
  }

  lemma HandedGrows(handed: seq<Tx>, books: Books, tx: Tx)
    requires HandedOk(handed, books) && (tx.slot.chain !in books.repeated ==> Issued(books, tx) && tx !in handed)
    ensures HandedOk(handed + [tx], books)
  {
  }

  lemma RestMembers(txs: seq<Tx>, i: nat)
    requires i < |txs|
    ensures forall t | t in txs[..i] + txs[i + 1..] :: t in txs
  {
  }

  lemma RestApart(txs: seq<Tx>, i: nat)
    requires Apart(txs) && i < |txs|
    ensures Apart(txs[..i] + txs[i + 1..])
    ensures txs[i] !in txs[..i] + txs[i + 1..]
  {
  }

  lemma RestIncreasing(txs: seq<Tx>, i: nat)
    requires Increasing(txs) && i < |txs|
    ensures Increasing(txs[..i] + txs[i + 1..])
  {
  }

  lemma {:induction false} FilterApart(txs: seq<Tx>, keep: Tx -> bool)
    requires Apart(txs)
    ensures Apart(Filter(txs, keep))
  {
    if txs != [] {
      var n := |txs| - 1;
      FilterApart(txs[..n], keep);
      FilterMembers(txs[..n], keep);
      var f := Filter(txs[..n], keep);
      forall i | 0 <= i < |f| ensures f[i].nonce != txs[n].nonce {
        assert f[i] in txs[..n];
      }
    }
  }

  // ---------- the cache ----------

  datatype Error = NoCache | NoneAvailable | NoneValid

  class PreSignedCache {
    const chains: seq<Uint64>
    const dexs: seq<string>
    const amounts: seq<int>
    const cacheDepth: int
    const txLifetime: int
    const signable: (Slot, Uint64) -> bool
    var cache: Cache
    var available: set<(Uint64, string)>   // chains and exchanges whose inner maps exist
    var currentNonce: Nonces
    var maxNonce: Nonces
    ghost var books: Books
    ghost var handed: seq<Tx>           // every transaction ever handed out

    ghost predicate Valid()
      reads this
    {
      Core(cache, maxNonce, books, handed)
    }

    constructor (chains: seq<Uint64>, dexs: seq<string>, amounts: seq<int>, depth: int, lifetime: int,
                 signable: (Slot, Uint64) -> bool)
      ensures Valid() && handed == [] && books == NoBooks && cache == map[] && available == {}
      ensures this.chains == chains && this.dexs == dexs && this.amounts == amounts
      ensures cacheDepth == depth && txLifetime == lifetime && this.signable == signable
    {
      this.chains, this.dexs, this.amounts, cacheDepth, txLifetime := chains, dexs, amounts, depth, lifetime;
      this.signable := signable;
      cache, available, currentNonce, maxNonce := map[], {}, map[], map[];
      books, handed := NoBooks, [];
    }

    method SetNonce(chain: Uint64, nonce: Uint64)
      requires Valid()
      modifies this`currentNonce, this`maxNonce
      ensures Valid() && currentNonce == old(currentNonce)[chain := nonce]
      ensures maxNonce == if (if chain in old(maxNonce) then old(maxNonce)[chain] else 0) < nonce then old(maxNonce)[chain := nonce]
                          else old(maxNonce)
    {
      currentNonce := currentNonce[chain := nonce];
      if NonceOf(maxNonce, chain) < nonce {
        RaiseKeeps(cache, maxNonce, books, handed, chain, nonce);
        maxNonce := maxNonce[chain := nonce];
      }
    }

    /** Signs one transaction of a list with the next nonce, which is consumed even if signing fails. */
    method SignInto(slot: Slot, now: int) returns (r: Option<Tx>)
      requires Valid()
      modifies this`maxNonce, this`cache, this`books
      ensures Valid()
      ensures var nonce := if slot.chain in old(maxNonce) then old(maxNonce)[slot.chain] else 0;
              var tx := Tx(slot, nonce, now, now + txLifetime);
              && maxNonce == old(maxNonce)[slot.chain := if nonce == 0xFFFF_FFFF_FFFF_FFFF then 0 else nonce + 1]
              && books == Booked(old(books), tx) && books.log == old(books).log + [(slot.chain, nonce)]
              && r == (if signable(slot, nonce) then Some(tx) else None)
      ensures cache == if r.Some? then old(cache)[slot := ListOf(old(cache), slot) + [r.value]] else old(cache)
    {
      hide Core;
      var nonce := NonceOf(maxNonce, slot.chain);
      var tx := Tx(slot, nonce, now, now + txLifetime);
      IssueKeeps(cache, maxNonce, books, handed, tx, signable(slot, nonce));
      maxNonce := maxNonce[slot.chain := Succ(nonce)];
      books := Booked(books, tx);
      if !signable(slot, nonce) { return None; }
      cache := cache[slot := ListOf(cache, slot) + [tx]];
      return Some(tx);
    }

    /** Refills one list to the configured depth of unexpired transactions, as far as signing works. */
    method EnsureCacheDepth(slot: Slot, now: int)
      requires Valid()
      modifies this`maxNonce, this`cache, this`books
      ensures Valid() && old(books).log <= books.log && OnlyGrown(old(cache), cache, slot)
      ensures AlwaysSigned(slot) ==> Live(ListOf(cache, slot), now) >= cacheDepth
      ensures Live(ListOf(cache, slot), now) <= Max(cacheDepth, Live(ListOf(old(cache), slot), now))
      ensures AddedFrom(ListOf(old(cache), slot), ListOf(cache, slot), slot, NonceOf(old(maxNonce), slot.chain), now, txLifetime)
    {
      hide Core, OnlyGrown, ListOf, Live, Booked, AddedFrom;
      var validCount := CountLive(ListOf(cache, slot), now);
      ghost var first, log := cache, books.log;
      NotGrown(cache, slot);
      ghost var from := NonceOf(maxNonce, slot.chain);
      ghost var was := ListOf(cache, slot);
      NoneAdded(was, slot, from, now, txLifetime);
      while validCount < cacheDepth
        invariant Valid() && log <= books.log && OnlyGrown(first, cache, slot)
        invariant Live(ListOf(cache, slot), now) <= validCount <= Max(cacheDepth, Live(ListOf(first, slot), now))
        invariant txLifetime > 0 ==> validCount == Live(ListOf(cache, slot), now)
        invariant AddedFrom(was, ListOf(cache, slot), slot, from, now, txLifetime)
        invariant NonceOf(maxNonce, slot.chain) == NextNonce(was, ListOf(cache, slot), from)
        decreases cacheDepth - validCount
      {
        ghost var before := cache;
        LogGrows(books, Tx(slot, NonceOf(maxNonce, slot.chain), now, now + txLifetime));
        var tx := SignInto(slot, now);
        if tx.None? { break; }
        OneMore(first, before, slot, tx.value, now);
        OneAdded(was, before, slot, tx.value, from, now, txLifetime);
        validCount := validCount + 1;
      }
    }

    ghost predicate AlwaysSigned(slot: Slot) {
      txLifetime > 0 && forall nonce: Uint64 :: signable(slot, nonce)
    }

    /** Refills every configured list. */
    method PopulateCache(now: int)
      requires Valid()
      modifies this`maxNonce, this`cache, this`books, this`available
      ensures Valid() && old(books).log <= books.log && GrownFrom(old(cache), cache)
      ensures forall c, d | c in chains && d in dexs :: (c, d) in available
      ensures forall c, d, dir, a | c in chains && d in dexs && dir in ["buy", "sell"] && a in amounts ::
                Filled(Slot(c, d, dir, a), cache, now)
    {
      hide Core, Live, Filled;
      for i := 0 to |chains|
        invariant Valid() && old(books).log <= books.log && GrownFrom(old(cache), cache)
        invariant forall c, d | c in chains[..i] && d in dexs :: (c, d) in available
        invariant forall c, d, dir, a | c in chains[..i] && d in dexs && dir in ["buy", "sell"] && a in amounts ::
                    Filled(Slot(c, d, dir, a), cache, now)
      {
        ghost var before := cache;
        PopulateChain(chains[i], now);
        forall c, d, dir, a | c in chains[..i] && d in dexs && dir in ["buy", "sell"] && a in amounts
          ensures Filled(Slot(c, d, dir, a), cache, now)
        {
          FilledStays(Slot(c, d, dir, a), before, cache, now);
        }
      }
    }

    ghost predicate Filled(slot: Slot, cache: Cache, now: int) {
      AlwaysSigned(slot) ==> Live(ListOf(cache, slot), now) >= cacheDepth
    }

    lemma FilledStays(slot: Slot, cache: Cache, cache': Cache, now: int)
      requires Filled(slot, cache, now) && GrownFrom(cache, cache')
      ensures Filled(slot, cache', now)
    {
      assert ListOf(cache, slot) <= ListOf(cache', slot);
      LivePrefix(ListOf(cache, slot), ListOf(cache', slot), now);
    }

    method PopulateChain(chain: Uint64, now: int)
      requires Valid()
      modifies this`maxNonce, this`cache, this`books, this`available
      ensures Valid() && old(books).log <= books.log && GrownFrom(old(cache), cache) && old(available) <= available
      ensures forall d | d in dexs :: (chain, d) in available
      ensures forall d, dir, a | d in dexs && dir in ["buy", "sell"] && a in amounts :: Filled(Slot(chain, d, dir, a), cache, now)
    {
      hide Core, Live, Filled, AlwaysSigned;
      for i := 0 to |dexs|
        invariant Valid() && old(books).log <= books.log && GrownFrom(old(cache), cache) && old(available) <= available
        invariant forall d | d in dexs[..i] :: (chain, d) in available
        invariant forall d, dir, a | d in dexs[..i] && dir in ["buy", "sell"] && a in amounts :: Filled(Slot(chain, d, dir, a), cache, now)
      {
        ghost var before := cache;
        Open(chain, dexs[i]);
        PopulateDirection(chain, dexs[i], "buy", now);
        ghost var half := cache;
        PopulateDirection(chain, dexs[i], "sell", now);
        forall d, dir, a | d in dexs[..i + 1] && dir in ["buy", "sell"] && a in amounts
          ensures Filled(Slot(chain, d, dir, a), cache, now)
        {
          if d in dexs[..i] {
            FilledStays(Slot(chain, d, dir, a), before, cache, now);
          } else if dir == "buy" {
            FilledStays(Slot(chain, d, dir, a), half, cache, now);
          }
        }
      }
    }

    /** Creates the inner maps of a chain and an exchange. */
    method Open(chain: Uint64, dex: string)
      requires Valid()
      modifies this`available
      ensures Valid() && available == old(available) + {(chain, dex)}
    {
      available := available + {(chain, dex)};
    }

    method PopulateDirection(chain: Uint64, dex: string, direction: string, now: int)
      requires Valid()
      modifies this`maxNonce, this`cache, this`books
      ensures Valid() && old(books).log <= books.log && GrownFrom(old(cache), cache)
      ensures forall a | a in amounts :: Filled(Slot(chain, dex, direction, a), cache, now)
    {
      hide Core, Live;
      for i := 0 to |amounts|
        invariant Valid() && old(books).log <= books.log && GrownFrom(old(cache), cache)
        invariant forall a | a in amounts[..i] :: Filled(Slot(chain, dex, direction, a), cache, now)
      {
        ghost var before := cache;
        EnsureCacheDepth(Slot(chain, dex, direction, amounts[i]), now);
        assert GrownFrom(before, cache);
        forall a | a in amounts[..i] ensures Filled(Slot(chain, dex, direction, a), cache, now) {
          FilledStays(Slot(chain, dex, direction, a), before, cache, now);
        }
      }
    }

    /** The configured amount closest to the target, the first of several; none if none is configured. */
    method FindClosestAmount(target: int) returns (r: Option<int>)
      ensures r.None? <==> amounts == []
      ensures r.Some? ==> Closest(amounts, target, r.value)
      ensures r.Some? ==> forall a | a in amounts ::
                (if r.value >= target then r.value - target else target - r.value) <= (if a >= target then a - target else target - a)
    {
      r := None;
      ghost var k := 0;
      for i := 0 to |amounts|
        invariant r.None? <==> i == 0
        invariant r.Some? ==>
          && 0 <= k < i && r.value == amounts[k]
          && (forall j | 0 <= j < i :: Distance(amounts[k], target) <= Distance(amounts[j], target))
          && (forall j | 0 <= j < k :: Distance(amounts[k], target) < Distance(amounts[j], target))
      {
        if r.None? || Distance(amounts[i], target) < Distance(r.value, target) {
          r := Some(amounts[i]);
          k := i;
        }
      }
    }

    /** Hands out the first usable transaction of the list for the closest amount and removes it; a
        transaction is usable before its expiry and from the current nonce of its chain on. */
    method GetPreSignedTx(chain: Uint64, dex: string, direction: string, amount: int, now: int) returns (r: Result<Tx, Error>)
      requires Valid()
      modifies this`cache, this`handed
      ensures Valid()
      ensures r == Err(NoCache) <==> (chain, dex) !in available
      ensures r.Err? ==> cache == old(cache) && handed == old(handed)
      ensures r.Err? && (chain, dex) in available ==>
                forall v, i | Closest(amounts, amount, v) && 0 <= i < |ListOf(cache, Slot(chain, dex, direction, v))| ::
                  var tx := ListOf(cache, Slot(chain, dex, direction, v))[i];
                  now >= tx.expiresAt || tx.nonce < (if chain in currentNonce then currentNonce[chain] else 0)
      ensures r.Ok? ==>
                var tx, s := r.value, r.value.slot;
                && s == Slot(chain, dex, direction, s.amount) && Closest(amounts, amount, s.amount)
                && now < tx.expiresAt && tx.nonce >= (if chain in currentNonce then currentNonce[chain] else 0)
                && handed == old(handed) + [tx] && TakenFrom(old(cache), s, tx, cache, now, NonceOf(currentNonce, chain))
      ensures r.Ok? && !Repeats(books.log, chain) ==>
                forall k | 0 <= k < |old(handed)| && old(handed)[k].slot.chain == chain :: old(handed)[k].nonce != r.value.nonce
      ensures r.Ok? && (chain, TwoTo64 - 1) !in books.issued ==>
                forall t | t in cache[r.value.slot] && Usable(t, now, NonceOf(currentNonce, chain)) :: r.value.nonce < t.nonce
    {
      hide Core, Repeats, Closest;
      var closest := FindClosestAmount(amount);
      forall v, w | Closest(amounts, amount, v) && Closest(amounts, amount, w) ensures v == w {
        ClosestUnique(amounts, amount, v, w);
      }
      if amounts == [] { NothingClosest(amounts, amount); }
      if (chain, dex) !in available { return Err(NoCache); }
      if closest.None? { return Err(NoneAvailable); }
      var slot := Slot(chain, dex, direction, closest.value);
      if slot !in cache || |cache[slot]| == 0 { return Err(NoneAvailable); }
      var txs := cache[slot];
      var i := FirstUsable(txs, now, NonceOf(currentNonce, chain));
      if i == |txs| { return Err(NoneValid); }
      HandOutKeeps(cache, maxNonce, books, handed, slot, i);
      HandedApart(cache, maxNonce, books, handed, slot, i);
      LowestUsable(cache, maxNonce, books, handed, slot, i, now, NonceOf(currentNonce, chain));
      cache := cache[slot := txs[..i] + txs[i + 1..]];
      handed := handed + [txs[i]];
      return Ok(txs[i]);
    }

    /** Drops every expired transaction. */
    method PruneExpired(now: int)
      requires Valid()
      modifies this`cache
      ensures Valid() && cache == map slot | slot in old(cache) :: Filter(old(cache)[slot], Unexpired(now))
      ensures forall slot, tx | slot in cache ::
                multiset(cache[slot])[tx] == if now < tx.expiresAt then multiset(old(cache)[slot])[tx] else 0
    {
      hide Core, Filter, Unexpired;
      var slots := cache.Keys;
      while slots != {}
        invariant Valid() && slots <= cache.Keys == old(cache).Keys
        invariant forall s | s in cache ::
          cache[s] == if s in slots then old(cache)[s] else Filter(old(cache)[s], Unexpired(now))
        decreases |slots|
      {
        var slot :| slot in slots;
        slots := slots - {slot};
        var valid := DropExpired(cache[slot], now);
        DropKeeps(cache, maxNonce, books, handed, slot, Unexpired(now));
        cache := cache[slot := valid];
      }
      forall slot, tx | slot in cache
        ensures multiset(cache[slot])[tx] == if now < tx.expiresAt then multiset(old(cache)[slot])[tx] else 0
      {
        UnexpiredCounts(old(cache)[slot], now, tx);
      }
    }

    /** Moves the current nonce past a used one and drops the transaction that carries it. */
    method MarkNonceUsed(chain: Uint64, nonce: Uint64)
      requires Valid()
      modifies this`cache, this`currentNonce
      ensures Valid() && cache == WithoutNonce(old(cache), chain, nonce) && cache.Keys == old(cache).Keys
      ensures forall slot, tx | slot in cache ::
                multiset(cache[slot])[tx] ==
                  if slot.chain == chain && tx.nonce == nonce then 0 else multiset(old(cache)[slot])[tx]
      ensures currentNonce ==
                if nonce < (if chain in old(currentNonce) then old(currentNonce)[chain] else 0) then old(currentNonce)
                else old(currentNonce)[chain := if nonce == 0xFFFF_FFFF_FFFF_FFFF then 0 else nonce + 1]
    {
      hide Core, WithoutNonce;
      if nonce >= NonceOf(currentNonce, chain) {
        currentNonce := currentNonce[chain := Succ(nonce)];
      }
      DropUsed(chain, nonce);
      UsedKeys(old(cache), chain, nonce);
      forall slot, tx | slot in cache
        ensures multiset(cache[slot])[tx] == if slot.chain == chain && tx.nonce == nonce then 0 else multiset(old(cache)[slot])[tx]
      {
        UsedCounts(old(cache), chain, nonce, slot, tx);
      }
    }

    method DropUsed(chain: Uint64, nonce: Uint64)
      requires Valid()
      modifies this`cache
      ensures Valid() && cache == WithoutNonce(old(cache), chain, nonce)
    {
      hide Core, Filter, OtherNonce;
      ghost var target := WithoutNonce(cache, chain, nonce);
      var slots := set slot | slot in cache && slot.chain == chain;
      while slots != {}
        invariant Valid() && slots <= cache.Keys == old(cache).Keys
        invariant forall s | s in slots :: s.chain == chain
        invariant forall s | s in cache :: cache[s] == if s in slots then old(cache)[s] else target[s]
        decreases |slots|
      {
        var slot :| slot in slots;
        slots := slots - {slot};
        var valid := DropNonce(cache[slot], nonce);
        DropKeeps(cache, maxNonce, books, handed, slot, OtherNonce(nonce));
        cache := cache[slot := valid];
      }
    }
  }

  function WithoutNonce(cache: Cache, chain: Uint64, nonce: Uint64): Cache {
    map slot | slot in cache :: if slot.chain == chain then Filter(cache[slot], OtherNonce(nonce)) else cache[slot]
  }

  lemma UnexpiredCounts(txs: seq<Tx>, now: int, tx: Tx)
    ensures multiset(Filter(txs, Unexpired(now)))[tx] == if now < tx.expiresAt then multiset(txs)[tx] else 0
  {
    FilterCounts(txs, Unexpired(now), tx);
  }

  lemma UsedKeys(cache: Cache, chain: Uint64, nonce: Uint64)
    ensures WithoutNonce(cache, chain, nonce).Keys == cache.Keys
  {
  }

  lemma UsedCounts(cache: Cache, chain: Uint64, nonce: Uint64, slot: Slot, tx: Tx)
    requires slot in cache
    ensures multiset(WithoutNonce(cache, chain, nonce)[slot])[tx] ==
              if slot.chain == chain && tx.nonce == nonce then 0 else multiset(cache[slot])[tx]
  {
    FilterCounts(cache[slot], OtherNonce(nonce), tx);
  }

  method CountLive(txs: seq<Tx>, now: int) returns (n: nat)
    ensures n == Live(txs, now)
  {
    n := 0;
    for i := 0 to |txs|
      invariant n == Live(txs[..i], now)
    {
      LiveSnoc(txs[..i], txs[i], now);
      assert txs[..i + 1] == txs[..i] + [txs[i]];
      if now < txs[i].expiresAt { n := n + 1; }
    }
    assert txs[..|txs|] == txs;
  }

  predicate Usable(tx: Tx, now: int, current: Uint64) {
    now < tx.expiresAt && tx.nonce >= current
  }

  method FirstUsable(txs: seq<Tx>, now: int, current: Uint64) returns (i: nat)
    ensures i <= |txs| && forall j | 0 <= j < i :: !Usable(txs[j], now, current)
    ensures i < |txs| ==> Usable(txs[i], now, current)
  {
    i := 0;
    while i < |txs| && !(now < txs[i].expiresAt && txs[i].nonce >= current)
      invariant i <= |txs| && forall j | 0 <= j < i :: !Usable(txs[j], now, current)
    {
      i := i + 1;
    }
  }

  /** The cache without a transaction of a list before which all are expired or behind the nonce. */
  ghost predicate TakenFrom(cache: Cache, slot: Slot, tx: Tx, cache': Cache, now: int, current: Uint64) {
    slot in cache && exists i | 0 <= i < |cache[slot]| ::
      && cache[slot][i] == tx && cache' == cache[slot := cache[slot][..i] + cache[slot][i + 1..]]
      && forall j | 0 <= j < i :: now >= cache[slot][j].expiresAt || cache[slot][j].nonce < current
  }

  method DropExpired(txs: seq<Tx>, now: int) returns (valid: seq<Tx>)
    ensures valid == Filter(txs, Unexpired(now))
  {
    valid := [];
    for i := 0 to |txs|
      invariant valid == Filter(txs[..i], Unexpired(now))
    {
      assert txs[..i + 1][..i] == txs[..i];
      if now < txs[i].expiresAt { valid := valid + [txs[i]]; }
    }
    assert txs[..|txs|] == txs;
  }

  method DropNonce(txs: seq<Tx>, nonce: Uint64) returns (valid: seq<Tx>)
    ensures valid == Filter(txs, OtherNonce(nonce))
  {
    valid := [];
    for i := 0 to |txs|
      invariant valid == Filter(txs[..i], OtherNonce(nonce))
    {
      assert txs[..i + 1][..i] == txs[..i];
      if txs[i].nonce != nonce { valid := valid + [txs[i]]; }
    }
    assert txs[..|txs|] == txs;
  }

  /** A transaction about to be handed out has a nonce never handed out before. */
  lemma HandedApart(cache: Cache, maxNonce: Nonces, books: Books, handed: seq<Tx>, slot: Slot, i: nat)
    requires Core(cache, maxNonce, books, handed) && slot in cache && i < |cache[slot]|
    ensures cache[slot][i].slot == slot
    ensures !Repeats(books.log, slot.chain) ==>
              forall k | 0 <= k < |handed| && handed[k].slot.chain == slot.chain :: handed[k].nonce != cache[slot][i].nonce
  {
    hide Repeats;
    var tx := cache[slot][i];
    assert tx in cache[slot];
    if !Repeats(books.log, slot.chain) {
      assert SlotOk(slot, cache[slot], books, handed);
      forall k | 0 <= k < |handed| && handed[k].slot.chain == slot.chain ensures handed[k].nonce != tx.nonce {
        assert Issued(books, handed[k]) && Issued(books, tx) && tx !in handed;
      }
    }
  }

  /** The first usable transaction of a list in order has the lowest usable nonce. */
  lemma LowestUsable(cache: Cache, maxNonce: Nonces, books: Books, handed: seq<Tx>, slot: Slot, i: nat, now: int, current: Uint64)
    requires Core(cache, maxNonce, books, handed) && slot in cache && i < |cache[slot]|
    requires forall j | 0 <= j < i :: !Usable(cache[slot][j], now, current)
    ensures (slot.chain, TwoTo64 - 1) !in books.issued ==>
              forall t | t in cache[slot][..i] + cache[slot][i + 1..] && Usable(t, now, current) :: cache[slot][i].nonce < t.nonce
  {
    hide SlotsOk, HandedOk, Below, CachedIssued, Repeats, Usable;
    if (slot.chain, TwoTo64 - 1) !in books.issued {
      assert Increasing(cache[slot]);
    }
  }

  lemma ClosestUnique(amounts: seq<int>, target: int, v: int, w: int)
    requires Closest(amounts, target, v) && Closest(amounts, target, w)
    ensures v == w
  {
  }

  lemma NothingClosest(amounts: seq<int>, target: int)
    requires amounts == []
    ensures forall v :: !Closest(amounts, target, v)
  {
  }

  /** v is the first of the amounts at the least distance from the target. */
  ghost predicate Closest(amounts: seq<int>, target: int, v: int) {
    exists k | 0 <= k < |amounts| ::
      && v == amounts[k]
      && (forall j | 0 <= j < |amounts| :: Distance(amounts[k], target) <= Distance(amounts[j], target))
      && (forall j | 0 <= j < k :: Distance(amounts[k], target) < Distance(amounts[j], target))
  }

  function Distance(a: int, b: int): nat {
    if a >= b then a - b else b - a
  }

  /** The number of unexpired transactions of a list. */
  function Live(txs: seq<Tx>, now: int): nat {
    |Filter(txs, Unexpired(now))|
  }

  lemma LiveSnoc(txs: seq<Tx>, tx: Tx, now: int)
    ensures Live(txs + [tx], now) == Live(txs, now) + if now < tx.expiresAt then 1 else 0
  {
    assert (txs + [tx])[..|txs|] == txs;
  }

  lemma {:induction false} LivePrefix(txs: seq<Tx>, txs': seq<Tx>, now: int)
    requires txs <= txs'
    ensures Live(txs, now) <= Live(txs', now)
    decreases |txs'|
  {
    if txs != txs' {
      var n := |txs'| - 1;
      LivePrefix(txs, txs'[..n], now);
    }
  }

  ghost predicate GrownFrom(cache: Cache, cache': Cache) {
    forall s: Slot :: ListOf(cache, s) <= ListOf(cache', s)
  }

  /** One list has grown at its end, the others are as they were. */
  ghost predicate OnlyGrown(cache: Cache, cache': Cache, slot: Slot) {
    && ListOf(cache, slot) <= ListOf(cache', slot)
    && forall s: Slot | s != slot :: ListOf(cache', s) == ListOf(cache, s)
  }

  lemma NotGrown(cache: Cache, slot: Slot)
    ensures OnlyGrown(cache, cache, slot)
  {
  }

  /** The transactions added to a list were signed now, live for the given time, and carry consecutive
      nonces modulo 2^64. */
  ghost predicate AddedFrom(was: seq<Tx>, txs: seq<Tx>, slot: Slot, from: Uint64, now: int, lifetime: int) {
    && was <= txs
    && forall j | |was| <= j < |txs| ::
         txs[j] == Tx(slot, (from + (j - |was|)) % 0x1_0000_0000_0000_0000, now, now + lifetime)
  }

  ghost function NextNonce(was: seq<Tx>, txs: seq<Tx>, from: Uint64): nat {
    (from + Max(0, |txs| - |was|)) % 0x1_0000_0000_0000_0000
  }

  lemma NoneAdded(was: seq<Tx>, slot: Slot, from: Uint64, now: int, lifetime: int)
    ensures AddedFrom(was, was, slot, from, now, lifetime) && NextNonce(was, was, from) == from
  {
  }

  lemma OneAdded(was: seq<Tx>, cache: Cache, slot: Slot, tx: Tx, from: Uint64, now: int, lifetime: int)
    requires AddedFrom(was, ListOf(cache, slot), slot, from, now, lifetime)
    requires tx == Tx(slot, NextNonce(was, ListOf(cache, slot), from), now, now + lifetime)
    ensures var txs := ListOf(cache[slot := ListOf(cache, slot) + [tx]], slot);
            AddedFrom(was, txs, slot, from, now, lifetime) && NextNonce(was, txs, from) == Succ(tx.nonce)
  {
  }

  lemma OneMore(first: Cache, cache: Cache, slot: Slot, tx: Tx, now: int)
    requires OnlyGrown(first, cache, slot)
    ensures var cache' := cache[slot := ListOf(cache, slot) + [tx]];
            && OnlyGrown(first, cache', slot)
            && Live(ListOf(cache', slot), now) == Live(ListOf(cache, slot), now) + if now < tx.expiresAt then 1 else 0
  {
    LiveSnoc(ListOf(cache, slot), tx, now);
    hide Live;
  }

  lemma LogGrows(books: Books, tx: Tx)
    ensures books.log <= Booked(books, tx).log
  {
  }

  /** Past 2^64 - 1 distinctness is lost: a run that hands out two transactions with one nonce. */
  method TwoWithOneNonce(slot: Slot, signable: (Slot, Uint64) -> bool) returns (c: PreSignedCache, first: Tx, second: Tx)
    requires signable(slot, TwoTo64 - 1)
    ensures fresh(c) && c.Valid() && c.handed == [first, second]
    ensures first.slot == second.slot == slot && first.nonce == second.nonce && Repeats(c.books.log, slot.chain)
  {
    var top: Uint64 := TwoTo64 - 1;
    hide *;
    c := Prepared(slot, signable);
    first := SetSignTake(c, slot, top);
    second := SetSignTake(c, slot, top);
    OneLog((slot.chain, top));
    assert c.books.log == [(slot.chain, top), (slot.chain, top)];
  }

  method Prepared(slot: Slot, signable: (Slot, Uint64) -> bool) returns (c: PreSignedCache)
    ensures fresh(c) && c.Valid() && c.handed == [] && c.books.log == [] && ListOf(c.cache, slot) == []
    ensures (slot.chain, slot.dex) in c.available && c.amounts == [slot.amount] && c.txLifetime == 30 && c.signable == signable
  {
    hide Core;
    c := new PreSignedCache([slot.chain], [slot.dex], [slot.amount], 1, 30, signable);
    c.Open(slot.chain, slot.dex);
  }

  lemma OnlyClosest(v: int)
    ensures forall w :: Closest([v], v, w) <==> w == v
  {
    assert [v][0] == v;
  }

  lemma OneLog(stamp: Stamp)
    ensures Repeats([stamp, stamp], stamp.0)
  {
    assert [stamp, stamp][0] == [stamp, stamp][1];
  }

  /** Setting the greatest nonce, signing one transaction and taking it. */
  method SetSignTake(c: PreSignedCache, slot: Slot, top: Uint64) returns (tx: Tx)
    requires c.Valid() && top == TwoTo64 - 1 && (slot.chain, slot.dex) in c.available && ListOf(c.cache, slot) == []
    requires c.amounts == [slot.amount] && c.txLifetime > 0 && c.signable(slot, top)
    modifies c
    ensures c.Valid() && c.handed == old(c.handed) + [tx] && tx == Tx(slot, top, 0, c.txLifetime)
    ensures ListOf(c.cache, slot) == [] && c.available == old(c.available) && c.books.log == old(c.books.log) + [(slot.chain, top)]
  {
    hide Core, Repeats, Closest;
    c.SetNonce(slot.chain, top);
    var signed := c.SignInto(slot, 0);
    OnlyClosest(slot.amount);
    assert ListOf(c.cache, Slot(slot.chain, slot.dex, slot.direction, slot.amount))[0] == signed.value;
    assert Closest(c.amounts, slot.amount, slot.amount);
    var r := c.GetPreSignedTx(slot.chain, slot.dex, slot.direction, slot.amount, 0);
    assert r.Ok?;
    tx := r.value;
  }
}
