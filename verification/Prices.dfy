/**
 The price aggregator of node/price_gossip.go: signed reserve reports per pool, one per signer, whose
 medians form the aggregated price. Signatures are ideal: a signature names its signer and the exact
 report it was made for.
 */
module Prices {
  import opened Common

  type Address = nat

  datatype Report = Report(chain: nat, pool: Address, reserve0: int, reserve1: int, blockNumber: nat, timestamp: int)

  datatype Signature = NoSignature | Signature(signer: Address, report: Report)

  datatype Update = Update(report: Report, source: Address, signature: Signature)

  predicate Verifies(u: Update) {
    u.signature.Signature? && u.signature.signer == u.source && u.signature.report == u.report
  }

  // ---------- the median ----------

  predicate Sorted(s: seq<int>) {
    forall i, j | 0 <= i < j < |s| :: s[i] <= s[j]
  }

  function InsertInt(s: seq<int>, x: int): (r: seq<int>)
    ensures |r| == |s| + 1
  {
    if s == [] then [x]
    else
      var n := |s| - 1;
      if s[n] <= x then s + [x] else InsertInt(s[..n], x) + [s[n]]
  }

  lemma {:induction false} InsertIntBag(s: seq<int>, x: int)
    ensures multiset(InsertInt(s, x)) == multiset(s) + multiset{x}
  {
    if s != [] && s[|s| - 1] > x {
      var n := |s| - 1;
      InsertIntBag(s[..n], x);
      assert s == s[..n] + [s[n]];
    }
  }

  /** No element of the list exceeds hi. */
  predicate AtMost(s: seq<int>, hi: int) {
    forall i | 0 <= i < |s| :: s[i] <= hi
  }

  lemma {:induction false} InsertIntAtMost(s: seq<int>, x: int, hi: int)
    requires AtMost(s, hi) && x <= hi
    ensures AtMost(InsertInt(s, x), hi)
  {
    if s != [] { InsertIntAtMost(s[..|s| - 1], x, hi); }
  }

  lemma SortedSnoc(s: seq<int>, x: int)
    requires Sorted(s) && AtMost(s, x)
    ensures Sorted(s + [x])
  {
  }

  lemma {:induction false} InsertIntSorted(s: seq<int>, x: int)
    requires Sorted(s)
    ensures Sorted(InsertInt(s, x))
  {
    if s != [] {
      var n := |s| - 1;
      if s[n] <= x {
        assert AtMost(s, x);
        hide Sorted, AtMost;
        SortedSnoc(s, x);
      } else {
        InsertIntSorted(s[..n], x);
        assert AtMost(s[..n], s[n]);
        hide Sorted, AtMost;
        InsertIntAtMost(s[..n], x, s[n]);
        SortedSnoc(InsertInt(s[..n], x), s[n]);
      }
    }
  }

  function Sort(s: seq<int>): (r: seq<int>)
    ensures |r| == |s|
  {
    if s == [] then [] else InsertInt(Sort(s[..|s| - 1]), s[|s| - 1])
  }

  lemma {:induction false} SortSorts(s: seq<int>)
    ensures Sorted(Sort(s)) && multiset(Sort(s)) == multiset(s)
  {
    if s != [] {
      var n := |s| - 1;
      SortSorts(s[..n]);
      InsertIntSorted(Sort(s[..n]), s[n]);
      InsertIntBag(Sort(s[..n]), s[n]);
      assert s == s[..n] + [s[n]];
    }
  }

  lemma DropLast(a: seq<int>)
    requires a != []
    ensures multiset(a[..|a| - 1]) == multiset(a) - multiset{a[|a| - 1]}
  {
    assert a == a[..|a| - 1] + [a[|a| - 1]];
  }

  lemma SameMembers(a: seq<int>, b: seq<int>, x: int)
    requires multiset(a) == multiset(b) && x in a
    ensures x in b
  {
    assert x in multiset(a);
  }

  lemma SameSize(a: seq<int>, b: seq<int>)
    requires multiset(a) == multiset(b)
    ensures |a| == |b|
  {
    assert |a| == |multiset(a)| == |multiset(b)| == |b|;
  }

  /** Two sorted lists of the same values end alike, and agree without their ends. */
  lemma PeelSame(a: seq<int>, b: seq<int>)
    requires Sorted(a) && Sorted(b) && multiset(a) == multiset(b) && a != [] && |a| == |b|
    ensures a[|a| - 1] == b[|b| - 1] && multiset(a[..|a| - 1]) == multiset(b[..|b| - 1])
  {
    SameMembers(a, b, a[|a| - 1]);
    SameMembers(b, a, b[|b| - 1]);
    DropLast(a);
    DropLast(b);
  }

  /** Sorting has one answer, so the order of the reports does not matter. */
  lemma {:induction false} SortedUnique(a: seq<int>, b: seq<int>)
    requires Sorted(a) && Sorted(b) && multiset(a) == multiset(b)
    ensures a == b
    decreases |a|
  {
    SameSize(a, b);
    if a != [] {
      PeelSame(a, b);
      SortedUnique(a[..|a| - 1], b[..|b| - 1]);
      assert a == a[..|a| - 1] + [a[|a| - 1]];
    }
  }

  /** Middle of a sorted list; for an even count the floored mean of the two middle values. */
  function Middle(s: seq<int>): int {
    var mid := |s| / 2;
    if s == [] then 0
    else if |s| % 2 == 0 then (s[mid - 1] + s[mid]) / 2
    else s[mid]
  }

  function Median(s: seq<int>): int {
    SortSorts(s);
    Middle(Sort(s))
  }

  lemma MedianOrderFree(a: seq<int>, b: seq<int>)
    requires multiset(a) == multiset(b)
    ensures Median(a) == Median(b)
  {
    SortSorts(a);
    SortSorts(b);
    SortedUnique(Sort(a), Sort(b));
  }

  /** The median, from any sorted arrangement of the values: the middle one, or for an even count the
      floored mean of the two in the middle; zero for no values. */
  lemma MedianOfSorted(s: seq<int>, t: seq<int>)
    requires Sorted(t) && multiset(s) == multiset(t)
    ensures |t| == |s|
    ensures |t| == 0 ==> Median(s) == 0
    ensures |t| % 2 == 1 ==> Median(s) == t[|t| / 2]
    ensures |t| > 0 && |t| % 2 == 0 ==> 2 * Median(s) <= t[|t| / 2 - 1] + t[|t| / 2] <= 2 * Median(s) + 1
  {
    SortSorts(s);
    SameSize(s, t);
    SortedUnique(Sort(s), t);
  }

  function CountIn(s: seq<int>, lo: int, hi: int): nat {
    if s == [] then 0
    else CountIn(s[..|s| - 1], lo, hi) + (if lo <= s[|s| - 1] <= hi then 1 else 0)
  }

  lemma {:induction false} CountAppend(s: seq<int>, t: seq<int>, lo: int, hi: int)
    ensures CountIn(s + t, lo, hi) == CountIn(s, lo, hi) + CountIn(t, lo, hi)
    decreases |t|
  {
    if t == [] {
      assert s + t == s;
    } else {
      var n := |t| - 1;
      CountAppend(s, t[..n], lo, hi);
      assert (s + t)[..|s| + n] == s + t[..n];
    }
  }

  lemma {:induction false} CountInsert(s: seq<int>, x: int, lo: int, hi: int)
    ensures CountIn(InsertInt(s, x), lo, hi) == CountIn(s, lo, hi) + (if lo <= x <= hi then 1 else 0)
  {
    if s == [] {
      assert InsertInt(s, x)[..0] == [];
    } else if s[|s| - 1] <= x {
      assert InsertInt(s, x)[..|s|] == s;
    } else {
      var n := |s| - 1;
      CountInsert(s[..n], x, lo, hi);
      var r := InsertInt(s[..n], x);
      assert (r + [s[n]])[..|r|] == r;
    }
  }

  lemma {:induction false} CountSort(s: seq<int>, lo: int, hi: int)
    ensures CountIn(Sort(s), lo, hi) == CountIn(s, lo, hi)
  {
    if s != [] {
      CountSort(s[..|s| - 1], lo, hi);
      CountInsert(Sort(s[..|s| - 1]), s[|s| - 1], lo, hi);
    }
  }

  lemma {:induction false} CountBound(s: seq<int>, lo: int, hi: int)
    ensures CountIn(s, lo, hi) <= |s|
  {
    if s != [] { CountBound(s[..|s| - 1], lo, hi); }
  }

  /** Of a sorted list, an element above hi has at most its predecessors in [lo, hi], and an element
      below lo at most its successors. */
  lemma OneSided(s: seq<int>, k: nat, lo: int, hi: int)
    requires Sorted(s) && k < |s|
    ensures s[k] > hi ==> CountIn(s, lo, hi) <= k
    ensures s[k] < lo ==> CountIn(s, lo, hi) <= |s| - 1 - k
  {
    hide CountIn;
    if s[k] > hi {
      CutCount(s, k, lo, hi);
      NoneInside(s[k..], lo, hi);
    }
    if s[k] < lo {
      CutCount(s, k + 1, lo, hi);
      NoneInside(s[..k + 1], lo, hi);
    }
  }

  lemma CutCount(s: seq<int>, k: nat, lo: int, hi: int)
    requires k <= |s|
    ensures CountIn(s, lo, hi) == CountIn(s[..k], lo, hi) + CountIn(s[k..], lo, hi)
    ensures CountIn(s[..k], lo, hi) <= k && CountIn(s[k..], lo, hi) <= |s| - k
  {
    hide CountIn;
    assert s == s[..k] + s[k..];
    CountAppend(s[..k], s[k..], lo, hi);
    CountBound(s[..k], lo, hi);
    CountBound(s[k..], lo, hi);
  }

  lemma {:induction false} NoneInside(s: seq<int>, lo: int, hi: int)
    requires forall i | 0 <= i < |s| :: !(lo <= s[i] <= hi)
    ensures CountIn(s, lo, hi) == 0
  {
    if s != [] { NoneInside(s[..|s| - 1], lo, hi); }
  }

  /** A strict majority of values in [lo, hi] pulls the median into [lo, hi], however extreme the
      others are, for odd and even counts. */
  lemma MajorityRules(s: seq<int>, lo: int, hi: int)
    requires 2 * CountIn(s, lo, hi) > |s|
    ensures lo <= Median(s) <= hi
  {
    SortSorts(s);
    CountSort(s, lo, hi);
    CountBound(s, lo, hi);
    MiddleRules(Sort(s), lo, hi);
  }

  lemma MiddleRules(r: seq<int>, lo: int, hi: int)
    requires Sorted(r) && 2 * CountIn(r, lo, hi) > |r|
    ensures lo <= Middle(r) <= hi
  {
    hide CountIn;
    var mid := |r| / 2;
    CountBound(r, lo, hi);
    OneSided(r, mid, lo, hi);
    if |r| % 2 == 0 {
      OneSided(r, mid - 1, lo, hi);
      assert lo <= r[mid - 1] <= r[mid] <= hi;
    }
  }

  /** Half is not enough: with one value at 0 and one at 10 the median is 5. */
  lemma HalfIsNotEnough()
    ensures 2 * CountIn([0, 10], 0, 0) == 2 && Median([0, 10]) == 5
  {
    assert [0, 10][..1] == [0] && [0][..0] == [];
    assert Sort([0]) == [0];
    assert CountIn([0], 0, 0) == 1;
  }

  // ---------- aggregation ----------

  /** Reports not older than the cut-off, in list order. */
  function Recent(us: seq<Update>, cutoff: int): seq<Update> {
    if us == [] then []
    else
      var n := |us| - 1;
      Recent(us[..n], cutoff) + (if us[n].report.timestamp > cutoff then [us[n]] else [])
  }

  lemma {:induction false} RecentMembers(us: seq<Update>, cutoff: int, u: Update)
    ensures u in Recent(us, cutoff) <==> u in us && u.report.timestamp > cutoff
  {
    if us != [] {
      var n := |us| - 1;
      RecentMembers(us[..n], cutoff, u);
      assert us == us[..n] + [us[n]];
    }
  }

  function Reserves0(us: seq<Update>): (r: seq<int>)
    ensures |r| == |us|
  {
    seq(|us|, i requires 0 <= i < |us| => us[i].report.reserve0)
  }

  function Reserves1(us: seq<Update>): (r: seq<int>)
    ensures |r| == |us|
  {
    seq(|us|, i requires 0 <= i < |us| => us[i].report.reserve1)
  }

  predicate Newest(us: seq<Update>) {
    forall i, j | 0 <= i < j < |us| :: us[i].report.blockNumber >= us[j].report.blockNumber
  }

  function InsertUpdate(us: seq<Update>, u: Update): seq<Update> {
    if us == [] then [u]
    else
      var n := |us| - 1;
      if us[n].report.blockNumber >= u.report.blockNumber then us + [u] else InsertUpdate(us[..n], u) + [us[n]]
  }

  /** Sorted by descending block number. */
  function ByBlock(us: seq<Update>): seq<Update> {
    if us == [] then [] else InsertUpdate(ByBlock(us[..|us| - 1]), us[|us| - 1])
  }

  lemma ReservesAppend(us: seq<Update>, u: Update)
    ensures Reserves0(us + [u]) == Reserves0(us) + [u.report.reserve0]
    ensures Reserves1(us + [u]) == Reserves1(us) + [u.report.reserve1]
  {
  }

  lemma {:induction false} InsertUpdateKeeps(us: seq<Update>, u: Update)
    ensures multiset(InsertUpdate(us, u)) == multiset(us) + multiset{u}
  {
    if us != [] {
      assert us == us[..|us| - 1] + [us[|us| - 1]];
      InsertUpdateKeeps(us[..|us| - 1], u);
    }
  }

  lemma ReservesBag(us: seq<Update>, u: Update)
    ensures multiset(Reserves0(us + [u])) == multiset(Reserves0(us)) + multiset{u.report.reserve0}
    ensures multiset(Reserves1(us + [u])) == multiset(Reserves1(us)) + multiset{u.report.reserve1}
  {
    ReservesAppend(us, u);
  }

  lemma {:induction false} InsertUpdateReserves(us: seq<Update>, u: Update)
    ensures multiset(Reserves0(InsertUpdate(us, u))) == multiset(Reserves0(us)) + multiset{u.report.reserve0}
    ensures multiset(Reserves1(InsertUpdate(us, u))) == multiset(Reserves1(us)) + multiset{u.report.reserve1}
  {
    hide Reserves0, Reserves1;
    if us == [] || us[|us| - 1].report.blockNumber >= u.report.blockNumber {
      ReservesBag(us, u);
      assert InsertUpdate(us, u) == us + [u];
    } else {
      var n := |us| - 1;
      InsertUpdateReserves(us[..n], u);
      assert InsertUpdate(us, u) == InsertUpdate(us[..n], u) + [us[n]];
      hide *;
      ReservesBag(us[..n], us[n]);
      ReservesBag(InsertUpdate(us[..n], u), us[n]);
      assert us[..n] + [us[n]] == us;
    }
  }

  /** No report of the list is of an older block. */
  predicate NotOlder(us: seq<Update>, block: nat) {
    forall i | 0 <= i < |us| :: us[i].report.blockNumber >= block
  }

  lemma {:induction false} InsertNotOlder(us: seq<Update>, u: Update, block: nat)
    requires NotOlder(us, block) && u.report.blockNumber >= block
    ensures NotOlder(InsertUpdate(us, u), block)
  {
    if us != [] { InsertNotOlder(us[..|us| - 1], u, block); }
  }

  lemma NewestSnoc(us: seq<Update>, u: Update)
    requires Newest(us) && NotOlder(us, u.report.blockNumber)
    ensures Newest(us + [u])
  {
  }

  lemma {:induction false} InsertUpdateNewest(us: seq<Update>, u: Update)
    requires Newest(us)
    ensures Newest(InsertUpdate(us, u))
  {
    if us != [] {
      var n := |us| - 1;
      if us[n].report.blockNumber >= u.report.blockNumber {
        assert NotOlder(us, u.report.blockNumber);
        hide Newest, NotOlder;
        NewestSnoc(us, u);
      } else {
        InsertUpdateNewest(us[..n], u);
        assert NotOlder(us[..n], us[n].report.blockNumber);
        hide Newest, NotOlder;
        InsertNotOlder(us[..n], u, us[n].report.blockNumber);
        NewestSnoc(InsertUpdate(us[..n], u), us[n]);
      }
    }
  }

  /** Sorting by block keeps the reports and hence the medians, and puts the newest first. */
  lemma {:induction false} ByBlockKeeps(us: seq<Update>)
    ensures multiset(ByBlock(us)) == multiset(us) && Newest(ByBlock(us))
    ensures multiset(Reserves0(ByBlock(us))) == multiset(Reserves0(us))
    ensures multiset(Reserves1(ByBlock(us))) == multiset(Reserves1(us))
  {
    if us != [] {
      var n := |us| - 1;
      assert us == us[..n] + [us[n]];
      ByBlockKeeps(us[..n]);
      InsertUpdateKeeps(ByBlock(us[..n]), us[n]);
      InsertUpdateReserves(ByBlock(us[..n]), us[n]);
      InsertUpdateNewest(ByBlock(us[..n]), us[n]);
      ReservesAppend(us[..n], us[n]);
    }
  }

  datatype Aggregated = Aggregated(reserve0: int, reserve1: int, blockNumber: nat, sources: seq<Address>)

  function Aggregate(us: seq<Update>, now: int, maxAge: int): Option<Aggregated> {
    var live := ByBlock(Recent(us, now - maxAge));
    if live == [] then None
    else Some(Aggregated(Median(Reserves0(live)), Median(Reserves1(live)), live[0].report.blockNumber,
                         seq(|live|, i requires 0 <= i < |live| => live[i].source)))
  }

  /** The aggregated reserves cannot be moved out of a range that a strict majority of the fresh
      reports agree on, and the block number is the newest among them. */
  lemma AggregateRobust(us: seq<Update>, now: int, maxAge: int, lo: int, hi: int)
    requires Aggregate(us, now, maxAge).Some?
    ensures var live := Recent(us, now - maxAge);
            var a := Aggregate(us, now, maxAge).value;
            && (2 * CountIn(Reserves0(live), lo, hi) > |live| ==> lo <= a.reserve0 <= hi)
            && (2 * CountIn(Reserves1(live), lo, hi) > |live| ==> lo <= a.reserve1 <= hi)
            && (forall u | u in live :: u.report.blockNumber <= a.blockNumber)
            && (exists u :: u in live && u.report.blockNumber == a.blockNumber)
  {
    var live := Recent(us, now - maxAge);
    ByBlockKeeps(live);
    var sorted := ByBlock(live);
    MedianOrderFree(Reserves0(sorted), Reserves0(live));
    MedianOrderFree(Reserves1(sorted), Reserves1(live));
    if 2 * CountIn(Reserves0(live), lo, hi) > |live| { MajorityRules(Reserves0(live), lo, hi); }
    if 2 * CountIn(Reserves1(live), lo, hi) > |live| { MajorityRules(Reserves1(live), lo, hi); }
    forall u | u in live ensures u.report.blockNumber <= sorted[0].report.blockNumber {
      assert u in multiset(live);
      assert u in multiset(sorted);
      var i :| 0 <= i < |sorted| && sorted[i] == u;
    }
    assert sorted[0] in multiset(sorted);
    assert sorted[0] in multiset(live);
  }

  /** When there is an aggregate and what it names: one exactly if some report is younger than the maximum
      age, from as many sources as there are such reports, and those sources only. */
  lemma AggregateTerms(us: seq<Update>, now: int, maxAge: int)
    ensures Aggregate(us, now, maxAge).None? <==> forall u | u in us :: now - u.report.timestamp >= maxAge
    ensures Aggregate(us, now, maxAge).Some? ==>
              var a := Aggregate(us, now, maxAge).value;
              && |a.sources| == |Recent(us, now - maxAge)|
              && (forall x :: x in a.sources <==> exists u :: u in us && now - u.report.timestamp < maxAge && u.source == x)
  {
    var sorted := ByBlock(Recent(us, now - maxAge));
    hide ByBlock, Recent, Median, ByBlock;
    SortedSize(us, now - maxAge);
    forall u ensures u in sorted <==> u in us && now - u.report.timestamp < maxAge {
      SortedMembers(us, now - maxAge, u);
    }
    if sorted != [] {
      assert sorted[0] in sorted;
      SourcesOf(us, sorted, now, maxAge);
    }
  }

  lemma SortedSize(us: seq<Update>, cutoff: int)
    ensures |ByBlock(Recent(us, cutoff))| == |Recent(us, cutoff)|
  {
    var live := Recent(us, cutoff);
    ByBlockKeeps(live);
    assert |multiset(ByBlock(live))| == |ByBlock(live)| && |multiset(live)| == |live|;
  }

  lemma SortedMembers(us: seq<Update>, cutoff: int, u: Update)
    ensures u in ByBlock(Recent(us, cutoff)) <==> u in us && u.report.timestamp > cutoff
  {
    var live := Recent(us, cutoff);
    var sorted := ByBlock(live);
    ByBlockKeeps(live);
    RecentMembers(us, cutoff, u);
    hide *;
    assert u in multiset(sorted) <==> u in sorted;
    assert u in multiset(live) <==> u in live;
  }

  lemma SourcesOf(us: seq<Update>, sorted: seq<Update>, now: int, maxAge: int)
    requires forall u :: u in sorted <==> u in us && now - u.report.timestamp < maxAge
    ensures var sources := seq(|sorted|, i requires 0 <= i < |sorted| => sorted[i].source);
            forall x :: x in sources <==> exists u :: u in us && now - u.report.timestamp < maxAge && u.source == x
  {
    var sources := seq(|sorted|, i requires 0 <= i < |sorted| => sorted[i].source);
    forall x | x in sources ensures exists u :: u in us && now - u.report.timestamp < maxAge && u.source == x {
      var i :| 0 <= i < |sources| && sources[i] == x;
      assert sorted[i] in sorted;
    }
    forall u | u in us && now - u.report.timestamp < maxAge ensures u.source in sources {
      var i :| 0 <= i < |sorted| && sorted[i] == u;
      assert sources[i] == u.source;
    }
  }

  // ---------- one report per signer ----------

  function SignersOf(us: seq<Update>): set<Address> {
    set i | 0 <= i < |us| :: us[i].source
  }

  /** The signers whose reported reserve, first or second, lies in a range. */
  function SignersIn(us: seq<Update>, second: bool, lo: int, hi: int): set<Address> {
    set i | 0 <= i < |us| && lo <= (if second then us[i].report.reserve1 else us[i].report.reserve0) <= hi :: us[i].source
  }

  function Reserves(us: seq<Update>, second: bool): seq<int> {
    if second then Reserves1(us) else Reserves0(us)
  }

  /** With one report per signer, counting reports is counting signers. */
  lemma {:induction false} SignersCount(us: seq<Update>, second: bool, lo: int, hi: int)
    requires OnePerSigner(us)
    ensures |SignersOf(us)| == |us| && |SignersIn(us, second, lo, hi)| == CountIn(Reserves(us, second), lo, hi)
  {
    if us != [] {
      var n := |us| - 1;
      var init, u := us[..n], us[n];
      SignersCount(init, second, lo, hi);
      assert us == init + [u];
      ReservesAppend(init, u);
      var last := if second then u.report.reserve1 else u.report.reserve0;
      assert Reserves(us, second) == Reserves(init, second) + [last];
      hide *;
      SignersSnoc(init, u, second, lo, hi);
      CountSnoc(Reserves(init, second), last, lo, hi);
    } else {
      assert SignersOf(us) == {} && SignersIn(us, second, lo, hi) == {};
    }
  }

  lemma CountSnoc(s: seq<int>, x: int, lo: int, hi: int)
    ensures CountIn(s + [x], lo, hi) == CountIn(s, lo, hi) + if lo <= x <= hi then 1 else 0
  {
    assert (s + [x])[..|s|] == s;
  }

  lemma SignersSnoc(us: seq<Update>, u: Update, second: bool, lo: int, hi: int)
    requires OnePerSigner(us + [u])
    ensures SignersOf(us + [u]) == SignersOf(us) + {u.source} && u.source !in SignersOf(us)
    ensures var inside := lo <= (if second then u.report.reserve1 else u.report.reserve0) <= hi;
            SignersIn(us + [u], second, lo, hi) == SignersIn(us, second, lo, hi) + if inside then {u.source} else {}
    ensures u.source !in SignersIn(us, second, lo, hi)
  {
    var all := us + [u];
    assert forall i | 0 <= i < |us| :: all[i] == us[i] && all[i].source != all[|us|].source;
    assert all[|us|] == u;
  }

  /** Whenever more than half of the signers with a fresh report put a reserve into a range, the
      aggregate does too. */
  lemma SignersRule(us: seq<Update>, now: int, maxAge: int, second: bool, lo: int, hi: int)
    requires OnePerSigner(us) && Aggregate(us, now, maxAge).Some?
    requires var live := Recent(us, now - maxAge); 2 * |SignersIn(live, second, lo, hi)| > |SignersOf(live)|
    ensures var a := Aggregate(us, now, maxAge).value; lo <= (if second then a.reserve1 else a.reserve0) <= hi
  {
    var live := Recent(us, now - maxAge);
    hide Recent, Aggregate, CountIn, SignersIn, SignersOf;
    RecentOnePerSigner(us, now - maxAge);
    SignersCount(live, second, lo, hi);
    AggregateRobust(us, now, maxAge, lo, hi);
  }

  /** Wherever more than half of the signers with a fresh report agree, the aggregate agrees with them. */
  ghost predicate MajorityHolds(us: seq<Update>, cutoff: int, a: Aggregated) {
    forall lo, hi ::
      && (2 * |SignersIn(Recent(us, cutoff), false, lo, hi)| > |SignersOf(Recent(us, cutoff))| ==> lo <= a.reserve0 <= hi)
      && (2 * |SignersIn(Recent(us, cutoff), true, lo, hi)| > |SignersOf(Recent(us, cutoff))| ==> lo <= a.reserve1 <= hi)
  }

  lemma AggregateMajority(us: seq<Update>, now: int, maxAge: int)
    requires OnePerSigner(us) && Aggregate(us, now, maxAge).Some?
    ensures MajorityHolds(us, now - maxAge, Aggregate(us, now, maxAge).value)
  {
    hide Recent, Aggregate, SignersIn, SignersOf, OnePerSigner;
    var live, a := Recent(us, now - maxAge), Aggregate(us, now, maxAge).value;
    forall lo, hi
      ensures 2 * |SignersIn(live, false, lo, hi)| > |SignersOf(live)| ==> lo <= a.reserve0 <= hi
      ensures 2 * |SignersIn(live, true, lo, hi)| > |SignersOf(live)| ==> lo <= a.reserve1 <= hi
    {
      if 2 * |SignersIn(live, false, lo, hi)| > |SignersOf(live)| { SignersRule(us, now, maxAge, false, lo, hi); }
      if 2 * |SignersIn(live, true, lo, hi)| > |SignersOf(live)| { SignersRule(us, now, maxAge, true, lo, hi); }
    }
  }

  function Without(us: seq<Update>, source: Address): seq<Update> {
    if us == [] then []
    else
      var n := |us| - 1;
      Without(us[..n], source) + (if us[n].source != source then [us[n]] else [])
  }

  lemma {:induction false} WithoutMembers(us: seq<Update>, source: Address, u: Update)
    ensures u in Without(us, source) <==> u in us && u.source != source
  {
    if us != [] {
      var n := |us| - 1;
      WithoutMembers(us[..n], source, u);
      assert us == us[..n] + [us[n]];
    }
  }

  lemma SnocOnePerSigner(us: seq<Update>, u: Update)
    requires OnePerSigner(us) && forall i | 0 <= i < |us| :: us[i].source != u.source
    ensures OnePerSigner(us + [u])
  {
  }

  predicate OnePerSigner(us: seq<Update>) {
    forall i, j | 0 <= i < j < |us| :: us[i].source != us[j].source
  }

  /** What every pool list satisfies: verified reports for that pool, one per signer. */
  ghost predicate PoolOk(us: seq<Update>, key: (nat, Address)) {
    OnePerSigner(us) && forall u | u in us :: Verifies(u) && u.report.chain == key.0 && u.report.pool == key.1
  }

  lemma {:induction false} WithoutOnePerSigner(us: seq<Update>, source: Address)
    requires OnePerSigner(us)
    ensures OnePerSigner(Without(us, source))
  {
    if us != [] {
      var n := |us| - 1;
      var before := Without(us[..n], source);
      WithoutOnePerSigner(us[..n], source);
      forall i | 0 <= i < |before| ensures before[i].source != us[n].source {
        WithoutMembers(us[..n], source, before[i]);
      }
      if us[n].source != source { SnocOnePerSigner(before, us[n]); }
    }
  }

  lemma {:induction false} RecentOnePerSigner(us: seq<Update>, cutoff: int)
    requires OnePerSigner(us)
    ensures OnePerSigner(Recent(us, cutoff)) && |Recent(us, cutoff)| <= |us|
  {
    if us != [] {
      var n := |us| - 1;
      var before := Recent(us[..n], cutoff);
      RecentOnePerSigner(us[..n], cutoff);
      forall i | 0 <= i < |before| ensures before[i].source != us[n].source {
        RecentMembers(us[..n], cutoff, before[i]);
      }
      if us[n].report.timestamp > cutoff { SnocOnePerSigner(before, us[n]); }
    }
  }

  lemma ReplaceKeepsPool(us: seq<Update>, key: (nat, Address), u: Update)
    requires PoolOk(us, key) && Verifies(u) && u.report.chain == key.0 && u.report.pool == key.1
    ensures PoolOk(Without(us, u.source) + [u], key)
  {
    var r := Without(us, u.source);
    WithoutOnePerSigner(us, u.source);
    forall x | x in r ensures x in us && x.source != u.source {
      WithoutMembers(us, u.source, x);
    }
    hide Without;
    SnocOnePerSigner(r, u);
  }

  /** The list after a report: the new one, and the old ones of the other signers. */
  lemma ReplacedMembers(us: seq<Update>, u: Update)
    ensures forall x :: x in Without(us, u.source) + [u] <==> x == u || (x in us && x.source != u.source)
  {
    forall x ensures x in Without(us, u.source) <==> x in us && x.source != u.source {
      WithoutMembers(us, u.source, x);
    }
    hide Without;
  }

  datatype AddError = BadSignature | TooOld

  class PriceAggregator {
    var prices: map<(nat, Address), seq<Update>>
    const minSources: int
    const maxAge: int
    var updatesReceived: nat
    var updatesValid: nat
    var updatesStale: nat

    ghost predicate Valid()
      reads this
    {
      && (forall key | key in prices :: PoolOk(prices[key], key))
      && updatesValid + updatesStale <= updatesReceived
    }

    constructor (minSources: int, maxAge: int)
      ensures Valid() && prices == map[] && this.minSources == minSources && this.maxAge == maxAge
    {
      prices, this.minSources, this.maxAge := map[], minSources, maxAge;
      updatesReceived, updatesValid, updatesStale := 0, 0, 0;
    }

    function PoolList(key: (nat, Address)): seq<Update>
      reads this
    {
      if key in prices then prices[key] else []
    }

    /** Replaces the signer's previous report of the pool; publishes an aggregate once there are
        enough sources. */
    method AddUpdate(u: Update, now: int) returns (err: Option<AddError>, published: Option<Aggregated>)
      requires Valid()
      modifies this
      ensures Valid() && updatesReceived == old(updatesReceived) + 1
      ensures err == Some(BadSignature) <==> u.signature != Signature(u.source, u.report)
      ensures err == Some(TooOld) <==> u.signature == Signature(u.source, u.report) && now - u.report.timestamp > maxAge
      ensures updatesStale == old(updatesStale) + (if err == Some(TooOld) then 1 else 0) && updatesValid == old(updatesValid) + if err.None? then 1 else 0
      ensures err.Some? ==> prices == old(prices) && published.None?
      ensures err.None? ==>
                var key := (u.report.chain, u.report.pool);
                var list := Without(old(PoolList(key)), u.source) + [u];
                && prices == old(prices)[key := list] && (forall x :: x in list <==> x == u || (x in old(PoolList(key)) && x.source != u.source))
                && published == if |list| >= minSources then Aggregate(list, now, maxAge) else None
    {
      hide Aggregate, Without;
      updatesReceived := updatesReceived + 1;
      published := None;
      if !Verifies(u) { return Some(BadSignature), None; }
      if now - u.report.timestamp > maxAge {
        updatesStale := updatesStale + 1;
        return Some(TooOld), None;
      }
      updatesValid := updatesValid + 1;
      var key := (u.report.chain, u.report.pool);
      var poolUpdates := PoolList(key);
      var filtered := FilterOut(poolUpdates, u.source);
      ReplaceKeepsPool(poolUpdates, key, u);
      ReplacedMembers(poolUpdates, u);
      filtered := filtered + [u];
      prices := prices[key := filtered];
      if |filtered| >= minSources {
        published := Aggregate(filtered, now, maxAge);
      }
      err := None;
    }

    method GetPrice(key: (nat, Address), now: int) returns (r: Option<Aggregated>)
      requires Valid()
      ensures r == Aggregate(PoolList(key), now, maxAge)
      ensures r.Some? ==> MajorityHolds(PoolList(key), now - maxAge, r.value)
      ensures r.None? <==> key !in prices || forall u | u in prices[key] :: now - u.report.timestamp >= maxAge
      ensures r.Some? ==> forall x :: x in r.value.sources <==> exists u :: u in prices[key] && now - u.report.timestamp < maxAge && u.source == x
    {
      AggregateTerms(PoolList(key), now, maxAge);
      if key !in prices || prices[key] == [] {
        return None;
      }
      r := Aggregate(prices[key], now, maxAge);
      hide Aggregate, MajorityHolds;
      if r.Some? { AggregateMajority(prices[key], now, maxAge); }
    }

    /** Drops reports older than twice the maximum age from every pool, and counts them. */
    method Prune(now: int) returns (removed: nat)
      requires Valid()
      modifies this`prices
      ensures Valid() && removed == |Stale(old(prices), old(prices).Keys, now - 2 * maxAge)|
      ensures prices == map key | key in old(prices) :: Recent(old(prices)[key], now - 2 * maxAge)
      ensures forall key | key in prices :: forall u :: u in prices[key] <==> u in old(prices)[key] && now - u.report.timestamp < 2 * maxAge
    {
      PrunedMembers(prices, now - 2 * maxAge);
      var cutoff := now - 2 * maxAge;
      ghost var first, done := prices, {};
      NothingStale(first, cutoff);
      hide Recent, PoolOk, Stale;
      var todo := prices.Keys;
      removed := 0;
      while todo != {}
        invariant Valid() && PrunedTo(first, prices, todo, cutoff) && done == first.Keys - todo && todo <= first.Keys
        invariant removed == |Stale(first, done, cutoff)|
      {
        hide PrunedTo;
        var key :| key in todo;
        PruneStep(first, prices, todo, key, cutoff);
        StaleGrows(first, done, key, cutoff);
        var gone := PrunePool(key, cutoff);
        removed := removed + gone;
        todo, done := todo - {key}, done + {key};
      }
      assert done == first.Keys;
    }

    method PrunePool(key: (nat, Address), cutoff: int) returns (gone: nat)
      requires Valid() && key in prices
      modifies this`prices
      ensures Valid() && prices == old(prices)[key := Recent(old(prices)[key], cutoff)]
      ensures gone == |old(prices)[key]| - |Recent(old(prices)[key], cutoff)|
    {
      hide Recent, PoolOk;
      var filtered := FilterRecent(prices[key], cutoff);
      PruneKeepsPool(prices[key], key, cutoff);
      RecentNotLonger(prices[key], cutoff);
      gone := |prices[key]| - |filtered|;
      prices := prices[key := filtered];
    }
  }

  lemma RecentNotLonger(us: seq<Update>, cutoff: int)
    ensures |Recent(us, cutoff)| <= |us|
  {
    StaleSize(us, cutoff);
  }

  /** All pools but those still to do are pruned. */
  ghost predicate PrunedTo(first: Pools, prices: Pools, todo: set<(nat, Address)>, cutoff: int) {
    && prices.Keys == first.Keys
    && forall key | key in prices :: prices[key] == if key in todo then first[key] else Recent(first[key], cutoff)
  }

  lemma PruneStep(first: Pools, prices: Pools, todo: set<(nat, Address)>, key: (nat, Address), cutoff: int)
    requires PrunedTo(first, prices, todo, cutoff) && key in todo && todo <= first.Keys
    ensures key in prices && prices[key] == first[key]
    ensures PrunedTo(first, prices[key := Recent(prices[key], cutoff)], todo - {key}, cutoff)
  {
    hide Recent;
  }

  lemma NothingStale(prices: Pools, cutoff: int)
    ensures Stale(prices, {}, cutoff) == {}
  {
  }

  type Pools = map<(nat, Address), seq<Update>>

  /** The reports of some pools that are not younger than the cut-off, by pool and position. */
  ghost function Stale(prices: Pools, keys: set<(nat, Address)>, cutoff: int): set<((nat, Address), int)> {
    set key, i | key in keys && key in prices && 0 <= i < |prices[key]| && prices[key][i].report.timestamp <= cutoff :: (key, i)
  }

  ghost function StaleIn(us: seq<Update>, cutoff: int): set<int> {
    set i | 0 <= i < |us| && us[i].report.timestamp <= cutoff
  }

  ghost function Tagged(key: (nat, Address), at: set<int>): set<((nat, Address), int)> {
    set i | i in at :: (key, i)
  }

  lemma {:induction false} TaggedSize(us: seq<Update>, key: (nat, Address), cutoff: int)
    ensures |Tagged(key, StaleIn(us, cutoff))| == |StaleIn(us, cutoff)|
  {
    if us == [] {
      assert StaleIn(us, cutoff) == {} && Tagged(key, {}) == {};
    } else {
      var n := |us| - 1;
      TaggedSize(us[..n], key, cutoff);
      StaleSnoc(us, cutoff);
      hide StaleIn;
      if us[n].report.timestamp <= cutoff { TagOne(key, StaleIn(us[..n], cutoff), n); }
    }
  }

  lemma TagOne(key: (nat, Address), at: set<int>, n: int)
    requires n !in at
    ensures |Tagged(key, at + {n})| == |Tagged(key, at)| + 1
  {
    assert Tagged(key, at + {n}) == Tagged(key, at) + {(key, n)};
    assert (key, n) !in Tagged(key, at);
  }

  lemma {:induction false} StaleSize(us: seq<Update>, cutoff: int)
    ensures |Recent(us, cutoff)| + |StaleIn(us, cutoff)| == |us|
  {
    if us == [] {
      assert StaleIn(us, cutoff) == {};
    } else {
      var n := |us| - 1;
      StaleSize(us[..n], cutoff);
      assert |Recent(us, cutoff)| == |Recent(us[..n], cutoff)| + if us[n].report.timestamp > cutoff then 1 else 0;
      hide *;
      StaleSnoc(us, cutoff);
    }
  }

  lemma StaleSnoc(us: seq<Update>, cutoff: int)
    requires us != []
    ensures var n := |us| - 1;
            && |StaleIn(us, cutoff)| == |StaleIn(us[..n], cutoff)| + (if us[n].report.timestamp <= cutoff then 1 else 0)
            && n !in StaleIn(us[..n], cutoff)
            && StaleIn(us, cutoff) == StaleIn(us[..n], cutoff) + if us[n].report.timestamp <= cutoff then {n} else {}
  {
    var n := |us| - 1;
    var before, all := StaleIn(us[..n], cutoff), StaleIn(us, cutoff);
    var last := if us[n].report.timestamp <= cutoff then {n} else {};
    assert n !in before;
    forall i ensures i in all <==> i in before || i in last {
      if 0 <= i < n { assert us[..n][i] == us[i]; }
    }
    hide StaleIn;
    assert all == before + last;
    assert |before + last| == |before| + |last|;
  }

  lemma StaleGrows(prices: Pools, keys: set<(nat, Address)>, key: (nat, Address), cutoff: int)
    requires key in prices && key !in keys
    ensures |Recent(prices[key], cutoff)| <= |prices[key]|
    ensures |Stale(prices, keys + {key}, cutoff)| == |Stale(prices, keys, cutoff)| + |prices[key]| - |Recent(prices[key], cutoff)|
  {
    StaleSize(prices[key], cutoff);
    TaggedSize(prices[key], key, cutoff);
    var before, here := Stale(prices, keys, cutoff), Tagged(key, StaleIn(prices[key], cutoff));
    StaleParts(prices, keys, key, cutoff);
    hide *;
  }

  lemma StaleParts(prices: Pools, keys: set<(nat, Address)>, key: (nat, Address), cutoff: int)
    requires key in prices && key !in keys
    ensures var before, here := Stale(prices, keys, cutoff), Tagged(key, StaleIn(prices[key], cutoff));
            Stale(prices, keys + {key}, cutoff) == before + here && before !! here
  {
    var before, here := Stale(prices, keys, cutoff), Tagged(key, StaleIn(prices[key], cutoff));
    forall p ensures p in Stale(prices, keys + {key}, cutoff) <==> p in before || p in here {}
  }

  lemma PrunedMembers(prices: Pools, cutoff: int)
    ensures forall key | key in prices :: forall u :: u in Recent(prices[key], cutoff) <==> u in prices[key] && u.report.timestamp > cutoff
  {
    hide Recent;
    forall key | key in prices ensures forall u :: u in Recent(prices[key], cutoff) <==> u in prices[key] && u.report.timestamp > cutoff {
      forall u ensures u in Recent(prices[key], cutoff) <==> u in prices[key] && u.report.timestamp > cutoff {
        RecentMembers(prices[key], cutoff, u);
      }
    }
  }

  lemma PruneKeepsPool(us: seq<Update>, key: (nat, Address), cutoff: int)
    requires PoolOk(us, key)
    ensures PoolOk(Recent(us, cutoff), key)
  {
    RecentOnePerSigner(us, cutoff);
    forall u | u in Recent(us, cutoff) ensures u in us {
      RecentMembers(us, cutoff, u);
    }
  }

  method FilterRecent(us: seq<Update>, cutoff: int) returns (r: seq<Update>)
    ensures r == Recent(us, cutoff)
  {
    r := [];
    for i := 0 to |us|
      invariant r == Recent(us[..i], cutoff)
    {
      assert us[..i + 1][..i] == us[..i];
      if us[i].report.timestamp > cutoff { r := r + [us[i]]; }
    }
    assert us[..|us|] == us;
  }

  method FilterOut(us: seq<Update>, source: Address) returns (r: seq<Update>)
    ensures r == Without(us, source)
  {
    r := [];
    for i := 0 to |us|
      invariant r == Without(us[..i], source)
    {
      assert us[..i + 1][..i] == us[..i];
      if us[i].source != source { r := r + [us[i]]; }
    }
    assert us[..|us|] == us;
  }
}
