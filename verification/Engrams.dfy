/**
 Associative memory of memory/engrams.go: engrams are stored concept tuples, and an inverted index
 lists, for every concept hash, the engrams that contain it, once per occurrence. Scores that the
 source computes in floating point enter as parameters.
 */
module Engrams {
  import opened Common

  type Id = string
  type Hash = string

  datatype Engram = Engram(concepts: seq<string>, hashes: seq<Hash>, strength: real, resonance: real, activations: int)

  type Memory = map<Id, Engram>
  type Index = map<Hash, seq<Id>>

  function Listed(index: Index, h: Hash): seq<Id> {
    if h in index then index[h] else []
  }

  /** How often an engram contains a concept hash. */
  function Occurs(engrams: Memory, id: Id, h: Hash): nat {
    if id in engrams then multiset(engrams[id].hashes)[h] else 0
  }

  ghost predicate AgreesAt(engrams: Memory, index: Index, h: Hash, id: Id) {
    multiset(Listed(index, h))[id] == Occurs(engrams, id, h)
  }

  /** The index lists every engram under each of its hashes, as often as the hash occurs. */
  ghost predicate Agrees(engrams: Memory, index: Index) {
    forall h, id {:trigger AgreesAt(engrams, index, h, id)} :: AgreesAt(engrams, index, h, id)
  }

  /** Every engram keeps the hash of each of its concepts, in order. */
  ghost predicate Hashed(engrams: Memory, hashOf: string -> Hash) {
    forall id | id in engrams :: HashedOne(engrams[id], hashOf)
  }

  ghost predicate HashedOne(e: Engram, hashOf: string -> Hash) {
    |e.hashes| == |e.concepts| && forall i | 0 <= i < |e.concepts| :: e.hashes[i] == hashOf(e.concepts[i])
  }

  // ---------- counting matches ----------

  /** The full scan: positions of the list whose hash is in the input set. */
  function Scan(hashes: seq<Hash>, input: set<Hash>): nat {
    if hashes == [] then 0
    else Scan(hashes[..|hashes| - 1], input) + (if hashes[|hashes| - 1] in input then 1 else 0)
  }

  lemma {:induction false} ScanOneMore(hashes: seq<Hash>, input: set<Hash>, h: Hash)
    requires h !in input
    ensures Scan(hashes, input + {h}) == Scan(hashes, input) + multiset(hashes)[h]
  {
    if hashes != [] {
      var n := |hashes| - 1;
      ScanOneMore(hashes[..n], input, h);
      assert hashes == hashes[..n] + [hashes[n]];
    }
  }

  lemma {:induction false} ScanNothing(hashes: seq<Hash>)
    ensures Scan(hashes, {}) == 0
  {
    if hashes != [] { ScanNothing(hashes[..|hashes| - 1]); }
  }

  function Matches(engrams: Memory, id: Id, input: set<Hash>): nat {
    if id in engrams then Scan(engrams[id].hashes, input) else 0
  }

  /** The scan reaches the length of the list exactly if every hash is asked for, and is positive
      exactly if one of them is. */
  lemma {:induction false} ScanExtremes(hashes: seq<Hash>, input: set<Hash>)
    ensures Scan(hashes, input) <= |hashes|
    ensures Scan(hashes, input) == |hashes| <==> forall i | 0 <= i < |hashes| :: hashes[i] in input
    ensures Scan(hashes, input) > 0 <==> exists i | 0 <= i < |hashes| :: hashes[i] in input
  {
    if hashes != [] {
      var n := |hashes| - 1;
      ScanExtremes(hashes[..n], input);
      assert forall i | 0 <= i < n :: hashes[..n][i] == hashes[i];
    }
  }

  /** Asking for one concept of an engram matches it, and asking for all of them matches it in full. */
  lemma OwnConceptsMatch(e: Engram, hashOf: string -> Hash, asked: seq<string>)
    requires HashedOne(e, hashOf)
    ensures (exists c :: c in e.concepts && c in asked) ==> Scan(e.hashes, HashSet(asked, hashOf)) > 0
    ensures (forall c | c in e.concepts :: c in asked) ==> Scan(e.hashes, HashSet(asked, hashOf)) == |e.concepts|
  {
    ScanExtremes(e.hashes, HashSet(asked, hashOf));
    if c :| c in e.concepts && c in asked {
      var i :| 0 <= i < |e.concepts| && e.concepts[i] == c;
      assert e.hashes[i] in HashSet(asked, hashOf);
    }
    if forall c | c in e.concepts :: c in asked {
      assert forall i | 0 <= i < |e.hashes| :: e.concepts[i] in asked && e.hashes[i] in HashSet(asked, hashOf);
    }
  }

  function CountOf(m: map<Id, nat>, id: Id): nat {
    if id in m then m[id] else 0
  }

  lemma OneMoreHash(engrams: Memory, index: Index, input: set<Hash>, h: Hash, id: Id)
    requires Agrees(engrams, index) && h !in input
    ensures Matches(engrams, id, input + {h}) == Matches(engrams, id, input) + multiset(Listed(index, h))[id]
  {
    assert AgreesAt(engrams, index, h, id);
    if id in engrams { ScanOneMore(engrams[id].hashes, input, h); }
  }

  /** The candidate table built from the index holds, for every engram with a match, the number of
      its positions matched, and nothing else. */
  method CountMatches(engrams: Memory, index: Index, input: set<Hash>) returns (candidates: map<Id, nat>)
    requires Agrees(engrams, index)
    ensures forall id :: CountOf(candidates, id) == Matches(engrams, id, input)
    ensures forall id | id in candidates :: id in engrams && candidates[id] > 0
  {
    candidates := map[];
    var todo, seen := input, {};
    forall id ensures Matches(engrams, id, {}) == 0 {
      if id in engrams { ScanNothing(engrams[id].hashes); }
    }
    while todo != {}
      invariant seen + todo == input && seen !! todo
      invariant forall id :: CountOf(candidates, id) == Matches(engrams, id, seen)
      invariant forall id | id in candidates :: candidates[id] > 0
    {
      var h :| h in todo;
      ghost var before := candidates;
      candidates := Tally(candidates, Listed(index, h));
      forall id ensures CountOf(candidates, id) == Matches(engrams, id, seen + {h}) {
        OneMoreHash(engrams, index, seen, h, id);
      }
      todo, seen := todo - {h}, seen + {h};
    }
    assert seen == input;
    forall id | id in candidates ensures id in engrams {
      assert CountOf(candidates, id) == Matches(engrams, id, input);
    }
  }

  method Tally(counts: map<Id, nat>, ids: seq<Id>) returns (r: map<Id, nat>)
    requires forall id | id in counts :: counts[id] > 0
    ensures forall id :: CountOf(r, id) == CountOf(counts, id) + multiset(ids)[id]
    ensures forall id | id in r :: r[id] > 0
  {
    r := counts;
    for i := 0 to |ids|
      invariant forall id :: CountOf(r, id) == CountOf(counts, id) + multiset(ids[..i])[id]
      invariant forall id | id in r :: r[id] > 0
    {
      assert ids[..i + 1] == ids[..i] + [ids[i]];
      r := r[ids[i] := CountOf(r, ids[i]) + 1];
    }
    assert ids[..|ids|] == ids;
  }

  // ---------- keeping the index ----------

  function Without(ids: seq<Id>, id: Id): (r: seq<Id>)
    ensures multiset(r) == multiset(ids)[id := 0]
  {
    if ids == [] then []
    else
      var n := |ids| - 1;
      assert ids == ids[..n] + [ids[n]];
      Without(ids[..n], id) + (if ids[n] != id then [ids[n]] else [])
  }

  /** The index after listing id under each hash of a list. */
  function Enlist(index: Index, hashes: seq<Hash>, id: Id): Index {
    if hashes == [] then index
    else
      var n := |hashes| - 1;
      var before := Enlist(index, hashes[..n], id);
      before[hashes[n] := Listed(before, hashes[n]) + [id]]
  }

  lemma CountSnoc(s: seq<string>, y: string, x: string)
    ensures multiset(s + [y])[x] == multiset(s)[x] + if x == y then 1 else 0
  {
  }

  lemma EnlistLast(index: Index, hashes: seq<Hash>, id: Id, h: Hash)
    requires hashes != []
    ensures var before := Enlist(index, hashes[..|hashes| - 1], id);
            Listed(Enlist(index, hashes, id), h) == Listed(before, h) + if h == hashes[|hashes| - 1] then [id] else []
  {
  }

  lemma {:induction false} EnlistCount(index: Index, hashes: seq<Hash>, id: Id, h: Hash, x: Id)
    ensures multiset(Listed(Enlist(index, hashes, id), h))[x]
         == multiset(Listed(index, h))[x] + (if x == id then multiset(hashes)[h] else 0)
  {
    if hashes != [] {
      var n := |hashes| - 1;
      EnlistCount(index, hashes[..n], id, h, x);
      assert hashes == hashes[..n] + [hashes[n]];
      var before := Enlist(index, hashes[..n], id);
      EnlistLast(index, hashes, id, h);
      hide *;
      CountSnoc(hashes[..n], hashes[n], h);
      CountSnoc(Listed(before, h), id, x);
    }
  }

  lemma AddKeepsAgreement(engrams: Memory, index: Index, id: Id, e: Engram)
    requires Agrees(engrams, index) && id !in engrams
    ensures Agrees(engrams[id := e], Enlist(index, e.hashes, id))
  {
    var m, i := engrams[id := e], Enlist(index, e.hashes, id);
    forall h, x ensures AgreesAt(m, i, h, x) {
      assert AgreesAt(engrams, index, h, x);
      EnlistCount(index, e.hashes, id, h, x);
    }
  }

  /** The index after taking id off the lists of the given hashes. */
  function Delist(index: Index, hashes: seq<Hash>, id: Id): Index {
    if hashes == [] then index
    else
      var n := |hashes| - 1;
      var before := Delist(index, hashes[..n], id);
      if hashes[n] in before then before[hashes[n] := Without(before[hashes[n]], id)] else before
  }

  lemma {:induction false} DelistCount(index: Index, hashes: seq<Hash>, id: Id, h: Hash, x: Id)
    ensures multiset(Listed(Delist(index, hashes, id), h))[x]
         == if x == id && h in hashes then 0 else multiset(Listed(index, h))[x]
  {
    if hashes != [] {
      var n := |hashes| - 1;
      DelistCount(index, hashes[..n], id, h, x);
      assert h in hashes <==> h in hashes[..n] || h == hashes[n];
    }
  }

  lemma RemoveKeepsAgreement(engrams: Memory, index: Index, id: Id)
    requires Agrees(engrams, index) && id in engrams
    ensures Agrees(engrams - {id}, Delist(index, engrams[id].hashes, id))
  {
    var hs := engrams[id].hashes;
    var m, i := engrams - {id}, Delist(index, hs, id);
    forall h, x ensures AgreesAt(m, i, h, x) {
      assert AgreesAt(engrams, index, h, x);
      DelistCount(index, hs, id, h, x);
      assert h in hs <==> multiset(hs)[h] > 0;
    }
  }

  /** Changing anything but the hashes of an engram does not concern the index. */
  lemma TouchKeepsAgreement(engrams: Memory, index: Index, id: Id, e: Engram)
    requires Agrees(engrams, index) && id in engrams && e.hashes == engrams[id].hashes
    ensures Agrees(engrams[id := e], index)
  {
    var m := engrams[id := e];
    forall h, x ensures AgreesAt(m, index, h, x) {
      assert AgreesAt(engrams, index, h, x);
    }
  }

  // ---------- ordering by score ----------

  type Score = (Id, Engram) -> real

  type Scores = map<Id, real>

  ghost predicate Scored(scores: Scores, ids: seq<Id>) {
    forall i | 0 <= i < |ids| :: ids[i] in scores
  }

  ghost predicate Apart(ids: seq<Id>) {
    forall i, j | 0 <= i < j < |ids| :: ids[i] != ids[j]
  }

  ghost predicate Rising(scores: Scores, ids: seq<Id>)
    requires Scored(scores, ids)
  {
    forall i, j | 0 <= i < j < |ids| :: scores[ids[i]] <= scores[ids[j]]
  }

  ghost predicate Ascending(scores: Scores, ids: seq<Id>) {
    Scored(scores, ids) && Apart(ids) && Rising(scores, ids)
  }

  /** r is ids with id put in at position p. */
  ghost predicate Inserted(ids: seq<Id>, id: Id, p: nat, r: seq<Id>) {
    && p <= |ids| && |r| == |ids| + 1 && r[p] == id
    && (forall k | 0 <= k < p :: r[k] == ids[k])
    && (forall k | p < k < |r| :: r[k] == ids[k - 1])
  }

  lemma InsertAt(ids: seq<Id>, id: Id, p: nat, r: seq<Id>)
    requires p <= |ids| && r == ids[..p] + [id] + ids[p..]
    ensures Inserted(ids, id, p, r)
    ensures forall x :: x in r <==> x in ids || x == id
  {
    assert ids == ids[..p] + ids[p..];
  }

  lemma InsertApart(ids: seq<Id>, id: Id, p: nat, r: seq<Id>)
    requires Inserted(ids, id, p, r) && Apart(ids) && id !in ids
    ensures Apart(r)
  {
  }

  lemma InsertRising(scores: Scores, ids: seq<Id>, id: Id, p: nat, r: seq<Id>)
    requires Scored(scores, ids) && Rising(scores, ids) && id in scores && Inserted(ids, id, p, r)
    requires forall k | 0 <= k < p :: scores[ids[k]] <= scores[id]
    requires p < |ids| ==> scores[id] <= scores[ids[p]]
    ensures Scored(scores, r) && Rising(scores, r)
  {
    assert forall k | p <= k < |ids| :: scores[id] <= scores[ids[k]];
  }

  lemma InsertAscending(scores: Scores, ids: seq<Id>, id: Id, p: nat, r: seq<Id>)
    requires Ascending(scores, ids) && id in scores && id !in ids && p <= |ids|
    requires forall k | 0 <= k < p :: scores[ids[k]] <= scores[id]
    requires p < |ids| ==> scores[id] <= scores[ids[p]]
    requires r == ids[..p] + [id] + ids[p..]
    ensures (forall x :: x in r <==> x in ids || x == id) && Ascending(scores, r)
  {
    hide Apart, Rising, Inserted;
    InsertAt(ids, id, p, r);
    InsertApart(ids, id, p, r);
    InsertRising(scores, ids, id, p, r);
  }

  method SortByScore(scores: Scores) returns (ids: seq<Id>)
    ensures forall id :: id in ids <==> id in scores
    ensures Ascending(scores, ids) && |ids| == |scores|
  {
    ids := [];
    var todo := scores.Keys;
    assert Ascending(scores, ids);
    hide Apart, Rising;
    while todo != {}
      invariant todo <= scores.Keys && |ids| + |todo| == |scores.Keys|
      invariant forall id :: id in ids <==> id in scores && id !in todo
      invariant Ascending(scores, ids)
    {
      var id :| id in todo;
      todo := todo - {id};
      var p := 0;
      while p < |ids| && scores[ids[p]] <= scores[id]
        invariant 0 <= p <= |ids| && forall k | 0 <= k < p :: scores[ids[k]] <= scores[id]
      {
        p := p + 1;
      }
      var r := ids[..p] + [id] + ids[p..];
      InsertAscending(scores, ids, id, p, r);
      ids := r;
    }
    assert |scores.Keys| == |scores|;
  }

  lemma WeakestFirst(scores: Scores, ids: seq<Id>, n: nat, a: Id, b: Id)
    requires Ascending(scores, ids) && n <= |ids|
    requires a in ids[..n] && b in ids && b !in ids[..n]
    ensures a in scores && b in scores && scores[a] <= scores[b]
  {
    var k :| 0 <= k < n && ids[k] == a;
    assert ids == ids[..n] + ids[n..];
    var l :| 0 <= l < |ids[n..]| && ids[n..][l] == b;
  }

  // ---------- what removal needs ----------

  /** Taking an ID off a list that is already empty aborts: the new list's capacity would be -1. */
  predicate StrikeSafe(index: Index, h: Hash) {
    h in index ==> index[h] != []
  }

  ghost predicate StrikesSafe(index: Index, hashes: seq<Hash>, id: Id) {
    forall i | 0 <= i < |hashes| :: StrikeSafe(Delist(index, hashes[..i], id), hashes[i])
  }

  /** No engram but id contains h. */
  ghost predicate Lone(engrams: Memory, id: Id, h: Hash) {
    forall x | x in engrams && x != id :: h !in engrams[x].hashes
  }

  /** No hash that the engram repeats is its alone. */
  ghost predicate Removable(engrams: Memory, id: Id)
    requires id in engrams
  {
    var hs := engrams[id].hashes;
    forall i | 0 <= i < |hs| && hs[i] in hs[..i] :: !Lone(engrams, id, hs[i])
  }

  ghost predicate NoRepeats(engrams: Memory) {
    forall id | id in engrams :: forall i, j | 0 <= i < j < |engrams[id].hashes| :: engrams[id].hashes[i] != engrams[id].hashes[j]
  }

  lemma DelistNothing(index: Index, id: Id)
    ensures Delist(index, [], id) == index
  {
  }

  lemma DelistOne(index: Index, hashes: seq<Hash>, i: nat, id: Id)
    requires i < |hashes|
    ensures var before := Delist(index, hashes[..i], id);
            Delist(index, hashes[..i + 1], id)
            == if hashes[i] in before then before[hashes[i] := Without(before[hashes[i]], id)] else before
  {
    assert hashes[..i + 1][..i] == hashes[..i];
  }

  lemma {:induction false} DelistKeys(index: Index, hashes: seq<Hash>, id: Id)
    ensures Delist(index, hashes, id).Keys == index.Keys
  {
    if hashes != [] {
      DelistKeys(index, hashes[..|hashes| - 1], id);
    }
  }

  lemma ListedBy(engrams: Memory, index: Index, h: Hash, x: Id)
    requires Agrees(engrams, index)
    ensures x in Listed(index, h) <==> x in engrams && h in engrams[x].hashes
  {
    assert AgreesAt(engrams, index, h, x);
    assert x in Listed(index, h) <==> multiset(Listed(index, h))[x] > 0;
    if x in engrams {
      assert h in engrams[x].hashes <==> multiset(engrams[x].hashes)[h] > 0;
    }
  }

  lemma StrikeSafeIff(engrams: Memory, index: Index, id: Id, i: nat)
    requires Agrees(engrams, index) && id in engrams && i < |engrams[id].hashes|
    ensures var hs := engrams[id].hashes;
            StrikeSafe(Delist(index, hs[..i], id), hs[i]) <==> !(hs[i] in hs[..i] && Lone(engrams, id, hs[i]))
  {
    var hs := engrams[id].hashes;
    var h := hs[i];
    var now := Delist(index, hs[..i], id);
    hide Delist, Agrees;
    DelistKeys(index, hs[..i], id);
    ListedBy(engrams, index, h, id);
    assert h in index && h in now;
    if h !in hs[..i] {
      DelistCount(index, hs[..i], id, h, id);
      StillThere(index, now, h, id);
    } else if x :| x in engrams && x != id && h in engrams[x].hashes {
      ListedBy(engrams, index, h, x);
      DelistCount(index, hs[..i], id, h, x);
      StillThere(index, now, h, x);
    } else if now[h] != [] {
      var x := now[h][0];
      DelistCount(index, hs[..i], id, h, x);
      StillThere(now, index, h, x);
      ListedBy(engrams, index, h, x);
    }
  }

  /** An engram can be taken off the index without aborting exactly if it is removable. */
  lemma StrikesSafeIff(engrams: Memory, index: Index, id: Id)
    requires Agrees(engrams, index) && id in engrams
    ensures StrikesSafe(index, engrams[id].hashes, id) <==> Removable(engrams, id)
  {
    hide Agrees, Lone, StrikeSafe, Delist;
    var hs := engrams[id].hashes;
    forall i | 0 <= i < |hs|
      ensures StrikeSafe(Delist(index, hs[..i], id), hs[i]) <==> !(hs[i] in hs[..i] && Lone(engrams, id, hs[i]))
    {
      StrikeSafeIff(engrams, index, id, i);
    }
  }

  /** Removing more of the others never makes an engram removable. */
  lemma RemovableLess(m: Memory, a: set<Id>, b: set<Id>, id: Id)
    requires a <= b && id in m - b && Removable(m - b, id)
    ensures id in m - a && Removable(m - a, id)
  {
    var hs := m[id].hashes;
    forall i | 0 <= i < |hs| && hs[i] in hs[..i] ensures !Lone(m - a, id, hs[i]) {
      assert !Lone(m - b, id, hs[i]);
      var x :| x in m - b && x != id && hs[i] in (m - b)[x].hashes;
      assert x in m - a && hs[i] in (m - a)[x].hashes;
    }
  }

  /** Removing the first n of a list, one after the other, does not abort. */
  ghost predicate OrderSafe(m: Memory, ids: seq<Id>, n: nat)
    requires n <= |ids|
  {
    forall k | 0 <= k < n :: ids[k] in m - Taken(ids, k) ==> Removable(m - Taken(ids, k), ids[k])
  }

  ghost predicate Lists(ids: seq<Id>, all: set<Id>) {
    Apart(ids) && forall x :: x in ids <==> x in all
  }

  /** Removing a set of engrams aborts in no order exactly if each of them is removable last. */
  ghost predicate SafeInAnyOrder(m: Memory, all: set<Id>) {
    forall id | id in all && id in m :: Removable(m - (all - {id}), id)
  }

  lemma SafeOrder(m: Memory, all: set<Id>, ids: seq<Id>)
    requires SafeInAnyOrder(m, all) && Lists(ids, all)
    ensures OrderSafe(m, ids, |ids|)
  {
    forall k | 0 <= k < |ids| && ids[k] in m - Taken(ids, k) ensures Removable(m - Taken(ids, k), ids[k]) {
      assert ids[k] in ids;
      forall x | x in Taken(ids, k) ensures x in all - {ids[k]} {
        var j :| 0 <= j < k && ids[..k][j] == x;
        assert ids[j] == x;
      }
      RemovableLess(m, Taken(ids, k), all - {ids[k]}, ids[k]);
    }
  }

  lemma {:induction false} SomeOrder(all: set<Id>) returns (ids: seq<Id>)
    ensures Lists(ids, all)
  {
    ids := [];
    if x :| x in all {
      ids := SomeOrder(all - {x});
      ids := ids + [x];
    }
  }

  lemma AnyOrderSafeIff(m: Memory, all: set<Id>)
    ensures (forall ids | Lists(ids, all) :: OrderSafe(m, ids, |ids|)) <==> SafeInAnyOrder(m, all)
  {
    hide OrderSafe, Removable;
    if SafeInAnyOrder(m, all) {
      forall ids | Lists(ids, all) ensures OrderSafe(m, ids, |ids|) {
        SafeOrder(m, all, ids);
      }
    } else {
      var id :| id in all && id in m && !Removable(m - (all - {id}), id);
      var ids := SomeOrder(all - {id});
      UnsafeLast(m, all, ids, id);
    }
  }

  lemma UnsafeLast(m: Memory, all: set<Id>, ids: seq<Id>, id: Id)
    requires Lists(ids, all - {id}) && id in all && id in m && !Removable(m - (all - {id}), id)
    ensures Lists(ids + [id], all) && !OrderSafe(m, ids + [id], |ids| + 1)
  {
    var order := ids + [id];
    assert order[..|ids|] == ids;
    assert Taken(order, |ids|) == all - {id};
    assert order[|ids|] == id && id in m - Taken(order, |ids|);
  }

  /** With no concept repeated inside an engram, removals never abort. */
  lemma NoRepeatsSafe(m: Memory, all: set<Id>)
    requires NoRepeats(m)
    ensures SafeInAnyOrder(m, all)
  {
    hide Lone;
  }

  /** The smallest memory whose only engram cannot be removed. */
  lemma RepeatedConceptAborts(id: Id, e: Engram)
    requires |e.hashes| == 2 && e.hashes[0] == e.hashes[1]
    ensures !Removable(map[id := e], id)
  {
    assert e.hashes[1] in e.hashes[..1] && Lone(map[id := e], id, e.hashes[1]);
  }

  lemma StillThere(a: Index, b: Index, h: Hash, x: Id)
    requires x in Listed(a, h) && multiset(Listed(b, h))[x] == multiset(Listed(a, h))[x]
    ensures x in Listed(b, h) && Listed(b, h) != []
  {
    assert x in multiset(Listed(a, h));
    assert x in multiset(Listed(b, h));
  }

  class EngramMemory {
    var engrams: Memory
    var index: Index
    var totalEngrams: int
    var totalActivations: int
    const maxEngrams: int
    const minConceptsMatch: int
    const idOf: seq<string> -> Id
    const hashOf: string -> Hash

    ghost predicate Consistent()
      reads this
    {
      Agrees(engrams, index) && totalEngrams == |engrams|
    }

    ghost predicate Valid()
      reads this
    {
      Consistent() && |engrams| <= Max(0, maxEngrams) && Hashed(engrams, hashOf)
    }

    constructor (maxEngrams: int, minConceptsMatch: int, idOf: seq<string> -> Id, hashOf: string -> Hash)
      ensures Valid() && engrams == map[] && this.maxEngrams == maxEngrams && this.minConceptsMatch == minConceptsMatch
      ensures this.idOf == idOf && this.hashOf == hashOf
    {
      engrams, index, totalEngrams, totalActivations := map[], map[], 0, 0;
      this.maxEngrams, this.minConceptsMatch, this.idOf, this.hashOf := maxEngrams, minConceptsMatch, idOf, hashOf;
      new;
      forall h, id ensures AgreesAt(engrams, index, h, id) {}
    }

    /** Takes an engram out of the memory and the index; not ok means that the call aborted. */
    method RemoveEngram(id: Id) returns (ok: bool)
      requires Consistent()
      modifies this`engrams, this`index, this`totalEngrams
      ensures ok <==> id !in old(engrams) || Removable(old(engrams), id)
      ensures ok ==> Consistent() && engrams == old(engrams) - {id}
    {
      if id !in engrams {
        assert engrams - {id} == engrams;
        return true;
      }
      var hashes := engrams[id].hashes;
      StrikesSafeIff(engrams, index, id);
      RemoveKeepsAgreement(engrams, index, id);
      KeysLeft(engrams, {id});
      hide Agrees, StrikesSafe, Removable;
      ok := StrikeFrom(hashes, id);
      if !ok { return; }
      engrams := engrams - {id};
      totalEngrams := totalEngrams - 1;
    }

    method StrikeFrom(hashes: seq<Hash>, id: Id) returns (ok: bool)
      modifies this`index
      ensures ok <==> StrikesSafe(old(index), hashes, id)
      ensures ok ==> index == Delist(old(index), hashes, id)
    {
      hide Delist, Without;
      ghost var was := index;
      DelistNothing(was, id);
      for i := 0 to |hashes|
        invariant index == Delist(was, hashes[..i], id)
        invariant forall j | 0 <= j < i :: StrikeSafe(Delist(was, hashes[..j], id), hashes[j])
      {
        DelistOne(was, hashes, i, id);
        if hashes[i] in index {
          if |index[hashes[i]]| == 0 { return false; }
          index := index[hashes[i] := Without(index[hashes[i]], id)];
        }
      }
      assert hashes[..|hashes|] == hashes;
      ok := true;
    }

    /** Removes a tenth of the engrams, at least one, and never a stronger one than it keeps. Which
        order equal scores come in is open; the removals abort exactly if that order makes one abort. */
    method PruneWeakest(score: Score) returns (ok: bool, ghost order: seq<Id>, ghost count: nat)
      requires Consistent()
      modifies this`engrams, this`index, this`totalEngrams
      ensures Lists(order, old(engrams).Keys) && count == Min(|order|, Max(1, |order| / 10)) && |order| == |old(engrams)|
      ensures ok <==> OrderSafe(old(engrams), order, count)
      ensures ok ==> Consistent() && engrams == old(engrams) - Taken(order, count) && |Taken(order, count)| == count
      ensures WeakestTaken(old(engrams), score, Taken(order, count))
    {
      var scores := map id | id in engrams :: score(id, engrams[id]);
      SameKeysSize(engrams, scores);
      var ids := SortByScore(scores);
      order := ids;
      var toRemove := Max(1, |ids| / 10);
      var last := Min(|ids|, toRemove);
      count := last;
      TakenCount(scores, ids, last);
      FirstAreWeakest(engrams, score, scores, ids, last);
      hide *;
      ok := RemoveInOrder(ids, last);
    }

    method RemoveInOrder(ids: seq<Id>, n: nat) returns (ok: bool)
      requires Consistent() && n <= |ids|
      modifies this`engrams, this`index, this`totalEngrams
      ensures ok <==> OrderSafe(old(engrams), ids, n)
      ensures ok ==> Consistent() && engrams == old(engrams) - Taken(ids, n)
    {
      hide Consistent, Taken, Removable;
      ghost var m := engrams;
      NoneTaken(m, ids);
      for i := 0 to n
        invariant Consistent() && engrams == m - Taken(ids, i) && OrderSafe(m, ids, i)
      {
        ok := RemoveEngram(ids[i]);
        if !ok { return; }
        OneMoreTaken(m, ids, i);
      }
      ok := true;
    }

    /** Strengthens the engram of these concepts, or creates and indexes it; when the memory then
        exceeds its bound, the weakest are pruned, which may include the new one. A new engram that
        is kept answers to each of its concepts, and in full to all of them. */
    method Store(concepts: seq<string>, score: Score) returns (ok: bool, stored: bool, ghost order: seq<Id>, ghost count: nat)
      requires Valid()
      modifies this
      ensures var all := old(engrams)[idOf(concepts) := NewEngram(concepts, hashOf)];
              if |concepts| < 2 || idOf(concepts) in old(engrams) || |all| <= maxEngrams then ok
              else Lists(order, all.Keys) && count == Min(|order|, Max(1, |order| / 10)) && (ok <==> OrderSafe(all, order, count))
      ensures ok ==> Valid() && stored == (|concepts| >= 2)
      ensures ok && !stored ==> engrams == old(engrams) && index == old(index) && totalActivations == old(totalActivations)
      ensures ok && stored ==> totalActivations == old(totalActivations) + 1
      ensures ok && stored && idOf(concepts) in old(engrams) ==>
                && engrams.Keys == old(engrams).Keys && index == old(index)
                && (forall id | id in engrams && id != idOf(concepts) :: engrams[id] == old(engrams)[id])
                && var e, e' := old(engrams)[idOf(concepts)], engrams[idOf(concepts)];
                   && e'.concepts == e.concepts && e'.hashes == e.hashes && e'.activations == e.activations + 1
                   && e'.strength == (if e.strength > 0.9 then 1.0 else e.strength + 0.1)
                   && e'.resonance == (if e.resonance > 0.95 then 1.0 else e.resonance + 0.05)
      ensures ok && stored && idOf(concepts) !in old(engrams) ==>
                var all := old(engrams)[idOf(concepts) := NewEngram(concepts, hashOf)];
                if |all| <= maxEngrams then engrams == all
                else && count <= |order| && engrams == all - Taken(order, count) && engrams.Keys < all.Keys
                     && forall a, b | a in all && a !in engrams && b in engrams :: score(a, all[a]) <= score(b, all[b])
      ensures ok && stored && idOf(concepts) !in old(engrams) && idOf(concepts) in engrams ==>
                && (forall c | c in concepts :: Matches(engrams, idOf(concepts), {hashOf(c)}) > 0)
                && Matches(engrams, idOf(concepts), set c | c in concepts :: hashOf(c)) == |concepts|
    {
      hide Agrees, OrderSafe, Taken, Lists, Hashed, NewEngram;
      ok, stored, order, count := true, false, [], 0;
      if |concepts| < 2 { return; }
      stored := true;
      var id := idOf(concepts);
      if id in engrams {
        ReinforcedTerms(engrams, id, hashOf);
        TouchKeepsAgreement(engrams, index, id, Reinforced(engrams[id]));
        Resize(engrams, id, Reinforced(engrams[id]));
        engrams := engrams[id := Reinforced(engrams[id])];
      } else {
        NewEngramTerms(concepts, hashOf);
        ok, order, count := Create(id, NewEngram(concepts, hashOf), score);
        if !ok { return; }
      }
      totalActivations := totalActivations + 1;
    }

    /** Adds an engram under a new identifier and prunes if the memory has outgrown its bound. */
    method Create(id: Id, e: Engram, score: Score) returns (ok: bool, ghost order: seq<Id>, ghost count: nat)
      requires Valid() && id !in engrams && HashedOne(e, hashOf)
      modifies this`engrams, this`index, this`totalEngrams
      ensures var all := old(engrams)[id := e];
              if |all| <= maxEngrams then ok
              else Lists(order, all.Keys) && count == Min(|order|, Max(1, |order| / 10)) && (ok <==> OrderSafe(all, order, count))
      ensures ok ==> Valid()
      ensures ok ==>
                var all := old(engrams)[id := e];
                if |all| <= maxEngrams then engrams == all
                else && count <= |order| && engrams == all - Taken(order, count) && engrams.Keys < all.Keys
                     && forall a, b | a in all && a !in engrams && b in engrams :: score(a, all[a]) <= score(b, all[b])
    {
      hide Agrees, OrderSafe, Taken, Lists, HashedOne, WeakestTaken;
      ok, order, count := true, [], 0;
      AddKeepsAgreement(engrams, index, id, e);
      Resize(engrams, id, e);
      ghost var all := engrams[id := e];
      assert Hashed(all, hashOf);
      engrams := engrams[id := e];
      totalEngrams := totalEngrams + 1;
      ListUnder(e.hashes, id);
      if |engrams| > maxEngrams {
        ok, order, count := PruneWeakest(score);
        if !ok { return; }
        TakenStored(all, order, count);
        KeysLeft(all, Taken(order, count));
        KeptScores(all, order, count, score);
      }
    }

    method ListUnder(hashes: seq<Hash>, id: Id)
      modifies this`index
      ensures index == Enlist(old(index), hashes, id)
    {
      ghost var was := index;
      for i := 0 to |hashes|
        invariant index == Enlist(was, hashes[..i], id)
      {
        assert hashes[..i + 1][..i] == hashes[..i];
        index := index[hashes[i] := Listed(index, hashes[i]) + [id]];
      }
      assert hashes[..|hashes|] == hashes;
    }

    /** The engrams with enough matches and a score above 0.1, best first, each with its number of
        matches. The lookup of a candidate never misses, because only stored engrams are listed. */
    method Resonate(concepts: seq<string>, score: (Id, nat) -> real) returns (ids: seq<Id>, counts: map<Id, nat>)
      requires Valid()
      ensures var input := set c | c in concepts :: hashOf(c);
              forall id :: id in ids <==>
                && id in engrams && Scan(engrams[id].hashes, input) >= 1 && Scan(engrams[id].hashes, input) >= minConceptsMatch
                && score(id, Scan(engrams[id].hashes, input)) > 0.1
      ensures forall id :: id in ids <==> id in counts
      ensures var input := set c | c in concepts :: hashOf(c);
              forall id | id in counts :: id in engrams && counts[id] == Scan(engrams[id].hashes, input)
      ensures forall i, j | 0 <= i < j < |ids| ::
                ids[i] != ids[j] && ids[i] in counts && ids[j] in counts && score(ids[i], counts[ids[i]]) >= score(ids[j], counts[ids[j]])
    {
      var input := HashSet(concepts, hashOf);
      var candidates := CountMatches(engrams, index, input);
      counts := map id | id in candidates && candidates[id] >= minConceptsMatch && score(id, candidates[id]) > 0.1 :: candidates[id];
      forall id ensures id in counts <==>
          && id in engrams && Matches(engrams, id, input) >= Max(1, minConceptsMatch) && score(id, Matches(engrams, id, input)) > 0.1
      {
        assert CountOf(candidates, id) == Matches(engrams, id, input);
      }
      ids := BestFirst(counts, score);
    }

    method BestFirst(counts: map<Id, nat>, score: (Id, nat) -> real) returns (ids: seq<Id>)
      ensures forall id :: id in ids <==> id in counts
      ensures forall i, j | 0 <= i < j < |ids| ::
                ids[i] != ids[j] && ids[i] in counts && ids[j] in counts && score(ids[i], counts[ids[i]]) >= score(ids[j], counts[ids[j]])
    {
      var negated := map id | id in counts :: -score(id, counts[id]);
      ids := SortByScore(negated);
      forall i, j | 0 <= i < j < |ids|
        ensures ids[i] != ids[j] && ids[i] in counts && ids[j] in counts && score(ids[i], counts[ids[i]]) >= score(ids[j], counts[ids[j]])
      {
        assert ids[i] in ids && ids[j] in ids;
        assert negated[ids[i]] <= negated[ids[j]];
      }
    }

    /** Fades every engram and removes exactly those that fall below the minimum strength, in the order
        in which they come up; that aborts exactly if the order makes one of the removals abort, and in
        no order if each of them would be removable last. */
    method Decay(fade: Fade, minStrength: real) returns (ok: bool, pruned: nat, ghost order: seq<Id>)
      requires Valid()
      modifies this`engrams, this`index, this`totalEngrams
      ensures var faded := FadedAll(old(engrams), fade);
              && Lists(order, Weak(faded, minStrength)) && (ok <==> OrderSafe(faded, order, |order|))
              && (SafeInAnyOrder(faded, Weak(faded, minStrength)) ==> ok)
              && (ok ==> Valid() && engrams == Above(faded, minStrength) && pruned == |old(engrams)| - |engrams|)
      ensures ok ==> forall id :: id in engrams <==> id in old(engrams) && fade(id, old(engrams)[id]).0 >= minStrength
      ensures ok ==> forall id | id in engrams ::
                && engrams[id].strength == fade(id, old(engrams)[id]).0 && engrams[id].resonance == fade(id, old(engrams)[id]).1
                && engrams[id].concepts == old(engrams)[id].concepts && engrams[id].hashes == old(engrams)[id].hashes
                && engrams[id].activations == old(engrams)[id].activations
    {
      var faded := FadedAll(engrams, fade);
      FadeKeepsAgreement(engrams, index, fade);
      FadeKeepsSize(engrams, fade);
      ghost var was := engrams;
      engrams := faded;
      hide Agrees, Hashed, FadedAll, Above, Weak, OrderSafe, SafeInAnyOrder, Lists, Taken;
      var toDelete := CollectWeak(faded, minStrength);
      order := toDelete;
      if SafeInAnyOrder(faded, Weak(faded, minStrength)) { SafeOrder(faded, Weak(faded, minStrength), order); }
      DecayLeaves(faded, order, minStrength);
      ok := RemoveInOrder(toDelete, |toDelete|);
      pruned := |toDelete|;
      FadedTerms(was, fade, minStrength);
      FadedHashed(was, fade, minStrength, hashOf);
    }
  }

  /** The engrams below the minimum strength. */
  ghost function Weak(m: Memory, minStrength: real): set<Id> {
    set id | id in m && m[id].strength < minStrength
  }

  method CollectWeak(m: Memory, minStrength: real) returns (ids: seq<Id>)
    ensures Lists(ids, Weak(m, minStrength))
  {
    ids := [];
    var todo := m.Keys;
    while todo != {}
      invariant todo <= m.Keys && Lists(ids, Weak(m, minStrength) - todo)
    {
      var id :| id in todo;
      todo := todo - {id};
      if m[id].strength < minStrength { ids := ids + [id]; }
    }
  }

  lemma DecayLeaves(m: Memory, ids: seq<Id>, minStrength: real)
    requires Lists(ids, Weak(m, minStrength))
    ensures m - Taken(ids, |ids|) == Above(m, minStrength) && |m| == |ids| + |Above(m, minStrength)|
  {
    assert ids[..|ids|] == ids;
    ListsCount(ids, Weak(m, minStrength));
    assert Taken(ids, |ids|) == Weak(m, minStrength);
    KeysLeft(m, Weak(m, minStrength));
    assert m - Weak(m, minStrength) == Above(m, minStrength);
  }

  lemma {:induction false} ListsCount(ids: seq<Id>, all: set<Id>)
    requires Lists(ids, all)
    ensures |all| == |ids|
    decreases |ids|
  {
    if ids == [] {
      assert all == {};
    } else {
      var n := |ids| - 1;
      assert ids == ids[..n] + [ids[n]];
      ListsCount(ids[..n], all - {ids[n]});
    }
  }

  /** No engram taken scores more than one that is not. */
  ghost predicate WeakestTaken(m: Memory, score: Score, taken: set<Id>) {
    forall a, b | a in taken && b in m && b !in taken :: a in m && score(a, m[a]) <= score(b, m[b])
  }

  lemma FirstAreWeakest(m: Memory, score: Score, scores: Scores, ids: seq<Id>, n: nat)
    requires scores == map id | id in m :: score(id, m[id])
    requires Ascending(scores, ids) && n <= |ids| && forall id :: id in ids <==> id in scores
    ensures WeakestTaken(m, score, Taken(ids, n))
  {
    hide Ascending;
    forall a, b | a in Taken(ids, n) && b in m && b !in Taken(ids, n) ensures a in m && score(a, m[a]) <= score(b, m[b]) {
      WeakestFirst(scores, ids, n, a, b);
    }
  }

  lemma KeptScores(m: Memory, ids: seq<Id>, n: nat, score: Score)
    requires n <= |ids| && WeakestTaken(m, score, Taken(ids, n))
    ensures forall a, b | a in m && a !in m - Taken(ids, n) && b in m - Taken(ids, n) :: score(a, m[a]) <= score(b, m[b])
  {
  }

  lemma TakenStored(m: Memory, ids: seq<Id>, n: nat)
    requires Lists(ids, m.Keys) && n <= |ids|
    ensures Taken(ids, n) <= m.Keys
  {
  }

  /** The first n of a list. */
  ghost function Taken(ids: seq<Id>, n: nat): set<Id>
    requires n <= |ids|
  {
    set x | x in ids[..n]
  }

  lemma NoneTaken(m: Memory, ids: seq<Id>)
    ensures m - Taken(ids, 0) == m
  {
  }

  lemma OneMoreTaken(m: Memory, ids: seq<Id>, i: nat)
    requires i < |ids|
    ensures m - Taken(ids, i) - {ids[i]} == m - Taken(ids, i + 1)
  {
    assert ids[..i + 1] == ids[..i] + [ids[i]];
    assert Taken(ids, i + 1) == Taken(ids, i) + {ids[i]};
  }

  lemma {:induction false} TakenCount(scores: Scores, ids: seq<Id>, n: nat)
    requires Ascending(scores, ids) && n <= |ids|
    ensures |Taken(ids, n)| == n
    decreases n
  {
    if n > 0 {
      TakenCount(scores, ids, n - 1);
      assert ids[..n] == ids[..n - 1] + [ids[n - 1]];
      assert Taken(ids, n) == Taken(ids, n - 1) + {ids[n - 1]};
    }
  }

  lemma SameKeysSize(m: Memory, scores: Scores)
    requires m.Keys == scores.Keys
    ensures |m| == |scores|
  {
    assert |m| == |m.Keys| && |scores| == |scores.Keys|;
  }

  function NewEngram(concepts: seq<string>, hashOf: string -> Hash): Engram {
    Engram(concepts, seq(|concepts|, i requires 0 <= i < |concepts| => hashOf(concepts[i])), 0.3, 0.5, 1)
  }

  /** A new engram holds its concepts and their hashes, starts at strength 0.3 and resonance 0.5 with
      one activation, and answers to each of its concepts. */
  lemma NewEngramTerms(concepts: seq<string>, hashOf: string -> Hash)
    ensures var e := NewEngram(concepts, hashOf);
            && e.concepts == concepts && |e.hashes| == |concepts| && HashedOne(e, hashOf)
            && (forall i | 0 <= i < |concepts| :: e.hashes[i] == hashOf(concepts[i]))
            && e.strength == 0.3 && e.resonance == 0.5 && e.activations == 1
            && (forall c | c in concepts :: Scan(e.hashes, {hashOf(c)}) > 0)
            && Scan(e.hashes, set c | c in concepts :: hashOf(c)) == |concepts|
  {
    var e := NewEngram(concepts, hashOf);
    forall c | c in concepts ensures Scan(e.hashes, {hashOf(c)}) > 0 {
      OwnConceptsMatch(e, hashOf, [c]);
      assert HashSet([c], hashOf) == {hashOf(c)} by {
        assert c in [c];
      }
    }
    OwnConceptsMatch(e, hashOf, concepts);
    assert HashSet(concepts, hashOf) == set c | c in concepts :: hashOf(c);
  }

  function Capped(x: real): real {
    if x > 1.0 then 1.0 else x
  }

  function Reinforced(e: Engram): Engram {
    e.(strength := Capped(e.strength + 0.1), resonance := Capped(e.resonance + 0.05), activations := e.activations + 1)
  }

  /** Another use: strength and resonance rise by 0.1 and 0.05 up to 1, one activation more. */
  lemma ReinforcedTerms(m: Memory, id: Id, hashOf: string -> Hash)
    requires id in m
    ensures var e, e' := m[id], Reinforced(m[id]);
            && e'.concepts == e.concepts && e'.hashes == e.hashes && e'.activations == e.activations + 1
            && e'.strength == (if e.strength > 0.9 then 1.0 else e.strength + 0.1)
            && e'.resonance == (if e.resonance > 0.95 then 1.0 else e.resonance + 0.05)
    ensures Hashed(m, hashOf) ==> Hashed(m[id := Reinforced(m[id])], hashOf)
  {
  }

  /** The new strength and resonance of an engram, which depend on the time since its last use. */
  type Fade = (Id, Engram) -> (real, real)

  function FadedAll(engrams: Memory, fade: Fade): Memory {
    map id | id in engrams :: engrams[id].(strength := fade(id, engrams[id]).0, resonance := fade(id, engrams[id]).1)
  }

  function Above(engrams: Memory, minStrength: real): Memory {
    map id | id in engrams && engrams[id].strength >= minStrength :: engrams[id]
  }

  function HashSet(concepts: seq<string>, hashOf: string -> Hash): set<Hash> {
    set c | c in concepts :: hashOf(c)
  }

  /** What a decay leaves: the engrams whose faded strength reaches the minimum, all else as before. */
  lemma FadedTerms(engrams: Memory, fade: Fade, minStrength: real)
    ensures var left := Above(FadedAll(engrams, fade), minStrength);
            && (forall id :: id in left <==> id in engrams && fade(id, engrams[id]).0 >= minStrength)
            && forall id | id in left ::
                 && left[id].strength == fade(id, engrams[id]).0 && left[id].resonance == fade(id, engrams[id]).1
                 && left[id].concepts == engrams[id].concepts && left[id].hashes == engrams[id].hashes
                 && left[id].activations == engrams[id].activations
  {
  }

  lemma FadedHashed(engrams: Memory, fade: Fade, minStrength: real, hashOf: string -> Hash)
    requires Hashed(engrams, hashOf)
    ensures Hashed(Above(FadedAll(engrams, fade), minStrength), hashOf)
  {
  }

  lemma FadeKeepsAgreement(engrams: Memory, index: Index, fade: Fade)
    requires Agrees(engrams, index)
    ensures Agrees(FadedAll(engrams, fade), index)
  {
    var m := FadedAll(engrams, fade);
    forall h, x ensures AgreesAt(m, index, h, x) {
      assert AgreesAt(engrams, index, h, x);
    }
  }

  lemma FadeKeepsSize(engrams: Memory, fade: Fade)
    ensures |FadedAll(engrams, fade)| == |engrams| && (NoRepeats(engrams) ==> NoRepeats(FadedAll(engrams, fade)))
  {
    var m := FadedAll(engrams, fade);
    assert m.Keys == engrams.Keys && |engrams| == |engrams.Keys| && |m| == |m.Keys|;
  }

  lemma Resize(engrams: Memory, id: Id, e: Engram)
    ensures |engrams[id := e]| == |engrams| + if id in engrams then 0 else 1
  {
    var m := engrams[id := e];
    assert |m| == |m.Keys| && |engrams| == |engrams.Keys| && m.Keys == engrams.Keys + {id};
  }

  lemma KeysLeft(all: Memory, gone: set<Id>)
    requires gone <= all.Keys
    ensures |all - gone| == |all| - |gone|
    ensures gone != {} ==> (all - gone).Keys < all.Keys
  {
    var left := all - gone;
    assert left.Keys == all.Keys - gone;
    assert |left| == |left.Keys| && |all| == |all.Keys|;
    if x :| x in gone {
      assert x in all.Keys && x !in left.Keys;
    }
  }
}
