/**
 The expiry sweep of OpportunityQueue.removeExpired: the slots of expired items are collected first
 and then emptied from the highest slot down with heap.Remove. Emptying one slot can move the item
 of another collected slot, so the sweep may take a live item in place of an expired one. This
 module says how many items go, and exactly when they are the collected ones.
 */
module ExpirySweep {
  import opened PriorityHeap

  ghost predicate Slots(idx: seq<nat>, n: nat) {
    && (forall k | 0 <= k < |idx| :: idx[k] < n)
    && (forall j, k | 0 <= j < k < |idx| :: idx[j] < idx[k])
  }

  predicate Expired(x: Opp, now: int) {
    now > x.expiresAt
  }

  /** The collected slots, in increasing order. */
  function ExpiredSlots(s: seq<Opp>, now: int): (idx: seq<nat>)
    ensures Slots(idx, |s|)
    ensures forall k | 0 <= k < |s| :: k in idx <==> Expired(s[k], now)
  {
    if s == [] then []
    else
      var n := |s| - 1;
      assert forall k | 0 <= k < n :: s[..n][k] == s[k];
      ExpiredSlots(s[..n], now) + if Expired(s[n], now) then [n] else []
  }

  /** A collected slot is still inside the heap when its turn comes, however many slots above it
      have been emptied. */
  lemma {:induction false} SlotBound(idx: seq<nat>, n: nat, k: nat)
    requires Slots(idx, n) && k < |idx|
    ensures idx[k] + (|idx| - 1 - k) < n
    decreases |idx| - k
  {
    if k + 1 < |idx| {
      SlotBound(idx, n, k + 1);
    }
  }

  /** The heap after emptying the slots from the last to the first. */
  function Sweep(s: seq<Opp>, idx: seq<nat>): (r: seq<Opp>)
    requires Slots(idx, |s|)
    ensures |r| == |s| - |idx|
    decreases |idx|
  {
    if idx == [] then s
    else
      var m := |idx| - 1;
      Sweep(RemoveAt(s, idx[m]), idx[..m])
  }

  /** What those removals take out, listed against idx. */
  function Swept(s: seq<Opp>, idx: seq<nat>): (r: seq<Opp>)
    requires Slots(idx, |s|)
    ensures |r| == |idx|
    decreases |idx|
  {
    if idx == [] then []
    else
      var m := |idx| - 1;
      Swept(RemoveAt(s, idx[m]), idx[..m]) + [s[idx[m]]]
  }

  function Collected(s: seq<Opp>, idx: seq<nat>): (r: seq<Opp>)
    requires Slots(idx, |s|)
  {
    seq(|idx|, k requires 0 <= k < |idx| => s[idx[k]])
  }

  /** The sweep keeps the heap, and loses nothing but what it takes out. */
  lemma {:induction false} SweepKeepsHeap(s: seq<Opp>, idx: seq<nat>)
    requires Slots(idx, |s|) && Heap(s)
    ensures Heap(Sweep(s, idx))
    ensures multiset(Sweep(s, idx)) + multiset(Swept(s, idx)) == multiset(s)
    decreases |idx|
  {
    if idx != [] {
      var m := |idx| - 1;
      RemoveAtKeepsHeap(s, idx[m]);
      SweepKeepsHeap(RemoveAt(s, idx[m]), idx[..m]);
      TakenBack(s, s[idx[m]], Sweep(s, idx), Swept(RemoveAt(s, idx[m]), idx[..m]));
    }
  }

  lemma TakenBack(s: seq<Opp>, x: Opp, kept: seq<Opp>, taken: seq<Opp>)
    requires x in s && multiset(kept) + multiset(taken) == multiset(s) - multiset{x}
    ensures multiset(kept) + multiset(taken + [x]) == multiset(s)
  {
    assert x in multiset(s);
    assert multiset(s) - multiset{x} + multiset{x} == multiset(s);
    assert multiset(taken + [x]) == multiset(taken) + multiset{x};
  }

  // ---------- which slots a removal disturbs ----------

  /** Slot a is a proper ancestor of slot k. */
  predicate Above(a: nat, k: nat) {
    k > 0 && (Parent(k) == a || Above(a, Parent(k)))
  }

  lemma {:induction false} AboveIsSmaller(a: nat, k: nat)
    requires Above(a, k)
    ensures a < k
  {
    if Parent(k) != a { AboveIsSmaller(a, Parent(k)); }
  }

  lemma {:induction false} AboveTrans(a: nat, b: nat, k: nat)
    requires Above(a, b) && Above(b, k)
    ensures Above(a, k)
  {
    if Parent(k) != b { AboveTrans(a, b, Parent(k)); }
  }

  /** The ancestors of a slot form a chain. */
  lemma {:induction false} AboveChain(a: nat, b: nat, k: nat)
    requires Above(a, k) && Above(b, k) && a < b
    ensures Above(a, b)
  {
    var p := Parent(k);
    if a == p {
      AboveIsSmaller(b, p);
    } else if b != p {
      AboveChain(a, b, p);
    }
  }

  /** The order is total up to ties. */
  lemma LessWeak(x: Opp, y: Opp, z: Opp)
    requires Less(x, z)
    ensures Less(x, y) || Less(y, z)
  {
  }

  lemma LessTrans(x: Opp, y: Opp, z: Opp)
    requires Less(x, y) && Less(y, z)
    ensures Less(x, z)
  {
  }

  lemma {:induction false} HeapPathBest(s: seq<Opp>, b: nat, a: nat)
    requires Heap(s) && b < |s| && Above(a, b) && a < b
    ensures !Less(s[b], s[a])
    decreases b
  {
    hide Less;
    assert InOrder(s, b);
    if Parent(b) != a {
      AboveIsSmaller(a, Parent(b));
      HeapPathBest(s, Parent(b), a);
      if Less(s[b], s[a]) { LessWeak(s[b], s[Parent(b)], s[a]); }
    }
  }

  /** The parent of j does not precede any slot above j. */
  lemma {:induction false} PathBest(s: seq<Opp>, n: nat, j: nat, b: nat, a: nat)
    requires j < n <= |s| && HeapButAbove(s, j, n) && b < j && (a == b || Above(a, b)) && a <= b
    ensures !Less(s[b], s[a])
    decreases b
  {
    if a != b {
      assert InOrder(s, b);
      if Parent(b) != a { AboveIsSmaller(a, Parent(b)); }
      PathBest(s, n, j, Parent(b), a);
    }
  }

  /** Exactly what a sift-up from j does to slot a: the slots above j whose items the risen one
      precedes each receive their parent's item, and the topmost of them receives the risen one. */
  lemma {:induction false} UpExact(s: seq<Opp>, j: nat, n: nat, a: nat)
    requires a <= j < n <= |s| && HeapButAbove(s, j, n)
    ensures var r := Up(s, j);
            var moved := if a == j then j > 0 && Less(s[j], s[Parent(j)]) else Above(a, j) && Less(s[j], s[a]);
            r[a] == if !moved then s[a] else if a > 0 && Less(s[j], s[Parent(a)]) then s[Parent(a)] else s[j]
    decreases j
  {
    if j == 0 || !Less(s[j], s[Parent(j)]) {
      if a < j && Above(a, j) {
        if Parent(j) != a { AboveIsSmaller(a, Parent(j)); }
        PathBest(s, n, j, Parent(j), a);
      }
    } else {
      var p := Parent(j);
      var t := Swap(s, p, j);
      UpStep(s, j, n);
      if a <= p {
        UpExact(t, p, n, a);
      } else {
        UpKeepsTail(t, p, a);
        if Above(a, j) { AboveIsSmaller(a, p); }
      }
    }
  }

  /** A sift-down shuffles the slots from i on among themselves. */
  lemma {:induction false} DownOrigin(s: seq<Opp>, i: nat, n: nat, b: nat) returns (c: nat)
    requires i <= b < n <= |s|
    ensures i <= c < n && Down(s, i, n)[b] == s[c]
    decreases n - i
  {
    c := b;
    if Moves(s, i, n) {
      var k := Child(s, i, n);
      if b >= k { c := DownOrigin(Swap(s, i, k), k, n, b); }
      c := if c == i then k else if c == k then i else c;
    }
  }

  /** Emptying slot i lifts the last item over the item of slot p. */
  predicate Disturbs(s: seq<Opp>, i: nat, p: nat)
    requires p < |s| && i < |s|
  {
    i < |s| - 1 && Above(p, i) && Less(s[|s| - 1], s[p])
  }

  lemma DisturbedIsLower(s: seq<Opp>, i: nat, p: nat)
    requires p < |s| && i < |s| && Disturbs(s, i, p)
    ensures p < i && i < |s| - 1 && Above(p, i) && Less(s[|s| - 1], s[p])
  {
    AboveIsSmaller(p, i);
  }

  /** An item that is lifted over an ancestor of slot i is not sifted down from there. */
  lemma NotDown(s: seq<Opp>, i: nat, p: nat)
    requires Heap(s) && i < |s| - 1 && p < i && Disturbs(s, i, p)
    ensures !Moves(Swap(s, i, |s| - 1), i, |s| - 1)
  {
    var n := |s| - 1;
    assert 2 * i + 1 < n ==> InOrder(s, 2 * i + 1);
    assert 2 * i + 2 < n ==> InOrder(s, 2 * i + 2);
    HeapPathBest(s, i, p);
  }

  /** Where the item comes from that slot b holds after slot i has been emptied. */
  lemma Origin(s: seq<Opp>, i: nat, b: nat) returns (c: nat)
    requires Heap(s) && i < |s| && b < |s| - 1
    ensures c < |s| && c != i && RemoveAt(s, i)[b] == s[c]
    ensures c == b || c > i || Disturbs(s, i, c)
    ensures b < i && !Disturbs(s, i, b) ==> c == b
    ensures b < i && Disturbs(s, i, b) ==> c == if b > 0 && Disturbs(s, i, Parent(b)) then Parent(b) else |s| - 1
  {
    var n := |s| - 1;
    if i == n {
      c := b;
    } else if Moves(Swap(s, i, n), i, n) {
      if b < i {
        c := b;
        if Disturbs(s, i, b) { NotDown(s, i, b); }
      } else {
        c := DownOrigin(Swap(s, i, n), i, n, b);
        c := if c == i then n else c;
      }
    } else {
      c := UpOrigin(s, i, b);
    }
  }

  lemma UpOrigin(s: seq<Opp>, i: nat, b: nat) returns (c: nat)
    requires Heap(s) && i < |s| - 1 && b < |s| - 1 && !Moves(Swap(s, i, |s| - 1), i, |s| - 1)
    ensures c < |s| && c != i && RemoveAt(s, i)[b] == s[c]
    ensures c == b || c > i || Disturbs(s, i, c)
    ensures b < i && !Disturbs(s, i, b) ==> c == b
    ensures b < i && Disturbs(s, i, b) ==> c == if b > 0 && Disturbs(s, i, Parent(b)) then Parent(b) else |s| - 1
  {
    var n := |s| - 1;
    var t := Swap(s, i, n);
    OverwriteHeapBut(s, t, i, n);
    assert HeapButAbove(t, i, n);
    if b > i {
      UpKeepsTail(t, i, b);
      c := b;
    } else {
      UpExact(t, i, n, b);
      if b == i {
        c := if i > 0 && Less(t[i], t[Parent(i)]) then Parent(i) else n;
      } else if Disturbs(s, i, b) {
        if b > 0 { AboveTrans(Parent(b), b, i); }
        c := if b > 0 && Disturbs(s, i, Parent(b)) then Parent(b) else n;
      } else {
        c := b;
      }
    }
  }

  ghost predicate NoDup(s: seq<Opp>) {
    forall j, k | 0 <= j < k < |s| :: s[j] != s[k]
  }

  /** Emptying slot i changes the item of a lower slot p exactly when p is above i and the item
      moved in from the end of the heap precedes it. */
  lemma SlotDisturbedIff(s: seq<Opp>, i: nat, p: nat)
    requires Heap(s) && NoDup(s) && p < i < |s|
    ensures RemoveAt(s, i)[p] == s[p] <==> !Disturbs(s, i, p)
  {
    hide RemoveAt, Disturbs, Heap;
    var c := Origin(s, i, p);
  }

  // ---------- when the sweep is exact ----------

  /** Every removal leaves the items of the slots still waiting where they were. */
  ghost predicate Undisturbed(s: seq<Opp>, idx: seq<nat>)
    requires Slots(idx, |s|)
    decreases |idx|
  {
    idx == [] ||
    var m := |idx| - 1;
    (forall k | 0 <= k < m :: !Disturbs(s, idx[m], idx[k])) && Undisturbed(RemoveAt(s, idx[m]), idx[..m])
  }

  /** The marked items are those of the waiting slots. */
  ghost predicate Clean(s: seq<Opp>, idx: seq<nat>, marked: set<Opp>) {
    forall b: nat | b < |s| :: s[b] in marked <==> b in idx
  }

  /** Slot b holds a marked item without waiting for it. */
  ghost predicate Stray(s: seq<Opp>, idx: seq<nat>, marked: set<Opp>, b: nat) {
    b < |s| && s[b] in marked && b !in idx
  }

  /** A waiting slot q holds an unmarked item that no stray item precedes and no stray slot is above. */
  ghost predicate Trapped(s: seq<Opp>, idx: seq<nat>, marked: set<Opp>, q: nat) {
    && q in idx && q < |s| && s[q] !in marked
    && forall b: nat {:trigger Stray(s, idx, marked, b)} | Stray(s, idx, marked, b) :: !Less(s[b], s[q]) && !Above(b, q)
  }

  /** Slot c waits, and emptying the last waiting slot lifts an item over it. */
  ghost predicate Displaced(s: seq<Opp>, idx: seq<nat>, c: nat)
    requires Slots(idx, |s|) && idx != []
  {
    c in idx[..|idx| - 1] && Disturbs(s, idx[|idx| - 1], c)
  }

  lemma LastIsGreatest(idx: seq<nat>, n: nat, c: nat)
    requires Slots(idx, n) && idx != []
    ensures c in idx ==> c <= idx[|idx| - 1] < n
    ensures c in idx && c != idx[|idx| - 1] <==> c in idx[..|idx| - 1]
  {
    assert idx == idx[..|idx| - 1] + [idx[|idx| - 1]];
  }

  /** A stray item after a turn was one before, or was displaced by the turn; and it stands above a
      given slot only if an item from above that slot is one of these, or the lifted item is. */
  lemma StrayOrigin(s: seq<Opp>, idx: seq<nat>, marked: set<Opp>, b: nat) returns (c: nat)
    requires Heap(s) && Slots(idx, |s|) && idx != []
    requires Stray(RemoveAt(s, idx[|idx| - 1]), idx[..|idx| - 1], marked, b)
    ensures c < |s| && RemoveAt(s, idx[|idx| - 1])[b] == s[c]
    ensures Stray(s, idx, marked, c) || Displaced(s, idx, c)
    ensures b < idx[|idx| - 1] ==>
              || c == b
              || (b > 0 && c == Parent(b) && Disturbs(s, idx[|idx| - 1], b) && Disturbs(s, idx[|idx| - 1], c))
              || (c == |s| - 1 && Disturbs(s, idx[|idx| - 1], b))
  {
    hide RemoveAt, Heap, Disturbs;
    var i := idx[|idx| - 1];
    c := Origin(s, i, b);
    LastIsGreatest(idx, |s|, c);
    LastIsGreatest(idx, |s|, b);
    if Disturbs(s, i, c) { DisturbedIsLower(s, i, c); }
  }

  /** A waiting slot above every other disturbed one becomes a trap. */
  lemma NewTrap(s: seq<Opp>, idx: seq<nat>, marked: set<Opp>, w: nat)
    requires Heap(s) && Slots(idx, |s|) && idx != [] && Displaced(s, idx, w) && s[|s| - 1] !in marked
    requires forall c: nat | Displaced(s, idx, c) :: w <= c
    requires forall c: nat | Stray(s, idx, marked, c) :: !Above(c, w)
    requires var y := RemoveAt(s, idx[|idx| - 1])[w]; forall c: nat | Stray(s, idx, marked, c) :: !Less(s[c], y)
    ensures Trapped(RemoveAt(s, idx[|idx| - 1]), idx[..|idx| - 1], marked, w)
  {
    hide RemoveAt, Heap, Less, Above;
    var m := |idx| - 1;
    var i, n := idx[m], |s| - 1;
    var r := RemoveAt(s, i);
    DisturbedIsLower(s, i, w);
    var o := Origin(s, i, w);
    if o != n {
      NotWaitingAbove(s, idx, marked, w, o);
    }
    forall b: nat | Stray(r, idx[..m], marked, b) ensures !Less(r[b], r[w]) && !Above(b, w) {
      var c := StrayOrigin(s, idx, marked, b);
      if Displaced(s, idx, c) {
        DisplacedIsWorse(s, idx, w, c, o);
      }
      if Above(b, w) {
        AboveIsSmaller(b, w);
        if c != b { AboveStep(b, w); }
      }
    }
  }

  lemma AboveStep(b: nat, w: nat)
    requires Above(b, w)
    ensures b > 0 ==> Above(Parent(b), w)
  {
    if b > 0 { AboveTrans(Parent(b), b, w); }
  }

  /** The item that slot w receives from its parent is not a marked one. */
  lemma NotWaitingAbove(s: seq<Opp>, idx: seq<nat>, marked: set<Opp>, w: nat, o: nat)
    requires Slots(idx, |s|) && idx != [] && w > 0 && w < |s| && o == Parent(w) && Disturbs(s, idx[|idx| - 1], o)
    requires forall c: nat | Displaced(s, idx, c) :: w <= c
    requires forall c: nat | Stray(s, idx, marked, c) :: !Above(c, w)
    ensures s[o] !in marked
  {
    assert Above(o, w);
    AboveIsSmaller(o, w);
    DisturbedIsLower(s, idx[|idx| - 1], o);
    LastIsGreatest(idx, |s|, o);
    assert !Displaced(s, idx, o) && !Stray(s, idx, marked, o);
  }

  /** A displaced item does not precede the one that now stands in the topmost disturbed slot. */
  lemma DisplacedIsWorse(s: seq<Opp>, idx: seq<nat>, w: nat, c: nat, o: nat)
    requires Heap(s) && Slots(idx, |s|) && idx != [] && Displaced(s, idx, w) && Displaced(s, idx, c) && w <= c
    requires o == |s| - 1 || (w > 0 && o == Parent(w))
    ensures !Less(s[c], s[o])
  {
    hide Less, Heap;
    var i := idx[|idx| - 1];
    DisturbedIsLower(s, i, w);
    DisturbedIsLower(s, i, c);
    if w < c { AboveChain(w, c, i); HeapPathBest(s, c, w); }
    if o == |s| - 1 {
      if Less(s[c], s[o]) { LessTrans(s[c], s[o], s[w]); Irreflexive(s[w]); }
    } else {
      if w < c { AboveTrans(o, w, c); AboveIsSmaller(o, c); } else { AboveIsSmaller(o, w); }
      HeapPathBest(s, c, o);
    }
  }

  lemma Irreflexive(x: Opp)
    ensures !Less(x, x)
  {
  }

  /** The trap stays where it is, if nothing is displaced from above it or with an item preceding its own. */
  lemma KeepTrap(s: seq<Opp>, idx: seq<nat>, marked: set<Opp>, q: nat)
    requires Heap(s) && Slots(idx, |s|) && idx != [] && Trapped(s, idx, marked, q) && q != idx[|idx| - 1]
    requires forall c: nat | Displaced(s, idx, c) :: !Less(s[c], s[q]) && c != q && !Above(c, q)
    requires s[|s| - 1] in marked ==> !Disturbs(s, idx[|idx| - 1], q)
    requires s[|s| - 1] in marked ==> forall a: nat | a < |s| && Above(a, q) :: !Disturbs(s, idx[|idx| - 1], a)
    ensures Trapped(RemoveAt(s, idx[|idx| - 1]), idx[..|idx| - 1], marked, q)
  {
    hide RemoveAt, Heap, Less, Above, Disturbs;
    var m := |idx| - 1;
    var i := idx[m];
    var r := RemoveAt(s, i);
    LastIsGreatest(idx, |s|, q);
    assert !Displaced(s, idx, q);
    var o := Origin(s, i, q);
    forall b: nat | Stray(r, idx[..m], marked, b) ensures !Less(r[b], r[q]) && !Above(b, q) {
      var c := StrayOrigin(s, idx, marked, b);
      if Above(b, q) {
        AboveIsSmaller(b, q);
        AboveStep(b, q);
      }
    }
  }

  /** Some waiting slot is displaced; the topmost of them. */
  lemma Topmost(s: seq<Opp>, idx: seq<nat>, c: nat) returns (w: nat)
    requires Slots(idx, |s|) && idx != [] && Displaced(s, idx, c)
    ensures Displaced(s, idx, w) && w <= c && forall a: nat | Displaced(s, idx, a) :: w <= a
  {
    hide Disturbs;
    w := c;
    if a: nat :| Displaced(s, idx, a) && a < c {
      w := Topmost(s, idx, a);
    }
  }

  /** A marked item lifted from the end of the heap stays below the trap and all that is above it. */
  lemma MarkedStaysBelow(s: seq<Opp>, idx: seq<nat>, marked: set<Opp>, q: nat)
    requires Heap(s) && Slots(idx, |s|) && idx != [] && Trapped(s, idx, marked, q) && q != idx[|idx| - 1]
    requires s[|s| - 1] in marked && idx[|idx| - 1] < |s| - 1
    ensures Trapped(RemoveAt(s, idx[|idx| - 1]), idx[..|idx| - 1], marked, q)
  {
    hide RemoveAt, Heap, Less, Above;
    var i, n := idx[|idx| - 1], |s| - 1;
    LastIsGreatest(idx, |s|, n);
    assert Stray(s, idx, marked, n);
    forall a: nat | a < |s| && (a == q || Above(a, q)) ensures !Disturbs(s, i, a) {
      if Less(s[n], s[a]) && a != q {
        AboveIsSmaller(a, q);
        HeapPathBest(s, q, a);
        LessWeak(s[n], s[q], s[a]);
      }
    }
    forall c: nat | Displaced(s, idx, c) ensures !Less(s[c], s[q]) && c != q && !Above(c, q) {
      if Less(s[c], s[q]) { LessTrans(s[n], s[c], s[q]); }
    }
    KeepTrap(s, idx, marked, q);
  }

  /** A displaced item that precedes the trapped one, or stood at or above it, makes a new trap. */
  lemma MovedTrap(s: seq<Opp>, idx: seq<nat>, marked: set<Opp>, q: nat, c: nat) returns (w: nat)
    requires Heap(s) && Slots(idx, |s|) && idx != [] && Trapped(s, idx, marked, q)
    requires s[|s| - 1] !in marked && Displaced(s, idx, c)
    requires Less(s[c], s[q]) || c == q || Above(c, q)
    ensures Trapped(RemoveAt(s, idx[|idx| - 1]), idx[..|idx| - 1], marked, w)
  {
    hide RemoveAt, Heap, Less, Above;
    var i, n := idx[|idx| - 1], |s| - 1;
    w := Topmost(s, idx, c);
    DisturbedIsLower(s, i, w);
    DisturbedIsLower(s, i, c);
    if w < c { AboveChain(w, c, i); }
    var o := Origin(s, i, w);
    forall e: nat | Stray(s, idx, marked, e) ensures !Above(e, w) {
      if Above(e, w) { NoStrayAbove(s, q, c, w, e); }
    }
    forall e: nat | Stray(s, idx, marked, e) ensures !Less(s[e], s[o]) {
      if Less(s[e], s[o]) { NoStrayBefore(s, q, c, w, e, o); }
    }
    NewTrap(s, idx, marked, w);
  }

  /** Slots c and q, with c at or above q or with an item preceding that of q, and w at or above c:
      an item above w that does not precede that of q is above q. */
  lemma NoStrayAbove(s: seq<Opp>, q: nat, c: nat, w: nat, e: nat)
    requires Heap(s) && q < |s| && c < |s| && Above(e, w) && (w == c || Above(w, c)) && e < |s|
    requires Less(s[c], s[q]) || c == q || Above(c, q)
    ensures Less(s[e], s[q]) || Above(e, q)
  {
    hide Less, Heap, Above;
    if w != c { AboveTrans(e, w, c); }
    if Less(s[c], s[q]) {
      AboveIsSmaller(e, c);
      HeapPathBest(s, c, e);
      LessWeak(s[c], s[e], s[q]);
    } else if c != q {
      AboveTrans(e, c, q);
    }
  }

  /** And an item preceding the last one, or the one above w, precedes that of q. */
  lemma NoStrayBefore(s: seq<Opp>, q: nat, c: nat, w: nat, e: nat, o: nat)
    requires Heap(s) && q < |s| && c < |s| && e < |s| && w <= c && (w == c || Above(w, c))
    requires Less(s[c], s[q]) || c == q || Above(c, q)
    requires (w > 0 && o == Parent(w)) || (o == |s| - 1 && Less(s[o], s[c]))
    requires Less(s[e], s[o])
    ensures Less(s[e], s[q])
  {
    hide Less, Heap;
    if o == |s| - 1 && Less(s[o], s[c]) {
      LessTrans(s[e], s[o], s[c]);
    } else {
      AboveIsSmaller(o, w);
      if w != c { AboveTrans(o, w, c); }
      HeapPathBest(s, c, o);
      LessWeak(s[e], s[c], s[o]);
    }
    assert Less(s[e], s[c]);
    if Less(s[c], s[q]) {
      LessTrans(s[e], s[c], s[q]);
    } else if c != q {
      AboveIsSmaller(c, q);
      HeapPathBest(s, q, c);
      LessWeak(s[e], s[q], s[c]);
    }
  }

  /** One turn of the sweep leaves a trap somewhere, unless it takes the trapped item itself. */
  lemma TrapStays(s: seq<Opp>, idx: seq<nat>, marked: set<Opp>, q: nat) returns (w: nat)
    requires Heap(s) && Slots(idx, |s|) && idx != [] && Trapped(s, idx, marked, q) && q != idx[|idx| - 1]
    ensures Trapped(RemoveAt(s, idx[|idx| - 1]), idx[..|idx| - 1], marked, w)
  {
    hide RemoveAt, Heap, Less, Above, Trapped;
    var i, n := idx[|idx| - 1], |s| - 1;
    w := q;
    if i == n {
      EndStep(s, idx, marked, q);
    } else if s[n] in marked {
      MarkedStaysBelow(s, idx, marked, q);
    } else if c: nat :| Displaced(s, idx, c) && c < |s| && q < |s| && (Less(s[c], s[q]) || c == q || Above(c, q)) {
      w := MovedTrap(s, idx, marked, q, c);
    } else {
      assert q < |s| by { TrapInside(s, idx, marked, q); }
      forall c: nat | Displaced(s, idx, c) ensures !Less(s[c], s[q]) && c != q && !Above(c, q) {}
      KeepTrap(s, idx, marked, q);
    }
  }

  lemma TrapInside(s: seq<Opp>, idx: seq<nat>, marked: set<Opp>, q: nat)
    requires Trapped(s, idx, marked, q)
    ensures q < |s|
  {
  }

  lemma EndStep(s: seq<Opp>, idx: seq<nat>, marked: set<Opp>, q: nat)
    requires Heap(s) && Slots(idx, |s|) && idx != [] && Trapped(s, idx, marked, q) && q != idx[|idx| - 1]
    requires idx[|idx| - 1] == |s| - 1
    ensures Trapped(RemoveAt(s, idx[|idx| - 1]), idx[..|idx| - 1], marked, q)
  {
    hide RemoveAt, Heap, Less, Above;
    KeepTrap(s, idx, marked, q);
  }

  /** So a trap ends with an unmarked item being taken. */
  lemma {:induction false} TrapTakesUnmarked(s: seq<Opp>, idx: seq<nat>, marked: set<Opp>, q: nat)
    requires Heap(s) && Slots(idx, |s|) && Trapped(s, idx, marked, q)
    ensures exists k | 0 <= k < |idx| :: Swept(s, idx)[k] !in marked
    decreases |idx|
  {
    hide RemoveAt, Heap;
    var m := |idx| - 1;
    var r := RemoveAt(s, idx[m]);
    var before := Swept(r, idx[..m]);
    assert Swept(s, idx) == before + [s[idx[m]]];
    if q == idx[m] {
      assert Swept(s, idx)[m] !in marked;
    } else {
      var w := TrapStays(s, idx, marked, q);
      RemoveAtKeepsHeap(s, idx[m]);
      TrapTakesUnmarked(r, idx[..m], marked, w);
      var k :| 0 <= k < m && before[k] !in marked;
      assert Swept(s, idx)[k] !in marked;
    }
  }

  /** A turn that disturbs nobody keeps the marked items in the waiting slots. */
  lemma CleanStays(s: seq<Opp>, idx: seq<nat>, marked: set<Opp>)
    requires Heap(s) && Slots(idx, |s|) && idx != [] && Clean(s, idx, marked)
    requires forall c: nat :: !Displaced(s, idx, c)
    ensures Clean(RemoveAt(s, idx[|idx| - 1]), idx[..|idx| - 1], marked)
    ensures forall k | 0 <= k < |idx| - 1 :: RemoveAt(s, idx[|idx| - 1])[idx[k]] == s[idx[k]]
  {
    hide RemoveAt, Heap, Disturbs;
    var m := |idx| - 1;
    var i := idx[m];
    var r := RemoveAt(s, i);
    forall b: nat | b < |r| ensures (r[b] in marked <==> b in idx[..m]) && (b in idx[..m] ==> r[b] == s[b]) {
      var c := Origin(s, i, b);
      LastIsGreatest(idx, |s|, b);
      LastIsGreatest(idx, |s|, c);
      assert !Displaced(s, idx, b) && !Displaced(s, idx, c);
    }
    forall k | 0 <= k < m ensures r[idx[k]] == s[idx[k]] {
      assert idx[k] == idx[..m][k];
      LastIsGreatest(idx, |s|, idx[k]);
    }
  }

  lemma FirstTrap(s: seq<Opp>, idx: seq<nat>, marked: set<Opp>, c: nat) returns (w: nat)
    requires Heap(s) && Slots(idx, |s|) && idx != [] && Clean(s, idx, marked) && Displaced(s, idx, c)
    ensures Trapped(RemoveAt(s, idx[|idx| - 1]), idx[..|idx| - 1], marked, w)
  {
    hide RemoveAt, Heap, Less, Above;
    w := Topmost(s, idx, c);
    DisturbedIsLower(s, idx[|idx| - 1], w);
    LastIsGreatest(idx, |s|, |s| - 1);
    NewTrap(s, idx, marked, w);
  }

  /** From marked items that are exactly those of the waiting slots, the sweep takes the marked items,
      slot by slot, or takes an unmarked one; and which of the two is decided by disturbance. */
  lemma {:induction false} SweepOfMarked(s: seq<Opp>, idx: seq<nat>, marked: set<Opp>)
    requires Heap(s) && Slots(idx, |s|) && Clean(s, idx, marked)
    ensures Undisturbed(s, idx) ==> Swept(s, idx) == Collected(s, idx)
    ensures !Undisturbed(s, idx) ==> exists k | 0 <= k < |idx| :: Swept(s, idx)[k] !in marked
    decreases |idx|
  {
    hide RemoveAt, Heap, Disturbs, Clean, Trapped;
    if idx != [] {
      var m := |idx| - 1;
      var r := RemoveAt(s, idx[m]);
      var before := Swept(r, idx[..m]);
      assert Swept(s, idx) == before + [s[idx[m]]];
      RemoveAtKeepsHeap(s, idx[m]);
      if k :| 0 <= k < m && Disturbs(s, idx[m], idx[k]) {
        assert idx[k] == idx[..m][k];
        assert Displaced(s, idx, idx[k]);
        var w := FirstTrap(s, idx, marked, idx[k]);
        TrapTakesUnmarked(r, idx[..m], marked, w);
        var j :| 0 <= j < m && before[j] !in marked;
        assert Swept(s, idx)[j] !in marked;
      } else {
        forall c: nat ensures !Displaced(s, idx, c) {}
        CleanStays(s, idx, marked);
        SweepOfMarked(r, idx[..m], marked);
        assert Undisturbed(s, idx) == Undisturbed(r, idx[..m]);
        if Undisturbed(s, idx) {
          assert Collected(s, idx) == Collected(r, idx[..m]) + [s[idx[m]]];
        } else {
          var j :| 0 <= j < m && before[j] !in marked;
          assert Swept(s, idx)[j] !in marked;
        }
      }
    }
  }

  /** The sweep takes out exactly the items it collected, in whatever order, if and only if no removal
      disturbs a slot still waiting. */
  lemma SweepExactIff(s: seq<Opp>, idx: seq<nat>)
    requires Heap(s) && NoDup(s) && Slots(idx, |s|)
    ensures multiset(Swept(s, idx)) == multiset(Collected(s, idx)) <==> Undisturbed(s, idx)
  {
    hide RemoveAt, Heap, Undisturbed, Swept;
    var marked := set x | x in Collected(s, idx);
    forall b: nat | b < |s| ensures s[b] in marked <==> b in idx {
      if b in idx {
        var k :| 0 <= k < |idx| && idx[k] == b;
        assert Collected(s, idx)[k] == s[b];
      } else {
        forall k | 0 <= k < |idx| ensures Collected(s, idx)[k] != s[b] {
          assert idx[k] != b;
        }
      }
    }
    SweepOfMarked(s, idx, marked);
    if !Undisturbed(s, idx) {
      var k :| 0 <= k < |idx| && Swept(s, idx)[k] !in marked;
      assert Swept(s, idx)[k] in multiset(Swept(s, idx));
    }
  }

  /** How many items of a list are expired. */
  ghost function Count(s: seq<Opp>, now: int): nat {
    if s == [] then 0 else Count(s[..|s| - 1], now) + if Expired(s[|s| - 1], now) then 1 else 0
  }

  lemma {:induction false} CountSlots(s: seq<Opp>, now: int)
    ensures |ExpiredSlots(s, now)| == Count(s, now)
  {
    if s != [] { CountSlots(s[..|s| - 1], now); }
  }

  lemma {:induction false} CountSplit(s: seq<Opp>, t: seq<Opp>, now: int)
    ensures Count(s + t, now) == Count(s, now) + Count(t, now)
    decreases |t|
  {
    if t == [] {
      assert s + t == s;
    } else {
      var n := |t| - 1;
      CountSplit(s, t[..n], now);
      assert (s + t)[..|s| + n] == s + t[..n];
    }
  }

  lemma {:induction false} CountExtremes(s: seq<Opp>, now: int)
    ensures Count(s, now) <= |s|
    ensures Count(s, now) == 0 <==> forall k | 0 <= k < |s| :: !Expired(s[k], now)
    ensures Count(s, now) == |s| <==> forall k | 0 <= k < |s| :: Expired(s[k], now)
  {
    hide Expired;
    if s != [] { CountExtremes(s[..|s| - 1], now); }
  }

  lemma TakeOut(a: seq<Opp>, b: seq<Opp>) returns (k: nat)
    requires a != [] && multiset(a) == multiset(b)
    ensures k < |b| && b[k] == a[|a| - 1] && multiset(a[..|a| - 1]) == multiset(b[..k] + b[k + 1..])
  {
    var n := |a| - 1;
    assert a[n] in multiset(b);
    k :| k < |b| && b[k] == a[n];
    DropLast(a);
    DropAt(b, k);
  }

  lemma DropAt(b: seq<Opp>, k: nat)
    requires k < |b|
    ensures multiset(b[..k] + b[k + 1..]) == multiset(b) - multiset{b[k]}
  {
    assert b == b[..k] + ([b[k]] + b[k + 1..]);
    assert multiset([b[k]] + b[k + 1..]) == multiset{b[k]} + multiset(b[k + 1..]);
  }

  lemma {:induction false} CountPermutes(a: seq<Opp>, b: seq<Opp>, now: int)
    requires multiset(a) == multiset(b)
    ensures Count(a, now) == Count(b, now)
    decreases |a|
  {
    if a == [] {
      assert |multiset(b)| == 0;
    } else {
      var k := TakeOut(a, b);
      CountPermutes(a[..|a| - 1], b[..k] + b[k + 1..], now);
      CountSplit(b[..k], b[k + 1..], now);
      CountSplit(b[..k], [b[k]], now);
      CountSplit(b[..k] + [b[k]], b[k + 1..], now);
      assert b == b[..k] + [b[k]] + b[k + 1..];
      assert [b[k]][..0] == [];
    }
  }

  ghost predicate AllLive(s: seq<Opp>, now: int) {
    forall k | 0 <= k < |s| :: !Expired(s[k], now)
  }

  ghost predicate AllExpired(s: seq<Opp>, now: int) {
    forall k | 0 <= k < |s| :: Expired(s[k], now)
  }

  /** Taking as many items as are expired leaves none behind exactly if it takes only expired ones. */
  lemma ExpiredCounts(s: seq<Opp>, now: int, kept: seq<Opp>, taken: seq<Opp>)
    requires multiset(kept) + multiset(taken) == multiset(s) && |taken| == |ExpiredSlots(s, now)|
    ensures AllLive(kept, now) <==> AllExpired(taken, now)
  {
    hide Count, ExpiredSlots, Expired;
    CountSlots(s, now);
    CountPermutes(kept + taken, s, now);
    CountSplit(kept, taken, now);
    CountExtremes(kept, now);
    CountExtremes(taken, now);
  }

  /** In terms of the queue: the sweep leaves no expired item behind, and takes no live one, if and
      only if no removal disturbs a slot still waiting. */
  lemma SweepLeavesLiveIff(s: seq<Opp>, now: int)
    requires Heap(s)
    ensures AllLive(Sweep(s, ExpiredSlots(s, now)), now) <==> Undisturbed(s, ExpiredSlots(s, now))
    ensures AllExpired(Swept(s, ExpiredSlots(s, now)), now) <==> Undisturbed(s, ExpiredSlots(s, now))
  {
    hide RemoveAt, Heap, Undisturbed, Swept, Sweep, Expired;
    var idx := ExpiredSlots(s, now);
    var marked := set x | x in s && Expired(x, now);
    assert Clean(s, idx, marked);
    hide ExpiredSlots;
    SweepOfMarked(s, idx, marked);
    SweepKeepsHeap(s, idx);
    ExpiredCounts(s, now, Sweep(s, idx), Swept(s, idx));
    if Undisturbed(s, idx) {
      forall k | 0 <= k < |idx| ensures Expired(Swept(s, idx)[k], now) {
        assert idx[k] in idx;
      }
    } else {
      var k :| 0 <= k < |idx| && Swept(s, idx)[k] !in marked;
      var x := Swept(s, idx)[k];
      assert x in multiset(Swept(s, idx));
      assert x in multiset(s);
      assert !Expired(x, now);
    }
  }

  /** What is collected, and that as many are removed, in terms of the expiry times. */
  lemma SweptTerms(s: seq<Opp>, now: int)
    ensures |Sweep(s, ExpiredSlots(s, now))| == |s| - |LateSlots(s, now)|
    ensures forall k :: k in LateSlots(s, now) <==> 0 <= k < |s| && now > s[k].expiresAt
  {
    LateCount(s, now);
  }

  ghost function LateSlots(s: seq<Opp>, now: int): set<int> {
    set k | 0 <= k < |s| && now > s[k].expiresAt
  }

  lemma {:induction false} LateCount(s: seq<Opp>, now: int)
    ensures |ExpiredSlots(s, now)| == |LateSlots(s, now)|
  {
    if s != [] {
      var n := |s| - 1;
      LateCount(s[..n], now);
      LateSnoc(s, now);
      hide LateSlots;
    }
  }

  lemma LateSnoc(s: seq<Opp>, now: int)
    requires s != []
    ensures |LateSlots(s, now)| == |LateSlots(s[..|s| - 1], now)| + if now > s[|s| - 1].expiresAt then 1 else 0
  {
    var n := |s| - 1;
    var before, all := LateSlots(s[..n], now), LateSlots(s, now);
    var last := if now > s[n].expiresAt then {n} else {};
    assert n !in before;
    forall k ensures k in all <==> k in before || k in last {}
    assert all == before + last;
  }

  /** A heap of seven on which the sweep goes wrong: slots 1 and 3 hold expired items, emptying
      slot 3 lifts the live last item into slot 1, and that live item is then taken instead. */
  lemma SweepTakesLiveItem()
    ensures var s := [Opp(0, 100, 0, 9), Opp(1, 10, 0, 1), Opp(2, 90, 0, 9), Opp(3, 5, 0, 1),
                      Opp(4, 4, 0, 9), Opp(5, 80, 0, 9), Opp(6, 70, 0, 9)];
            && Heap(s) && Slots([1, 3], 7) && (forall k | 0 <= k < 7 :: k in [1, 3] <==> Expired(s[k], 5))
            && s[6] in Swept(s, [1, 3]) && !Expired(s[6], 5)
  {
    var s := [Opp(0, 100, 0, 9), Opp(1, 10, 0, 1), Opp(2, 90, 0, 9), Opp(3, 5, 0, 1),
              Opp(4, 4, 0, 9), Opp(5, 80, 0, 9), Opp(6, 70, 0, 9)];
    assert Heap(s) by {
      forall k | 0 < k < 7 ensures InOrder(s, k) {}
    }
    assert Above(1, 3) && Disturbs(s, 3, 1) && !Disturbs(s, 3, 0);
    hide RemoveAt, Disturbs, Heap, Above;
    var c := Origin(s, 3, 1);
    assert [1, 3][..1] == [1];
    assert Swept(s, [1, 3]) == Swept(RemoveAt(s, 3), [1]) + [s[3]];
    assert Swept(s, [1, 3])[0] == s[6];
  }
}
