/**
 The binary heap behind arb/opportunity_queue.go: Go's container/heap specialised to the order of
 opportunityHeap.Less, as functions on the sequence of queued opportunities. OpportunityQueue.dfy
 runs the same steps in place and is proved to compute these functions.
 */
module PriorityHeap {

  type Id = nat

  datatype Opp = Opp(id: Id, priority: int, detectedAt: int, expiresAt: int)

  /** Higher priority first; earlier detection breaks ties. */
  predicate Less(a: Opp, b: Opp) {
    if a.priority != b.priority then a.priority > b.priority else a.detectedAt < b.detectedAt
  }

  function Parent(k: nat): nat
    requires k > 0
  {
    (k - 1) / 2
  }

  /** Slot k does not precede its parent. */
  ghost predicate InOrder(s: seq<Opp>, k: nat)
    requires 0 < k < |s|
  {
    !Less(s[k], s[Parent(k)])
  }

  ghost predicate Heap(s: seq<Opp>) {
    forall k {:trigger InOrder(s, k)} | 0 < k < |s| :: InOrder(s, k)
  }

  /** The children of slot i, among the first n slots, do not precede the parent of i. */
  ghost predicate Bridged(s: seq<Opp>, i: nat, n: nat)
    requires i < n <= |s|
  {
    i > 0 ==>
      && (2 * i + 1 < n ==> !Less(s[2 * i + 1], s[Parent(i)]))
      && (2 * i + 2 < n ==> !Less(s[2 * i + 2], s[Parent(i)]))
  }

  function Swap(s: seq<Opp>, i: nat, j: nat): (r: seq<Opp>)
    requires i < |s| && j < |s|
    ensures |r| == |s|
  {
    s[i := s[j]][j := s[i]]
  }

  // ---------- sift up ----------

  function Up(s: seq<Opp>, j: nat): (r: seq<Opp>)
    requires j < |s|
    ensures |r| == |s|
    decreases j
  {
    if j == 0 || !Less(s[j], s[Parent(j)]) then s else Up(Swap(s, Parent(j), j), Parent(j))
  }

  /** A heap on the first n slots except that slot j may precede its parent. */
  ghost predicate HeapButAbove(s: seq<Opp>, j: nat, n: nat)
    requires j < n <= |s|
  {
    Bridged(s, j, n) && forall k {:trigger InOrder(s, k)} | 0 < k < n && k != j :: InOrder(s, k)
  }

  lemma UpStep(s: seq<Opp>, j: nat, n: nat)
    requires 0 < j < n <= |s| && HeapButAbove(s, j, n) && Less(s[j], s[Parent(j)])
    ensures HeapButAbove(Swap(s, Parent(j), j), Parent(j), n)
  {
    var p := Parent(j);
    var t := Swap(s, p, j);
    forall k | 0 < k < n && k != p ensures InOrder(t, k) {
      if k != j { assert InOrder(s, k); }
    }
    if p > 0 {
      assert InOrder(s, p);
      assert 2 * p + 1 < n && 2 * p + 1 != j ==> InOrder(s, 2 * p + 1);
      assert 2 * p + 2 < n && 2 * p + 2 != j ==> InOrder(s, 2 * p + 2);
    }
  }

  lemma {:induction false} UpMakesHeap(s: seq<Opp>, j: nat, n: nat)
    requires j < n <= |s| && HeapButAbove(s, j, n)
    ensures Heap(Up(s, j)[..n])
    decreases j
  {
    if j > 0 && Less(s[j], s[Parent(j)]) {
      UpStep(s, j, n);
      UpMakesHeap(Swap(s, Parent(j), j), Parent(j), n);
    } else {
      forall k | 0 < k < n ensures InOrder(s[..n], k) {
        assert InOrder(s, k);
      }
    }
  }

  // ---------- sift down ----------

  /** The child that a sift-down at i looks at: the right one if it precedes the left. */
  function Child(s: seq<Opp>, i: nat, n: nat): (c: nat)
    requires 2 * i + 1 < n <= |s|
    ensures i < c < n && Parent(c) == i
    ensures forall k | 0 < k < n && Parent(k) == i :: !Less(s[k], s[c])
  {
    if 2 * i + 2 < n && Less(s[2 * i + 2], s[2 * i + 1]) then 2 * i + 2 else 2 * i + 1
  }

  function Down(s: seq<Opp>, i: nat, n: nat): (r: seq<Opp>)
    requires i < n <= |s|
    ensures |r| == |s|
    ensures forall k | 0 <= k < i || n <= k < |s| :: r[k] == s[k]
    decreases n - i
  {
    if 2 * i + 1 >= n || !Less(s[Child(s, i, n)], s[i]) then s
    else Down(Swap(s, i, Child(s, i, n)), Child(s, i, n), n)
  }

  /** A heap on the first n slots except that children of slot i may precede it. */
  ghost predicate HeapButBelow(s: seq<Opp>, i: nat, n: nat)
    requires i < n <= |s|
  {
    Bridged(s, i, n) && forall k {:trigger InOrder(s, k)} | 0 < k < n && Parent(k) != i :: InOrder(s, k)
  }

  lemma DownStep(s: seq<Opp>, i: nat, n: nat)
    requires 2 * i + 1 < n <= |s| && HeapButBelow(s, i, n) && Less(s[Child(s, i, n)], s[i])
    ensures HeapButBelow(Swap(s, i, Child(s, i, n)), Child(s, i, n), n)
  {
    var c := Child(s, i, n);
    var t := Swap(s, i, c);
    assert Bridged(t, c, n) by {
      assert 2 * c + 1 < n ==> InOrder(s, 2 * c + 1);
      assert 2 * c + 2 < n ==> InOrder(s, 2 * c + 2);
    }
    forall k | 0 < k < n && Parent(k) != c ensures InOrder(t, k) {
      if Parent(k) == i {
        assert k == 2 * i + 1 || k == 2 * i + 2;
      } else {
        assert InOrder(s, k);
      }
    }
  }

  lemma {:induction false} DownMakesHeap(s: seq<Opp>, i: nat, n: nat)
    requires i < n <= |s| && HeapButBelow(s, i, n)
    ensures Heap(Down(s, i, n)[..n])
    decreases n - i
  {
    if 2 * i + 1 < n && Less(s[Child(s, i, n)], s[i]) {
      DownStep(s, i, n);
      DownMakesHeap(Swap(s, i, Child(s, i, n)), Child(s, i, n), n);
    } else {
      forall k | 0 < k < n ensures InOrder(s[..n], k) {
        if Parent(k) != i { assert InOrder(s, k); }
      }
    }
  }

  // ---------- sifting permutes ----------

  lemma SwapPermutes(s: seq<Opp>, i: nat, j: nat)
    requires i < |s| && j < |s|
    ensures multiset(Swap(s, i, j)) == multiset(s)
  {
  }

  lemma {:induction false} UpPermutes(s: seq<Opp>, j: nat)
    requires j < |s|
    ensures multiset(Up(s, j)) == multiset(s)
    decreases j
  {
    if j > 0 && Less(s[j], s[Parent(j)]) {
      SwapPermutes(s, Parent(j), j);
      UpPermutes(Swap(s, Parent(j), j), Parent(j));
    }
  }

  lemma {:induction false} DownPermutes(s: seq<Opp>, i: nat, n: nat)
    requires i < n <= |s|
    ensures multiset(Down(s, i, n)) == multiset(s)
    decreases n - i
  {
    if 2 * i + 1 < n && Less(s[Child(s, i, n)], s[i]) {
      SwapPermutes(s, i, Child(s, i, n));
      DownPermutes(Swap(s, i, Child(s, i, n)), Child(s, i, n), n);
    }
  }

  // ---------- removal and re-ordering of one slot ----------

  predicate Moves(s: seq<Opp>, i: nat, n: nat)
    requires i < n <= |s|
  {
    2 * i + 1 < n && Less(s[Child(s, i, n)], s[i])
  }

  lemma DownUnfold(s: seq<Opp>, i: nat, n: nat)
    requires i < n <= |s|
    ensures !Moves(s, i, n) ==> Down(s, i, n) == s
    ensures Moves(s, i, n) ==> Down(s, i, n) == Down(Swap(s, i, Child(s, i, n)), Child(s, i, n), n)
  {
  }

  /** heap.Fix, and the middle of heap.Remove: down if that moves the slot, else up. */
  function Settle(s: seq<Opp>, i: nat, n: nat): (r: seq<Opp>)
    requires i < n <= |s|
    ensures |r| == |s|
  {
    if Moves(s, i, n) then Down(s, i, n) else Up(s, i)
  }

  lemma SettlePermutes(s: seq<Opp>, i: nat, n: nat)
    requires i < n <= |s|
    ensures multiset(Settle(s, i, n)) == multiset(s)
  {
    if Moves(s, i, n) { DownPermutes(s, i, n); } else { UpPermutes(s, i); }
  }

  /** A heap on the first n slots once slot i is ignored. */
  ghost predicate HeapBut(s: seq<Opp>, i: nat, n: nat)
    requires i < n <= |s|
  {
    Bridged(s, i, n) &&
    forall k {:trigger InOrder(s, k)} | 0 < k < n && k != i && Parent(k) != i :: InOrder(s, k)
  }

  lemma SettleMakesHeap(s: seq<Opp>, i: nat, n: nat)
    requires i < n <= |s| && HeapBut(s, i, n)
    ensures Heap(Settle(s, i, n)[..n])
  {
    if Moves(s, i, n) {
      DownMakesHeap(s, i, n);
    } else {
      UpMakesHeap(s, i, n);
    }
  }

  /** Overwriting slot i of a heap leaves, on the first n slots, a heap but for that slot. */
  lemma OverwriteHeapBut(s: seq<Opp>, t: seq<Opp>, i: nat, n: nat)
    requires i < n <= |s| == |t| && Heap(s) && forall k | 0 <= k < n && k != i :: t[k] == s[k]
    ensures HeapBut(t, i, n)
  {
    forall k | 0 < k < n && k != i && Parent(k) != i ensures InOrder(t, k) {
      assert InOrder(s, k);
    }
    if i > 0 {
      assert InOrder(s, i);
      assert 2 * i + 1 < n ==> InOrder(s, 2 * i + 1);
      assert 2 * i + 2 < n ==> InOrder(s, 2 * i + 2);
    }
  }

  /** heap.Remove up to its final Pop: the item of slot i stands last, the others are settled. */
  function MoveLast(s: seq<Opp>, i: nat): (r: seq<Opp>)
    requires i < |s|
    ensures |r| == |s| && r[|s| - 1] == s[i]
  {
    var n := |s| - 1;
    if i == n then s
    else
      SettleKeepsTail(Swap(s, i, n), i, n);
      Settle(Swap(s, i, n), i, n)
  }

  function RemoveAt(s: seq<Opp>, i: nat): (r: seq<Opp>)
    requires i < |s|
    ensures |r| == |s| - 1
  {
    MoveLast(s, i)[..|s| - 1]
  }

  lemma DropLast(u: seq<Opp>)
    requires |u| > 0
    ensures multiset(u[..|u| - 1]) == multiset(u) - multiset{u[|u| - 1]}
  {
    assert u == u[..|u| - 1] + [u[|u| - 1]];
  }

  lemma MoveLastPermutes(s: seq<Opp>, i: nat)
    requires i < |s|
    ensures multiset(MoveLast(s, i)) == multiset(s)
  {
    var n := |s| - 1;
    if i < n {
      SwapPermutes(s, i, n);
      SettlePermutes(Swap(s, i, n), i, n);
    }
  }

  lemma MoveLastHeap(s: seq<Opp>, i: nat)
    requires i < |s| && Heap(s)
    ensures Heap(MoveLast(s, i)[..|s| - 1])
  {
    var n := |s| - 1;
    if i < n {
      OverwriteHeapBut(s, Swap(s, i, n), i, n);
      SettleMakesHeap(Swap(s, i, n), i, n);
    } else {
      forall k | 0 < k < n ensures InOrder(s[..n], k) {
        assert InOrder(s, k);
      }
    }
  }

  /** heap.Remove keeps the heap and takes out the one item at the slot. */
  lemma RemoveAtKeepsHeap(s: seq<Opp>, i: nat)
    requires i < |s| && Heap(s)
    ensures Heap(RemoveAt(s, i))
    ensures multiset(RemoveAt(s, i)) == multiset(s) - multiset{s[i]}
  {
    MoveLastHeap(s, i);
    MoveLastPermutes(s, i);
    DropLast(MoveLast(s, i));
  }

  lemma {:induction false} UpKeepsTail(s: seq<Opp>, j: nat, k: nat)
    requires j < k < |s|
    ensures Up(s, j)[k] == s[k]
    decreases j
  {
    if j > 0 && Less(s[j], s[Parent(j)]) {
      UpKeepsTail(Swap(s, Parent(j), j), Parent(j), k);
    }
  }

  lemma SettleKeepsTail(s: seq<Opp>, i: nat, n: nat)
    requires i < n < |s|
    ensures Settle(s, i, n)[n] == s[n]
  {
    if !Moves(s, i, n) {
      UpKeepsTail(s, i, n);
    }
  }

  function Push(s: seq<Opp>, x: Opp): seq<Opp> {
    Up(s + [x], |s|)
  }

  lemma PushKeepsHeap(s: seq<Opp>, x: Opp)
    requires Heap(s)
    ensures Heap(Push(s, x)) && multiset(Push(s, x)) == multiset(s) + multiset{x}
  {
    forall k | 0 < k < |s| ensures InOrder(s + [x], k) {
      assert InOrder(s, k);
    }
    UpMakesHeap(s + [x], |s|, |s| + 1);
    assert Push(s, x)[..|s| + 1] == Push(s, x);
    UpPermutes(s + [x], |s|);
  }

  /** heap.Fix after the item of slot i has been re-prioritised. */
  lemma FixKeepsHeap(s: seq<Opp>, i: nat, x: Opp)
    requires i < |s| && Heap(s)
    ensures Heap(Settle(s[i := x], i, |s|))
    ensures multiset(Settle(s[i := x], i, |s|)) == multiset(s) - multiset{s[i]} + multiset{x}
  {
    OverwriteHeapBut(s, s[i := x], i, |s|);
    SettleMakesHeap(s[i := x], i, |s|);
    var u := Settle(s[i := x], i, |s|);
    assert u[..|s|] == u;
    SettlePermutes(s[i := x], i, |s|);
  }

  /** No queued item goes before the root: each has a lower priority, or the same and was detected no
      earlier. */
  lemma {:induction false} RootIsBest(s: seq<Opp>, k: nat)
    requires Heap(s) && k < |s|
    ensures !Less(s[k], s[0])
    ensures s[k].priority < s[0].priority || (s[k].priority == s[0].priority && s[k].detectedAt >= s[0].detectedAt)
    decreases k
  {
    if k > 0 {
      RootIsBest(s, Parent(k));
      assert InOrder(s, k);
    }
  }
}
