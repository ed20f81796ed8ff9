/**
 The scheduler of arb/opportunity_queue.go: queued opportunities are objects that carry their own
 heap slot, found by identifier through byID; container/heap runs in place on the slice of them.
 Every method is one critical section, and the clock is a parameter.
 */
module OpportunityQueues {
  import opened Common
  import opened PriorityHeap
  import opened ExpirySweep

  class QueuedOpportunity {
    var opp: Opp
    var index: int

    constructor (o: Opp)
      ensures opp == o
    {
      opp := o;
      index := 0;
    }
  }

  /** Executions that started more than the timeout ago. */
  function Overdue(executing: map<Id, int>, now: int, timeout: int): set<Id> {
    set id | id in executing && now - executing[id] > timeout
  }

  function Stamped(completed: map<Id, int>, ids: set<Id>, now: int): map<Id, int> {
    completed + map id | id in ids :: now
  }

  /** Which executions are over, and what that leaves, in terms of their starting times. */
  lemma TimedOutTerms(executing: map<Id, int>, completed: map<Id, int>, now: int, timeout: int)
    ensures var late := Overdue(executing, now, timeout);
            var e, c := executing - late, Stamped(completed, late, now);
            && (forall id :: id in e <==> id in executing && now - executing[id] <= timeout)
            && (forall id | id in e :: e[id] == executing[id])
            && (forall id | id in executing && now - executing[id] > timeout :: id in c && c[id] == now)
            && (forall id | !(id in executing && now - executing[id] > timeout) ::
                  (id in c <==> id in completed) && (id in c ==> c[id] == completed[id]))
  {
  }

  method EndOverdue(executing: map<Id, int>, completed: map<Id, int>, now: int, timeout: int) returns (e: map<Id, int>, c: map<Id, int>)
    ensures var late := Overdue(executing, now, timeout); e == executing - late && c == Stamped(completed, late, now)
  {
    ghost var late := Overdue(executing, now, timeout);
    e, c := executing, completed;
    var todo := executing.Keys;
    NoneEnded(executing, completed, late, now);
    hide Stamped;
    while todo != {}
      invariant todo <= executing.Keys && e == executing - (late - todo) && c == Stamped(completed, late - todo, now)
    {
      var id :| id in todo;
      OneEnded(executing, completed, late, todo, id, now);
      todo := todo - {id};
      if now - e[id] > timeout {
        e := e - {id};
        c := c[id := now];
      }
    }
    assert late - todo == late;
  }

  lemma NoneEnded(executing: map<Id, int>, completed: map<Id, int>, late: set<Id>, now: int)
    requires late <= executing.Keys
    ensures executing - (late - executing.Keys) == executing && Stamped(completed, late - executing.Keys, now) == completed
  {
    assert late - executing.Keys == {};
  }

  lemma OneEnded(executing: map<Id, int>, completed: map<Id, int>, late: set<Id>, todo: set<Id>, id: Id, now: int)
    requires id in todo && todo <= executing.Keys
    ensures var before, after := late - todo, late - (todo - {id});
            && id in executing - before && (executing - before)[id] == executing[id]
            && (id in late ==> executing - after == executing - before - {id} && Stamped(completed, after, now) == Stamped(completed, before, now)[id := now])
            && (id !in late ==> after == before)
  {
    var before, after := late - todo, late - (todo - {id});
    if id in late { assert after == before + {id}; } else { assert after == before; }
  }

  class OpportunityQueue {
    var items: seq<QueuedOpportunity>
    var byID: map<Id, QueuedOpportunity>
    var executing: map<Id, int>
    var completed: map<Id, int>
    const maxSize: int
    const maxConcurrent: int
    const executionTimeout: int
    const cooldownPeriod: int
    var enqueued: nat
    var dequeued: nat
    var expired: nat
    var duplicates: nat
    ghost var removed: nat                    // items taken out by Remove
    ghost var keys: seq<Opp>                  // the opportunities by heap slot
    ghost var queued: set<QueuedOpportunity>  // the objects in the slots

    /** Every slot holds a queued object that knows its slot, and every queued object has one. */
    ghost predicate Indexed()
      reads this`items, this`keys, this`queued, queued
    {
      && |items| == |keys|
      && (forall k | 0 <= k < |items| :: items[k] in queued && items[k].index == k && items[k].opp == keys[k])
      && (forall o | o in queued :: 0 <= o.index < |items| && items[o.index] == o)
    }

    /** byID is a bijection between identifiers and queued objects. */
    ghost predicate Linked()
      reads this`byID, this`queued, queued`opp
    {
      && (forall id | id in byID :: byID[id] in queued && byID[id].opp.id == id)
      && (forall o | o in queued :: o.opp.id in byID && byID[o.opp.id] == o)
    }

    ghost predicate Sound()
      reads this`items, this`keys, this`queued, this`byID, queued
    {
      Indexed() && Linked() && Heap(keys)
    }

    ghost predicate Valid()
      reads this, queued
    {
      && Sound()
      && |items| <= Max(1, maxSize) && |executing| <= Max(0, maxConcurrent)
      && enqueued == |items| + dequeued + expired + removed
    }

    constructor (maxSize: int, maxConcurrent: int, executionTimeout: int, cooldownPeriod: int)
      ensures Valid() && keys == [] && executing == map[] && completed == map[]
      ensures enqueued == dequeued == expired == duplicates == 0
      ensures this.maxSize == maxSize && this.maxConcurrent == maxConcurrent
      ensures this.executionTimeout == executionTimeout && this.cooldownPeriod == cooldownPeriod
    {
      this.maxSize, this.maxConcurrent := maxSize, maxConcurrent;
      this.executionTimeout, this.cooldownPeriod := executionTimeout, cooldownPeriod;
      items, byID, executing, completed := [], map[], map[], map[];
      enqueued, dequeued, expired, duplicates, removed := 0, 0, 0, 0, 0;
      keys, queued := [], {};
    }

    // ---------- container/heap in place ----------

    method SwapSlots(i: nat, j: nat)
      requires Indexed() && i < |items| && j < |items|
      modifies this`items, this`keys, queued`index
      ensures Indexed() && keys == Swap(old(keys), i, j)
      ensures items == old(items)[i := old(items)[j]][j := old(items)[i]]
    {
      items := items[i := items[j]][j := items[i]];
      items[i].index := i;
      items[j].index := j;
      keys := Swap(keys, i, j);
    }

    method SiftUp(j0: nat)
      requires Indexed() && j0 < |items|
      modifies this`items, this`keys, queued`index
      ensures Indexed() && keys == Up(old(keys), j0)
      ensures forall k | j0 < k < |items| :: items[k] == old(items)[k]
    {
      hide Swap;
      var j: nat := j0;
      while j > 0 && Less(items[j].opp, items[(j - 1) / 2].opp)
        invariant j <= j0 < |items| == old(|items|) && Indexed()
        invariant Up(keys, j) == Up(old(keys), j0)
        invariant forall k | j0 < k < |items| :: items[k] == old(items)[k]
        decreases j
      {
        SwapSlots((j - 1) / 2, j);
        j := (j - 1) / 2;
      }
    }

    method BetterChild(i: nat, n: nat) returns (j: nat)
      requires Indexed() && 2 * i + 1 < n <= |items|
      ensures j == Child(keys, i, n)
    {
      j := 2 * i + 1;
      if j + 1 < n && Less(items[j + 1].opp, items[j].opp) { j := j + 1; }
    }

    method SiftDown(i0: nat, n: nat) returns (moved: bool)
      requires Indexed() && i0 < n <= |items|
      modifies this`items, this`keys, queued`index
      ensures Indexed() && keys == Down(old(keys), i0, n) && moved == Moves(old(keys), i0, n)
      ensures forall k | n <= k < |items| :: items[k] == old(items)[k]
    {
      hide Down, Swap, Child, Less;
      var i: nat := i0;
      while true
        invariant i0 <= i < n <= |items| == old(|items|) && Indexed()
        invariant Down(keys, i, n) == Down(old(keys), i0, n)
        invariant forall k | n <= k < |items| :: items[k] == old(items)[k]
        invariant if i == i0 then keys == old(keys) else Moves(old(keys), i0, n)
        decreases n - i
      {
        DownUnfold(keys, i, n);
        if 2 * i + 1 >= n { break; }
        var j := BetterChild(i, n);
        if !Less(items[j].opp, items[i].opp) { break; }
        SwapSlots(i, j);
        i := j;
      }
      moved := i > i0;
    }

    /** Down if that moves the slot, else up. */
    method SettleSlot(i: nat, n: nat)
      requires Indexed() && i < n <= |items|
      modifies this`items, this`keys, queued`index
      ensures Indexed() && keys == Settle(old(keys), i, n) && |items| == old(|items|)
      ensures forall k | n <= k < |items| :: items[k] == old(items)[k]
    {
      hide Down, Up, Moves, Child;
      DownUnfold(keys, i, n);
      var moved := SiftDown(i, n);
      if !moved { SiftUp(i); }
    }

    /** The slice's own Pop: drops the last slot. */
    method DropSlot() returns (item: QueuedOpportunity)
      requires Indexed() && items != []
      modifies this`items, this`keys, this`queued, queued`index
      ensures Indexed() && keys == old(keys)[..|old(keys)| - 1]
      ensures item == old(items)[old(|items|) - 1] && queued == old(queued) - {item}
    {
      var n := |items| - 1;
      item := items[n];
      items := items[..n];
      item.index := -1;
      keys, queued := keys[..n], queued - {item};
    }

    method HeapPush(item: QueuedOpportunity)
      requires Indexed() && item !in queued
      modifies this`items, this`keys, this`queued, queued`index, item`index
      ensures Indexed() && keys == Push(old(keys), item.opp) && queued == old(queued) + {item}
    {
      hide Up;
      item.index := |items|;
      items := items + [item];
      keys, queued := keys + [item.opp], queued + {item};
      SiftUp(|items| - 1);
    }

    method HeapRemove(i: nat) returns (item: QueuedOpportunity)
      requires Indexed() && i < |items|
      modifies this`items, this`keys, this`queued, queued`index
      ensures item == old(items)[i]
      ensures Indexed() && keys == RemoveAt(old(keys), i) && queued == old(queued) - {item}
    {
      hide Settle, Swap;
      var n := |items| - 1;
      if n != i {
        SwapSlots(i, n);
        SettleSlot(i, n);
      }
      assert keys == MoveLast(old(keys), i);
      item := DropSlot();
    }

    // ---------- the queue ----------

    /** heap.Remove together with the deletion from byID. */
    method Detach(i: nat) returns (item: QueuedOpportunity)
      requires Sound() && i < |items|
      modifies this`items, this`keys, this`queued, this`byID, queued`index
      ensures Sound() && keys == RemoveAt(old(keys), i) && |items| == old(|items|) - 1
      ensures item == old(items)[i] && item.opp == old(keys)[i]
      ensures byID == old(byID) - {item.opp.id} && queued == old(queued) - {item}
    {
      hide RemoveAt, Heap;
      RemoveAtKeepsHeap(keys, i);
      item := HeapRemove(i);
      byID := byID - {item.opp.id};
    }

    method Attach(opp: Opp)
      requires Sound() && opp.id !in byID
      modifies this`items, this`keys, this`queued, this`byID, queued`index
      ensures Sound() && keys == Push(old(keys), opp) && |items| == old(|items|) + 1
      ensures byID.Keys == old(byID).Keys + {opp.id} && fresh(queued - old(queued))
    {
      var q := new QueuedOpportunity(opp);
      assert q !in queued;
      hide *;
      AttachItem(q);
    }

    method AttachItem(q: QueuedOpportunity)
      requires Sound() && q !in queued && q.opp.id !in byID
      modifies this`items, this`keys, this`queued, this`byID, queued`index, q`index
      ensures Sound() && keys == Push(old(keys), q.opp) && |items| == old(|items|) + 1
      ensures byID == old(byID)[q.opp.id := q] && queued == old(queued) + {q}
    {
      hide Push, Heap, Indexed;
      PushKeepsHeap(keys, q.opp);
      PushSize(keys, q.opp);
      SizeKept();
      HeapPush(q);
      SizeKept();
      byID := byID[q.opp.id := q];
    }

    lemma SizeKept()
      requires Indexed()
      ensures |items| == |keys|
    {
    }

    /** Turns an arrival away if it is queued already or cooling down, or if the queue is full and it does
        not beat the "lowest" item, which is the one in the last heap slot and need not be the worst. */
    method Enqueue(opp: Opp, now: int) returns (ok: bool)
      requires Valid()
      modifies this, queued`index
      ensures Valid() && fresh(queued - old(queued))
      ensures dequeued == old(dequeued) && removed == old(removed) && executing == old(executing)
      ensures duplicates == old(duplicates) + if opp.id in old(byID) then 1 else 0
      ensures enqueued == old(enqueued) + if ok then 1 else 0
      ensures expired == old(expired) + if ok && old(|keys|) >= maxSize && old(keys) != [] then 1 else 0
      ensures ok <==>
              && opp.id !in old(byID)
              && !(opp.id in old(completed) && now - old(completed)[opp.id] < cooldownPeriod)
              && !(old(|keys|) >= maxSize && old(keys) != [] && opp.priority <= old(keys)[old(|keys|) - 1].priority)
      ensures completed == if opp.id in old(byID) || (opp.id in old(completed) && now - old(completed)[opp.id] < cooldownPeriod)
                           then old(completed) else old(completed) - {opp.id}
      ensures !ok ==> keys == old(keys) && byID == old(byID)
      ensures ok && (old(|keys|) < maxSize || old(keys) == []) ==> multiset(keys) == multiset(old(keys)) + multiset{opp}
      ensures ok && old(|keys|) >= maxSize && old(keys) != [] ==>
              var evicted := old(keys)[old(|keys|) - 1];
              evicted.priority < opp.priority && multiset(keys) == multiset(old(keys)) - multiset{evicted} + multiset{opp}
    {
      BagAfter(opp);
      hide Push, Sound;
      if opp.id in byID {
        duplicates := duplicates + 1;
        return false;
      }
      if opp.id in completed {
        if now - completed[opp.id] < cooldownPeriod { return false; }
        completed := completed - {opp.id};
      }
      ok := Admit(opp);
    }

    /** The capacity check and the insertion. */
    method Admit(opp: Opp) returns (ok: bool)
      requires Valid() && opp.id !in byID
      modifies this`items, this`keys, this`queued, this`byID, this`expired, this`enqueued, queued`index
      ensures Valid() && fresh(queued - old(queued))
      ensures ok == !(old(|keys|) >= maxSize && old(keys) != [] && opp.priority <= old(keys)[old(|keys|) - 1].priority)
      ensures enqueued == old(enqueued) + if ok then 1 else 0
      ensures expired == old(expired) + if ok && old(|keys|) >= maxSize && old(keys) != [] then 1 else 0
      ensures !ok ==> keys == old(keys) && byID == old(byID)
      ensures ok ==> keys == Push(if old(|keys|) >= maxSize && old(keys) != [] then old(keys)[..|old(keys)| - 1] else old(keys), opp)
    {
      hide Push, Sound, RemoveAt;
      SoundSlots();
      if |items| >= maxSize && |items| > 0 {
        var lowest := items[|items| - 1];
        if opp.priority <= lowest.opp.priority { return false; }
        RemoveLast(keys);
        var evicted := Detach(lowest.index);
        expired := expired + 1;
      }
      Attach(opp);
      enqueued := enqueued + 1;
      ok := true;
    }

    lemma BagAfter(opp: Opp)
      requires Sound()
      ensures multiset(Push(keys, opp)) == multiset(keys) + multiset{opp}
      ensures keys != [] ==> multiset(Push(keys[..|keys| - 1], opp)) == multiset(keys) - multiset{keys[|keys| - 1]} + multiset{opp}
    {
      PushKeepsHeap(keys, opp);
      if keys != [] {
        RemoveAtKeepsHeap(keys, |keys| - 1);
        RemoveLast(keys);
        PushKeepsHeap(keys[..|keys| - 1], opp);
      }
    }

    lemma SoundSlots()
      requires Sound()
      ensures Heap(keys) && |items| == |keys|
      ensures forall k | 0 <= k < |items| :: items[k].index == k && items[k].opp == keys[k]
    {
    }

    /** Gives up on executions past their deadline, then sweeps the expired items. */
    method RemoveExpired(now: int)
      requires Valid()
      modifies this`items, this`keys, this`queued, this`byID, this`executing, this`completed, this`expired, queued`index
      ensures Valid() && queued <= old(queued)
      ensures executing == old(executing) - Overdue(old(executing), now, executionTimeout)
      ensures completed == Stamped(old(completed), Overdue(old(executing), now, executionTimeout), now)
      ensures keys == Sweep(old(keys), ExpiredSlots(old(keys), now))
      ensures expired == old(expired) + |ExpiredSlots(old(keys), now)|
      ensures |keys| == old(|keys|) - |LateSlots(old(keys), now)|
      ensures (forall k | 0 <= k < |keys| :: now <= keys[k].expiresAt) <==> Undisturbed(old(keys), ExpiredSlots(old(keys), now))
    {
      SweptTerms(keys, now);
      hide Sound, Sweep, ExpiredSlots, AllLive, Undisturbed, Overdue, Stamped;
      ghost var before := executing;
      TimeOut(now);
      SubmapSize(executing, before);
      SweepExpired(now);
    }

    method SweepExpired(now: int)
      requires Valid()
      modifies this`items, this`keys, this`queued, this`byID, this`expired, queued`index
      ensures Valid() && queued <= old(queued)
      ensures keys == Sweep(old(keys), ExpiredSlots(old(keys), now))
      ensures expired == old(expired) + |ExpiredSlots(old(keys), now)|
      ensures (forall k | 0 <= k < |keys| :: now <= keys[k].expiresAt) <==> Undisturbed(old(keys), ExpiredSlots(old(keys), now))
    {
      hide *;
      SweepOutcome(now);
      var toRemove := CollectExpired(now);
      SweepSlots(toRemove);
    }

    lemma SweepOutcome(now: int)
      requires Valid()
      ensures Sound() && Slots(ExpiredSlots(keys, now), |keys|)
      ensures (forall k | 0 <= k < |Sweep(keys, ExpiredSlots(keys, now))| :: now <= Sweep(keys, ExpiredSlots(keys, now))[k].expiresAt)
         <==> Undisturbed(keys, ExpiredSlots(keys, now))
    {
      SweepLeavesLiveIff(keys, now);
    }

    /** Ends exactly the executions that have run for longer than the timeout, and starts their cooldown. */
    method TimeOut(now: int)
      modifies this`executing, this`completed
      ensures executing == old(executing) - Overdue(old(executing), now, executionTimeout)
      ensures completed == Stamped(old(completed), Overdue(old(executing), now, executionTimeout), now)
      ensures forall id :: id in executing <==> id in old(executing) && now - old(executing)[id] <= executionTimeout
      ensures forall id | id in executing :: executing[id] == old(executing)[id]
      ensures forall id | id in old(executing) && now - old(executing)[id] > executionTimeout :: id in completed && completed[id] == now
      ensures forall id | !(id in old(executing) && now - old(executing)[id] > executionTimeout) ::
                (id in completed <==> id in old(completed)) && (id in completed ==> completed[id] == old(completed)[id])
    {
      TimedOutTerms(executing, completed, now, executionTimeout);
      hide *;
      executing, completed := EndOverdue(executing, completed, now, executionTimeout);
    }

    method CollectExpired(now: int) returns (toRemove: seq<nat>)
      requires Sound()
      ensures toRemove == ExpiredSlots(keys, now)
    {
      toRemove := [];
      for i := 0 to |items|
        invariant toRemove == ExpiredSlots(keys[..i], now)
      {
        assert keys[..i + 1][..i] == keys[..i];
        if now > items[i].opp.expiresAt {
          toRemove := toRemove + [i];
        }
      }
      assert keys[..|items|] == keys;
    }

    method SweepSlots(toRemove: seq<nat>)
      requires Valid() && Slots(toRemove, |keys|)
      modifies this`items, this`keys, this`queued, this`byID, this`expired, queued`index
      ensures Valid() && queued <= old(queued)
      ensures keys == Sweep(old(keys), toRemove) && expired == old(expired) + |toRemove|
    {
      hide RemoveAt, Sound;
      SoundSlots();
      var k := |toRemove|;
      assert toRemove[..k] == toRemove;
      while k > 0
        invariant 0 <= k <= |toRemove| && Valid() && |items| == |keys| && Slots(toRemove[..k], |keys|)
        invariant queued <= old(queued) && expired == old(expired) + |toRemove| - k
        invariant Sweep(keys, toRemove[..k]) == Sweep(old(keys), toRemove)
      {
        k := k - 1;
        assert toRemove[..k + 1][..k] == toRemove[..k];
        SlotBound(toRemove[..k + 1], |keys|, k);
        var item := Detach(toRemove[k]);
        expired := expired + 1;
        SoundSlots();
      }
    }

    /** Hands out the best queued item after the sweep, unless the concurrency bound is reached. */
    method Dequeue(now: int) returns (r: Option<Opp>)
      requires Valid()
      modifies this, queued`index
      ensures Valid() && queued <= old(queued)
      ensures enqueued == old(enqueued) && removed == old(removed) && duplicates == old(duplicates)
      ensures old(|executing|) >= maxConcurrent ==>
                r.None? && keys == old(keys) && executing == old(executing) && completed == old(completed) && expired == old(expired)
      ensures old(|executing|) < maxConcurrent ==>
                var slots := ExpiredSlots(old(keys), now);
                var left := Sweep(old(keys), slots);
                && expired == old(expired) + |slots|
                && (r.None? ==> left == [] && keys == [])
                && (r.Some? ==> left != [] && r.value == left[0] && keys == RemoveAt(left, 0))
      ensures dequeued == old(dequeued) + if r.Some? then 1 else 0
      ensures old(|executing|) < maxConcurrent ==>
                var late := Overdue(old(executing), now, executionTimeout);
                && completed == Stamped(old(completed), late, now)
                && executing == if r.Some? then (old(executing) - late)[r.value.id := now] else old(executing) - late
      ensures r.Some? ==> r.value.id !in byID
      ensures r.Some? ==> forall x | x in keys :: x.priority < r.value.priority || (x.priority == r.value.priority && x.detectedAt >= r.value.detectedAt)
    {
      hide RemoveAt, Sound, Sweep, ExpiredSlots, Less, Stamped;
      if |executing| >= maxConcurrent { return None; }
      ghost var running := executing;
      RemoveExpired(now);
      SubmapSize(executing, running);
      SoundSlots();
      if |items| == 0 { return None; }
      var best := TakeBest(now);
      r := Some(best);
    }

    /** Pops the root of the heap and records it as executing. */
    method TakeBest(now: int) returns (best: Opp)
      requires Valid() && keys != [] && |executing| < maxConcurrent
      modifies this`items, this`keys, this`queued, this`byID, this`executing, this`dequeued, queued`index
      ensures Valid() && queued <= old(queued) && dequeued == old(dequeued) + 1
      ensures best == old(keys)[0] && keys == RemoveAt(old(keys), 0)
      ensures executing == old(executing)[best.id := now] && best.id !in byID
      ensures forall x | x in keys :: x.priority < best.priority || (x.priority == best.priority && x.detectedAt >= best.detectedAt)
    {
      hide Sound, RemoveAt, Less, Heap;
      best := PopRoot();
      dequeued := dequeued + 1;
      executing := executing[best.id := now];
    }

    method PopRoot() returns (best: Opp)
      requires Sound() && keys != []
      modifies this`items, this`keys, this`queued, this`byID, queued`index
      ensures Sound() && queued <= old(queued) && |items| == old(|items|) - 1
      ensures best == old(keys)[0] && keys == RemoveAt(old(keys), 0) && best.id !in byID
      ensures forall x | x in keys :: x.priority < best.priority || (x.priority == best.priority && x.detectedAt >= best.detectedAt)
    {
      SoundSlots();
      RootBeatsRest(keys);
      hide *;
      var item := Detach(0);
      best := item.opp;
    }

    method MarkComplete(id: Id, now: int)
      requires Valid()
      modifies this`executing, this`completed
      ensures Valid() && executing == old(executing) - {id} && completed == old(completed)[id := now]
    {
      hide Sound;
      SubmapSize(executing - {id}, executing);
      executing := executing - {id};
      completed := completed[id := now];
    }

    method UpdatePriority(id: Id, newPriority: int) returns (ok: bool)
      requires Valid()
      modifies this`items, this`keys, queued
      ensures Valid() && ok == (id in byID)
      ensures !ok ==> keys == old(keys)
      ensures ok ==> exists x | x in old(keys) ::
                && x.id == id
                && multiset(keys) == multiset(old(keys)) - multiset{x} + multiset{x.(priority := newPriority)}
    {
      hide Settle, Heap, Indexed, Linked;
      if id !in byID { return false; }
      var item := byID[id];
      SoundEntry(id);
      ghost var x := keys[item.index].(priority := newPriority);
      FixKeepsHeap(keys, item.index, x);
      Overwrite(item, newPriority);
      SettleSlot(item.index, |items|);
      ok := true;
    }

    lemma SoundEntry(id: Id)
      requires Sound() && id in byID
      ensures var o := byID[id];
              o in queued && 0 <= o.index < |items| == |keys| && keys[o.index].id == id && keys[o.index] == o.opp
    {
    }

    method Overwrite(item: QueuedOpportunity, newPriority: int)
      requires Indexed() && Linked() && item in queued
      modifies this`keys, queued`opp
      ensures Indexed() && Linked()
      ensures keys == old(keys)[item.index := old(item.opp).(priority := newPriority)]
    {
      item.opp := item.opp.(priority := newPriority);
      keys := keys[item.index := item.opp];
    }

    method Remove(id: Id) returns (ok: bool)
      requires Valid()
      modifies this`items, this`keys, this`queued, this`byID, this`removed, queued`index
      ensures Valid() && ok == (id in old(byID)) && byID.Keys == old(byID).Keys - {id}
      ensures removed == old(removed) + if ok then 1 else 0
      ensures !ok ==> keys == old(keys)
      ensures ok ==> exists x | x in old(keys) :: x.id == id && multiset(keys) == multiset(old(keys)) - multiset{x}
    {
      hide RemoveAt, Sound;
      if id !in byID { return false; }
      var item := byID[id];
      SoundEntry(id);
      SoundSlots();
      RemoveAtKeepsHeap(keys, item.index);
      assert keys[item.index] in keys && keys[item.index].id == id;
      var _ := Detach(item.index);
      removed := removed + 1;
      ok := true;
    }
  }

  lemma PushSize(s: seq<Opp>, x: Opp)
    ensures |Push(s, x)| == |s| + 1
  {
  }

  lemma RemoveLast(s: seq<Opp>)
    requires s != []
    ensures RemoveAt(s, |s| - 1) == s[..|s| - 1]
  {
  }

  lemma RootBeatsRest(s: seq<Opp>)
    requires Heap(s) && s != []
    ensures forall x | x in RemoveAt(s, 0) :: x.priority < s[0].priority || (x.priority == s[0].priority && x.detectedAt >= s[0].detectedAt)
  {
    RemoveAtKeepsHeap(s, 0);
    forall x | x in RemoveAt(s, 0) ensures x.priority < s[0].priority || (x.priority == s[0].priority && x.detectedAt >= s[0].detectedAt) {
      assert x in multiset(RemoveAt(s, 0));
      assert x in multiset(s);
      var k :| 0 <= k < |s| && s[k] == x;
      RootIsBest(s, k);
    }
  }

  lemma SubmapSize(m: map<Id, int>, n: map<Id, int>)
    requires m.Keys <= n.Keys
    ensures |m| <= |n|
  {
    KeysSize(m.Keys, n.Keys);
    assert |m.Keys| == |m| && |n.Keys| == |n|;
  }

  lemma {:induction false} KeysSize(a: set<Id>, b: set<Id>)
    requires a <= b
    ensures |a| <= |b|
  {
    if x :| x in a {
      KeysSize(a - {x}, b - {x});
    }
  }
}
