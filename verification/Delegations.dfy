/**
 Delegation trees of identity/delegation.go: a delegate may hand a delegation on, each hand-over
 hangs below its parent, and revoking a delegation revokes everything below it.

 Ideal primitives: a signature is the pair of signer and signed record, and the identifier of a
 delegation is the tuple of the five fields that GenerateID hashes (a collision-free hash that is
 never zero, so the zero parent is None).
 */
module Delegations {
  import opened Common

  type Address = nat
  type Stream = nat
  type Operation = string

  datatype Id = Id(delegator: Address, delegate: Address, rightType: string, streamId: Stream, created: int)

  datatype Scope = Scope(allowedOperations: seq<Operation>, readOnly: bool,
                         layerRestriction: seq<int>, maxDataSize: int)

  datatype Policy = Policy(requireReason: bool, notifyDelegator: bool,
                           rateLimitPerHour: int, rateLimitPerDay: int,
                           allowSubDelegation: bool, subDelegationRequiresApproval: bool,
                           inheritPolicyToSubDelegates: bool, revokeOnCompromise: bool)

  datatype Signature = Unsigned | Signed(signer: Address, message: Delegation)

  datatype Delegation = Delegation(
    id: Id, delegator: Address, delegate: Address, rightType: string, streamId: Stream, scope: Scope,
    depth: int, currentDepth: int, parent: Option<Id>,
    created: int, validFrom: int, validUntil: int, policy: Policy,
    revoked: bool, revokedAt: int, revokedBy: Address, signature: Signature)

  datatype Tracker = Tracker(hourlyUses: int, dailyUses: int, hourlyReset: int, dailyReset: int)

  datatype Error = NotFound | NotAuthorized | NotDelegate | NoSubDelegation | Invalid
                 | OperationNotAllowed | HourlyLimit | DailyLimit | ChainBreak

  type Registry = map<Id, Delegation>
  type Children = map<Id, seq<Id>>
  type Usage = map<Id, Tracker>

  // ---------- one delegation ----------

  function Sign(d: Delegation): Delegation {
    d.(signature := Signed(d.delegator, d.(signature := Unsigned)))
  }

  predicate Verify(d: Delegation) {
    d.signature.Signed? && d.signature.signer == d.delegator && d.signature.message == d.(signature := Unsigned)
  }

  /** The validity window; a validUntil of zero or less means no expiry. */
  predicate InWindow(d: Delegation, now: int) {
    d.validFrom <= now && !(d.validUntil > 0 && now > d.validUntil)
  }

  predicate IsValid(d: Delegation, now: int) {
    !d.revoked && InWindow(d, now) && Verify(d)
  }

  predicate CanSubDelegate(d: Delegation, now: int) {
    IsValid(d, now) && d.policy.allowSubDelegation && d.depth > 0
  }

  const EmptyPolicy := Policy(false, false, 0, 0, false, false, false, false)

  function CappedExpiry(d: Delegation, validUntil: int): int {
    if d.validUntil > 0 && (validUntil == 0 || validUntil > d.validUntil) then d.validUntil else validUntil
  }

  function SubId(d: Delegation, delegate: Address, now: int): Id {
    Id(d.delegate, delegate, d.rightType, d.streamId, now)
  }

  /** The signed child record that a successful sub-delegation produces. */
  function SubDelegation(d: Delegation, delegate: Address, validUntil: int, now: int): Delegation {
    Sign(Delegation(SubId(d, delegate, now), d.delegate, delegate, d.rightType, d.streamId, d.scope,
                    d.depth - 1, d.currentDepth + 1, Some(d.id), now, now, CappedExpiry(d, validUntil),
                    if d.policy.inheritPolicyToSubDelegates then d.policy
                    else EmptyPolicy.(allowSubDelegation := d.depth > 1),
                    false, 0, 0, Unsigned))
  }

  function RootDelegation(delegator: Address, delegate: Address, rightType: string, streamId: Stream,
                          scope: Scope, depth: int, validUntil: int, policy: Policy, now: int): Delegation {
    Sign(Delegation(Id(delegator, delegate, rightType, streamId, now), delegator, delegate, rightType, streamId,
                    scope, depth, 0, None, now, now, validUntil, policy, false, 0, 0, Unsigned))
  }

  function Revoke(d: Delegation, revoker: Address, now: int): Delegation {
    d.(revoked := true, revokedAt := now, revokedBy := revoker)
  }

  /** A fresh root: signed by its delegator, live from now on, on the terms asked for. */
  lemma RootTerms(delegator: Address, delegate: Address, rightType: string, streamId: Stream,
                  scope: Scope, depth: int, validUntil: int, policy: Policy, now: int)
    ensures var d := RootDelegation(delegator, delegate, rightType, streamId, scope, depth, validUntil, policy, now);
            && Verify(d) && d.signature.signer == delegator && d.delegator == delegator && d.delegate == delegate
            && d.rightType == rightType && d.streamId == streamId && d.scope == scope && d.policy == policy
            && d.depth == depth && d.currentDepth == 0 && d.parent.None? && !d.revoked && d.revokedAt == 0 && d.revokedBy == 0
            && d.created == now && d.validFrom == now && d.validUntil == validUntil
            && d.id.delegator == delegator && d.id.delegate == delegate && d.id.rightType == rightType
            && d.id.streamId == streamId && d.id.created == now
            && forall t :: IsValid(d, t) <==> t >= now && (validUntil <= 0 || t <= validUntil)
  {
  }

  /** A hand-over: signed by the delegate of the parent, on the parent's right, stream and scope, one
      level down; it never outlives a bounded parent unless its expiry is negative; and the parent's
      policy, rate limits included, is passed on whole or not at all. */
  lemma SubTerms(p: Delegation, delegate: Address, validUntil: int, now: int)
    ensures var d := SubDelegation(p, delegate, validUntil, now);
            && Verify(d) && d.signature.signer == p.delegate && d.delegator == p.delegate && d.delegate == delegate
            && d.rightType == p.rightType && d.streamId == p.streamId && d.scope == p.scope
            && d.depth + 1 == p.depth && d.currentDepth == p.currentDepth + 1 && d.parent == Some(p.id)
            && !d.revoked && d.revokedAt == 0 && d.revokedBy == 0
            && d.created == now && d.validFrom == now
            && d.id.delegator == p.delegate && d.id.delegate == delegate && d.id.rightType == p.rightType
            && d.id.streamId == p.streamId && d.id.created == now
            && (p.validUntil <= 0 ==> d.validUntil == validUntil)
            && (p.validUntil > 0 && validUntil == 0 ==> d.validUntil == p.validUntil)
            && (p.validUntil > 0 && validUntil != 0 ==> d.validUntil == Min(validUntil, p.validUntil))
            && (p.policy.inheritPolicyToSubDelegates ==> d.policy == p.policy)
            && (!p.policy.inheritPolicyToSubDelegates ==>
                  && d.policy.rateLimitPerHour == d.policy.rateLimitPerDay == 0
                  && !d.policy.requireReason && !d.policy.notifyDelegator && !d.policy.subDelegationRequiresApproval
                  && !d.policy.inheritPolicyToSubDelegates && !d.policy.revokeOnCompromise
                  && (d.policy.allowSubDelegation <==> d.depth >= 1))
  {
  }

  /** A revoked record is never valid again, keeps its terms and names who revoked it and when. */
  lemma RevokedTerms(d: Delegation, revoker: Address, now: int)
    ensures var r := Revoke(d, revoker, now);
            && r.revoked && r.revokedBy == revoker && r.revokedAt == now && (forall t :: !IsValid(r, t))
            && r.(revoked := d.revoked, revokedBy := d.revokedBy, revokedAt := d.revokedAt) == d
  {
  }

  /** A child's window lies inside its parent's exactly when a bounded parent is not given a
      negative expiry: a negative validUntil escapes the cap and reads as "never expires". */
  lemma ExpiryCappedIff(d: Delegation, delegate: Address, validUntil: int, now: int)
    requires CanSubDelegate(d, now)
    ensures (forall t :: InWindow(SubDelegation(d, delegate, validUntil, now), t) ==> InWindow(d, t))
       <==> !(d.validUntil > 0 && validUntil < 0)
  {
    var c := SubDelegation(d, delegate, validUntil, now);
    if d.validUntil > 0 && validUntil < 0 {
      var late := Max(now, d.validUntil + 1);
      assert InWindow(c, late) && !InWindow(d, late);
    }
  }

  /** So a child of a delegation bounded for ten seconds can be without end. */
  lemma NegativeExpiryEscapes(scope: Scope, now: int)
    requires now > 0
    ensures var a := RootDelegation(1, 2, "read", 0, scope, 3, now + 10, EmptyPolicy.(allowSubDelegation := true), now);
            var b := SubDelegation(a, 3, -1, now);
            CanSubDelegate(a, now) && InWindow(b, now + 11) && !InWindow(a, now + 11)
  {
  }

  // ---------- the tree ----------

  /** What a child inherits: it never gets more authority, depth or lifetime than its parent. */
  ghost predicate Within(p: Delegation, c: Delegation) {
    && c.delegator == p.delegate && c.scope == p.scope && c.rightType == p.rightType && c.streamId == p.streamId
    && c.depth == p.depth - 1 && 0 <= c.depth && c.currentDepth == p.currentDepth + 1
    && p.validFrom <= c.validFrom && (p.validUntil > 0 ==> 0 < c.validUntil <= p.validUntil)
  }

  ghost predicate Node(m: Registry, id: Id)
    requires id in m
  {
    && m[id].id == id && 0 <= m[id].currentDepth
    && (m[id].parent.None? ==> m[id].currentDepth == 0)
    && (m[id].parent.Some? ==> m[id].parent.value in m && Within(m[m[id].parent.value], m[id]))
  }

  ghost predicate Tree(m: Registry) {
    forall id {:trigger Node(m, id)} | id in m :: Node(m, id)
  }

  ghost predicate Mirrored(m: Registry, children: Children) {
    forall p, c :: (p in children && c in children[p]) <==> (c in m && m[c].parent == Some(p))
  }

  ghost predicate ClosedAt(m: Registry, id: Id)
    requires id in m
  {
    m[id].parent.Some? ==> m[id].parent.value in m && (m[m[id].parent.value].revoked ==> m[id].revoked)
  }

  ghost predicate RevokedClosed(m: Registry) {
    forall id {:trigger ClosedAt(m, id)} | id in m :: ClosedAt(m, id)
  }

  ghost predicate LiveSigned(m: Registry) {
    forall id | id in m && !m[id].revoked :: Verify(m[id])
  }

  predicate WithinLimits(p: Policy, t: Tracker) {
    && 0 <= t.hourlyUses && 0 <= t.dailyUses
    && (p.rateLimitPerHour > 0 ==> t.hourlyUses <= p.rateLimitPerHour)
    && (p.rateLimitPerDay > 0 ==> t.dailyUses <= p.rateLimitPerDay)
  }

  ghost predicate Tracked(m: Registry, usage: Usage) {
    usage.Keys == m.Keys && forall id | id in m :: WithinLimits(m[id].policy, usage[id])
  }

  /** x lies in the subtree rooted at a. */
  ghost predicate InSubtree(m: Registry, x: Id, a: Id)
    requires Tree(m) && x in m
    decreases m[x].currentDepth
  {
    assert Node(m, x);
    x == a || (m[x].parent.Some? && InSubtree(m, m[x].parent.value, a))
  }

  /** The chain of a delegation, root first. */
  function Chain(m: Registry, id: Id): (chain: seq<Delegation>)
    requires Tree(m) && id in m
    ensures |chain| == m[id].currentDepth + 1
    decreases m[id].currentDepth
  {
    assert Node(m, id);
    match m[id].parent
    case None => [m[id]]
    case Some(p) => Chain(m, p) + [m[id]]
  }

  predicate ChainVerifies(chain: seq<Delegation>, now: int) {
    && chain != []
    && (forall i | 0 <= i < |chain| :: IsValid(chain[i], now))
    && (forall i | 0 < i < |chain| :: chain[i].parent == Some(chain[i-1].id))
    && (forall i | 0 < i < |chain| :: chain[i].delegator == chain[i-1].delegate)
  }

  /** The local check implies the global one: a delegation that is valid on its own has a wholly
      valid ancestor chain, at every instant. */
  lemma {:induction false} LocalValidityImpliesChain(m: Registry, id: Id, now: int)
    requires Tree(m) && RevokedClosed(m) && LiveSigned(m) && id in m && IsValid(m[id], now)
    ensures ChainVerifies(Chain(m, id), now)
    ensures Chain(m, id)[|Chain(m, id)| - 1] == m[id]
    decreases m[id].currentDepth
  {
    assert Node(m, id) && ClosedAt(m, id);
    if m[id].parent.Some? {
      assert Node(m, m[id].parent.value);
      LocalValidityImpliesChain(m, m[id].parent.value, now);
    }
  }

  /** Hence verifying the whole chain accepts exactly when the one local check does. */
  lemma ChainVerifiesIffLocal(m: Registry, id: Id, now: int)
    requires Tree(m) && RevokedClosed(m) && LiveSigned(m) && id in m
    ensures ChainVerifies(Chain(m, id), now) <==> IsValid(m[id], now)
  {
    if IsValid(m[id], now) {
      LocalValidityImpliesChain(m, id, now);
    }
    assert Chain(m, id)[|Chain(m, id)| - 1] == m[id];
  }

  /** Every member of a chain is a stored delegation that has the chain's end in its subtree. */
  lemma {:induction false} ChainIsAncestors(m: Registry, id: Id, a: Id)
    requires Tree(m) && id in m && a in m
    ensures InSubtree(m, id, a) <==> m[a] in Chain(m, id)
    decreases m[id].currentDepth
  {
    assert Node(m, id) && Node(m, a);
    match m[id].parent
    case None =>
    case Some(p) =>
      ChainIsAncestors(m, p, a);
      assert m[a] in Chain(m, id) <==> m[a] in Chain(m, p) || m[a] == m[id];
  }

  // ---------- revocation ----------

  /** x lies in the subtree of one of the given roots. */
  ghost predicate Reached(m: Registry, roots: seq<Id>, x: Id)
    requires Tree(m) && x in m
  {
    exists r :: r in roots && InSubtree(m, x, r)
  }

  ghost function Subtrees(m: Registry, roots: seq<Id>): set<Id>
    requires Tree(m)
  {
    set x | x in m && Reached(m, roots, x)
  }

  /** The registry with the given delegations marked as revoked. */
  ghost function Marked(m: Registry, ids: set<Id>, revoker: Address, now: int): Registry {
    map id | id in m :: if id in ids then Revoke(m[id], revoker, now) else m[id]
  }

  /** Marking changes exactly the records of the set, and only in their revocation fields. */
  lemma MarkedTerms(m: Registry, ids: set<Id>, revoker: Address, now: int)
    ensures var r := Marked(m, ids, revoker, now);
            && r.Keys == m.Keys
            && (forall id | id in m && id !in ids :: r[id] == m[id])
            && (forall id | id in m && id in ids ::
                  && r[id].revoked && r[id].revokedBy == revoker && r[id].revokedAt == now
                  && r[id].(revoked := m[id].revoked, revokedBy := m[id].revokedBy, revokedAt := m[id].revokedAt) == m[id])
  {
  }

  lemma MarkedTwice(m: Registry, s: set<Id>, t: set<Id>, revoker: Address, now: int)
    ensures Marked(Marked(m, s, revoker, now), t, revoker, now) == Marked(m, s + t, revoker, now)
  {
  }

  lemma MarkedOne(m: Registry, id: Id, revoker: Address, now: int)
    requires id in m
    ensures Marked(m, {id}, revoker, now) == m[id := Revoke(m[id], revoker, now)]
  {
  }

  lemma SubtreesAppend(m: Registry, roots: seq<Id>, r: Id)
    requires Tree(m)
    ensures Subtrees(m, roots + [r]) == Subtrees(m, roots) + Subtrees(m, [r])
  {
    assert forall q :: q in roots + [r] <==> q in roots || q in [r];
  }

  /** x is strictly below a exactly when it is in the subtree of one of a's children. */
  lemma {:induction false} BelowViaChild(m: Registry, children: seq<Id>, x: Id, a: Id)
    requires Tree(m) && x in m
    requires forall c :: c in children <==> c in m && m[c].parent == Some(a)
    ensures Reached(m, children, x) <==> m[x].parent.Some? && m[x].parent.value in m && InSubtree(m, m[x].parent.value, a)
    decreases m[x].currentDepth
  {
    assert Node(m, x);
    match m[x].parent
    case None =>
    case Some(p) =>
      BelowViaChild(m, children, p, a);
      if p == a {
        assert x in children && InSubtree(m, x, x);
      } else {
        assert InSubtree(m, p, a) <==> Reached(m, children, p) by { assert Node(m, p); }
        assert forall c | c in children :: InSubtree(m, x, c) <==> InSubtree(m, p, c);
      }
  }

  /** A subtree is its root together with the subtrees of the root's children. */
  lemma SubtreeViaChildren(m: Registry, children: seq<Id>, a: Id)
    requires Tree(m) && a in m
    requires forall c :: c in children <==> c in m && m[c].parent == Some(a)
    ensures Subtrees(m, [a]) == {a} + Subtrees(m, children)
  {
    forall x | x in m ensures x in Subtrees(m, [a]) <==> x == a || x in Subtrees(m, children) {
      BelowViaChild(m, children, x, a);
      assert Node(m, x);
      assert Reached(m, [a], x) <==> InSubtree(m, x, a) by { assert a in [a]; }
    }
  }

  // ---------- the cascade, on any registry ----------

  /** Following the child lists down from ids ends after at most n levels. */
  ghost predicate Bottomed(children: Children, ids: seq<Id>, n: nat)
    decreases n
  {
    forall c | c in ids :: n > 0 && Bottomed(children, Listed(children, c), n - 1)
  }

  /** Everything listed at or below ids, n levels deep. */
  ghost function Listing(children: Children, ids: seq<Id>, n: nat): set<Id>
    decreases n, |ids|
  {
    if ids == [] then {}
    else
      var last := ids[|ids| - 1];
      Listing(children, ids[..|ids| - 1], n) + {last} + if n > 0 then Listing(children, Listed(children, last), n - 1) else {}
  }

  lemma BottomedPrefix(children: Children, ids: seq<Id>, n: nat, k: nat)
    requires Bottomed(children, ids, n) && k < |ids|
    ensures n > 0 && Bottomed(children, Listed(children, ids[k]), n - 1) && Bottomed(children, ids[..k], n)
  {
    assert ids[k] in ids;
    assert forall c | c in ids[..k] :: c in ids;
  }

  /** One turn of the cascade: marking a child and then everything listed below it, on top of what is
      already done. */
  lemma CascadeStep(start: Registry, children: Children, ids: seq<Id>, k: nat, n: nat, revoker: Address, now: int)
    requires k < |ids| && n > 0
    ensures Marked(Marked(Marked(start, Listing(children, ids[..k], n), revoker, now), {ids[k]}, revoker, now),
                   Listing(children, Listed(children, ids[k]), n - 1), revoker, now)
         == Marked(start, Listing(children, ids[..k + 1], n), revoker, now)
  {
    var done, below := Listing(children, ids[..k], n), Listing(children, Listed(children, ids[k]), n - 1);
    assert ids[..k + 1][..k] == ids[..k];
    assert Listing(children, ids[..k + 1], n) == done + {ids[k]} + below;
    hide Marked, Listing;
    MarkedTwice(Marked(start, done, revoker, now), {ids[k]}, below, revoker, now);
    MarkedTwice(start, done, {ids[k]} + below, revoker, now);
    assert done + ({ids[k]} + below) == done + {ids[k]} + below;
  }

  /** In the tree the child lists do end, since every link down uses up one unit of depth, ... */
  lemma {:induction false} TreeBottomed(m: Registry, children: Children, p: Id)
    requires Tree(m) && Mirrored(m, children) && p in m
    ensures Bottomed(children, Listed(children, p), Max(m[p].depth, 0))
    decreases Max(m[p].depth, 0)
  {
    var n := Max(m[p].depth, 0);
    forall c | c in Listed(children, p) ensures n > 0 && Bottomed(children, Listed(children, c), n - 1) {
      assert c in m && m[c].parent == Some(p) && Node(m, c);
      TreeBottomed(m, children, c);
    }
  }

  ghost predicate AllStored(m: Registry, ids: seq<Id>) {
    forall c | c in ids :: c in m
  }

  /** ... and what is listed is the subtrees. */
  lemma {:induction false} ListingIsSubtrees(m: Registry, children: Children, ids: seq<Id>, n: nat)
    requires Tree(m) && Mirrored(m, children) && Bottomed(children, ids, n) && AllStored(m, ids)
    ensures Listing(children, ids, n) == Subtrees(m, ids)
    decreases n, |ids|
  {
    hide *;
    if ids == [] {
      NothingReached(m, children, n);
    } else {
      var k := |ids| - 1;
      BottomedPrefix(children, ids, n, k);
      StoredParts(m, children, ids);
      ListingIsSubtrees(m, children, ids[..k], n);
      ListingIsSubtrees(m, children, Listed(children, ids[k]), n - 1);
      ListingStep(m, children, ids, n);
    }
  }

  lemma StoredParts(m: Registry, children: Children, ids: seq<Id>)
    requires AllStored(m, ids) && ids != [] && Mirrored(m, children)
    ensures AllStored(m, ids[..|ids| - 1]) && ids[|ids| - 1] in m && AllStored(m, Listed(children, ids[|ids| - 1]))
  {
    KidsOf(m, children, ids[|ids| - 1]);
    hide Mirrored;
  }

  lemma ListingStep(m: Registry, children: Children, ids: seq<Id>, n: nat)
    requires Tree(m) && Mirrored(m, children) && ids != [] && n > 0 && ids[|ids| - 1] in m
    requires Listing(children, ids[..|ids| - 1], n) == Subtrees(m, ids[..|ids| - 1])
    requires Listing(children, Listed(children, ids[|ids| - 1]), n - 1) == Subtrees(m, Listed(children, ids[|ids| - 1]))
    ensures Listing(children, ids, n) == Subtrees(m, ids)
  {
    hide *;
    var k := |ids| - 1;
    var last := ids[k];
    OneListing(children, ids, n);
    SubtreeOfListed(m, children, last);
    SubtreesAppend(m, ids[..k], last);
    assert ids == ids[..k] + [last];
    Regroup(Subtrees(m, ids[..k]), {last}, Subtrees(m, Listed(children, last)));
  }

  lemma SubtreeOfListed(m: Registry, children: Children, p: Id)
    requires Tree(m) && Mirrored(m, children) && p in m
    ensures Subtrees(m, [p]) == {p} + Subtrees(m, Listed(children, p))
  {
    hide *;
    KidsOf(m, children, p);
    SubtreeViaChildren(m, Listed(children, p), p);
  }

  lemma Regroup(a: set<Id>, b: set<Id>, c: set<Id>)
    ensures a + b + c == a + (b + c)
  {
  }

  lemma NothingReached(m: Registry, children: Children, n: nat)
    requires Tree(m)
    ensures Listing(children, [], n) == Subtrees(m, []) == {}
  {
  }

  lemma OneListing(children: Children, ids: seq<Id>, n: nat)
    requires ids != [] && n > 0
    ensures var last := ids[|ids| - 1];
            Listing(children, ids, n) == Listing(children, ids[..|ids| - 1], n) + {last} + Listing(children, Listed(children, last), n - 1)
  {
  }

  lemma KidsOf(m: Registry, children: Children, p: Id)
    requires Mirrored(m, children)
    ensures forall c :: c in Listed(children, p) <==> c in m && m[c].parent == Some(p)
  {
  }

  lemma MarkedKeepsTree(m: Registry, ids: set<Id>, revoker: Address, now: int)
    requires Tree(m)
    ensures Tree(Marked(m, ids, revoker, now))
  {
    var n := Marked(m, ids, revoker, now);
    forall id | id in n ensures Node(n, id) {
      assert Node(m, id);
    }
  }

  lemma MarkedKeepsClosed(m: Registry, r: Id, revoker: Address, now: int)
    requires Tree(m) && RevokedClosed(m)
    ensures RevokedClosed(Marked(m, Subtrees(m, [r]), revoker, now))
  {
    var s := Subtrees(m, [r]);
    forall id | id in m ensures ClosedAt(Marked(m, s, revoker, now), id) {
      assert Node(m, id) && ClosedAt(m, id);
      if m[id].parent.Some? && m[id].parent.value in s {
        assert Reached(m, [r], m[id].parent.value);
        assert r in [r] && InSubtree(m, id, r);
      }
    }
  }

  /** Revoking a whole subtree keeps the tree and keeps revocation closed downwards. */
  lemma MarkedKeepsInv(m: Registry, children: Children, usage: Usage, r: Id, revoker: Address, now: int)
    requires Inv(m, children, usage)
    ensures Inv(Marked(m, Subtrees(m, [r]), revoker, now), children, usage)
  {
    MarkedKeepsTree(m, Subtrees(m, [r]), revoker, now);
    MarkedKeepsClosed(m, r, revoker, now);
  }

  /** revoker delegated some ancestor of id, or id itself. */
  predicate CanRevoke(m: Registry, id: Id, revoker: Address)
    requires Tree(m) && id in m
    decreases m[id].currentDepth
  {
    assert Node(m, id);
    m[id].delegator == revoker || (m[id].parent.Some? && CanRevoke(m, m[id].parent.value, revoker))
  }

  lemma {:induction false} CanRevokeIffAncestor(m: Registry, id: Id, revoker: Address)
    requires Tree(m) && id in m
    ensures CanRevoke(m, id, revoker) <==> exists d :: d in Chain(m, id) && d.delegator == revoker
    decreases m[id].currentDepth
  {
    assert Node(m, id);
    match m[id].parent
    case None => assert m[id] in Chain(m, id);
    case Some(p) =>
      CanRevokeIffAncestor(m, p, revoker);
      assert forall d :: d in Chain(m, id) <==> d in Chain(m, p) || d == m[id];
  }

  // ---------- what creation keeps ----------

  ghost predicate Inv(m: Registry, children: Children, usage: Usage) {
    Tree(m) && Mirrored(m, children) && RevokedClosed(m) && LiveSigned(m) && Tracked(m, usage)
  }

  function Listed(children: Children, p: Id): seq<Id> {
    if p in children then children[p] else []
  }

  function FreshTracker(now: int): Tracker {
    Tracker(0, 0, now + 3600, now + 86400)
  }

  /** The registry part of CreateSubDelegation: the three refusals, then the insertion. */
  function AddSub(m: Registry, parentId: Id, caller: Address, delegate: Address, validUntil: int, now: int)
    : Result<Delegation, Error>
  {
    if parentId !in m then Err(NotFound)
    else if caller != m[parentId].delegate then Err(NotDelegate)
    else if !CanSubDelegate(m[parentId], now) then Err(NoSubDelegation)
    else Ok(SubDelegation(m[parentId], delegate, validUntil, now))
  }

  /** Children of id still lie within the record d that replaces it. */
  ghost predicate ChildrenFit(m: Registry, id: Id, d: Delegation) {
    forall c | c in m && m[c].parent == Some(id) :: Within(d, m[c])
  }

  /** A root stored under its identifier fits: the identifier is fresh, or was that of a root whose
      children lie within the new one. */
  ghost predicate RootFits(m: Registry, d: Delegation) {
    d.id in m ==> m[d.id].parent.None? && ChildrenFit(m, d.id, d)
  }

  /** A sub-delegation fits: its expiry is within the cap's reach, and its identifier is fresh, or was
      not that of its parent, hung nowhere else, and its children lie within the new record. */
  ghost predicate SubFits(m: Registry, parentId: Id, d: Delegation, validUntil: int)
    requires parentId in m
  {
    && !(m[parentId].validUntil > 0 && validUntil < 0)
    && (d.id in m ==>
          && d.id != parentId && (m[d.id].parent.None? || m[d.id].parent == Some(parentId))
          && ChildrenFit(m, d.id, d))
  }

  lemma StoredKeepsTree(m: Registry, d: Delegation)
    requires Tree(m) && RevokedClosed(m) && ChildrenFit(m, d.id, d) && !d.revoked && 0 <= d.currentDepth
    requires d.parent.None? ==> d.currentDepth == 0
    requires d.parent.Some? ==> d.parent.value in m && d.parent.value != d.id && !m[d.parent.value].revoked && Within(m[d.parent.value], d)
    ensures Tree(m[d.id := d]) && RevokedClosed(m[d.id := d])
  {
    hide Within;
    var n := m[d.id := d];
    forall id | id in n ensures Node(n, id) && ClosedAt(n, id) {
      if id != d.id { assert Node(m, id) && ClosedAt(m, id); }
    }
  }

  /** The invariant says that children of a stored record lie within it. */
  lemma TreeFits(m: Registry, id: Id)
    requires Tree(m) && id in m
    ensures ChildrenFit(m, id, m[id]) && m[id].parent != Some(id)
  {
    forall c | c in m && m[c].parent == Some(id) ensures Within(m[id], m[c]) && c != id {
      assert Node(m, c);
    }
  }

  /** Storing a root keeps the whole invariant exactly if the root fits. */
  lemma RootKeepsInvIff(m: Registry, children: Children, usage: Usage, d: Delegation, now: int)
    requires Inv(m, children, usage)
    requires d.parent.None? && d.currentDepth == 0 && !d.revoked && Verify(d)
    ensures Inv(m[d.id := d], children, usage[d.id := FreshTracker(now)]) <==> RootFits(m, d)
  {
    var n := m[d.id := d];
    if RootFits(m, d) {
      assert ChildrenFit(m, d.id, d) by { if d.id !in m { NoChildrenYet(m, d.id, d); } }
      StoredKeepsTree(m, d);
      hide Tree, RevokedClosed, Within;
      forall p, c ensures (p in children && c in children[p]) <==> (c in n && n[c].parent == Some(p)) {
        assert (p in children && c in children[p]) <==> (c in m && m[c].parent == Some(p));
      }
    } else if Tree(n) && Mirrored(n, children) {
      RootFitsBack(m, children, d);
    }
  }

  lemma RootFitsBack(m: Registry, children: Children, d: Delegation)
    requires Tree(m) && Mirrored(m, children) && d.parent.None? && d.id in m
    requires Tree(m[d.id := d]) && Mirrored(m[d.id := d], children)
    ensures RootFits(m, d)
  {
    var n := m[d.id := d];
    TreeFits(n, d.id);
    TreeFits(m, d.id);
    if m[d.id].parent.Some? {
      SameParent(m, n, children, children, d.id, m[d.id].parent.value);
    } else {
      forall c | c in m && m[c].parent == Some(d.id) ensures Within(d, m[c]) {
        assert n[c].parent == Some(d.id);
      }
    }
  }

  /** Registries that agree with the same list agree on who hangs there. */
  lemma SameParent(m: Registry, n: Registry, children: Children, kids: Children, c: Id, q: Id)
    requires Mirrored(m, children) && Mirrored(n, kids) && (q in children <==> q in kids) && (q in children ==> children[q] == kids[q])
    ensures (c in m && m[c].parent == Some(q)) <==> (c in n && n[c].parent == Some(q))
  {
    assert (q in children && c in children[q]) <==> (q in kids && c in kids[q]);
  }

  lemma NoChildrenYet(m: Registry, id: Id, d: Delegation)
    requires Tree(m) && id !in m
    ensures ChildrenFit(m, id, d)
  {
    forall c | c in m ensures m[c].parent != Some(id) {
      assert Node(m, c);
    }
  }

  /** Storing a sub-delegation keeps the whole invariant exactly if it fits; a fresh identifier and an
      expiry within the cap's reach are enough. */
  lemma SubKeepsInvIff(m: Registry, children: Children, usage: Usage, parentId: Id, delegate: Address,
                       validUntil: int, now: int)
    requires Inv(m, children, usage) && parentId in m && CanSubDelegate(m[parentId], now)
    ensures var d := SubDelegation(m[parentId], delegate, validUntil, now);
            Inv(m[d.id := d], children[parentId := Listed(children, parentId) + [d.id]], usage[d.id := FreshTracker(now)])
            <==> SubFits(m, parentId, d, validUntil)
  {
    var d := SubDelegation(m[parentId], delegate, validUntil, now);
    var n, kids := m[d.id := d], children[parentId := Listed(children, parentId) + [d.id]];
    assert Node(m, parentId);
    assert Within(m[parentId], d) <==> !(m[parentId].validUntil > 0 && validUntil < 0);
    assert Verify(d) && !d.revoked && d.parent == Some(parentId) && d.currentDepth == m[parentId].currentDepth + 1;
    assert d.depth == m[parentId].depth - 1;
    hide SubDelegation, Verify, CanSubDelegate, Within;
    if SubFits(m, parentId, d, validUntil) {
      assert ChildrenFit(m, d.id, d) && d.id != parentId by { if d.id !in m { NoChildrenYet(m, d.id, d); } }
      assert !m[parentId].revoked by { LiveParent(m, parentId, now); }
      StoredKeepsTree(m, d);
      MirroredAppend(m, children, d, parentId);
    } else if Tree(n) && Mirrored(n, kids) {
      SubFitsBack(m, children, d, parentId);
    }
  }

  lemma LiveParent(m: Registry, parentId: Id, now: int)
    requires parentId in m && CanSubDelegate(m[parentId], now)
    ensures !m[parentId].revoked
  {
  }

  lemma SubFitsBack(m: Registry, children: Children, d: Delegation, parentId: Id)
    requires Tree(m) && Mirrored(m, children) && parentId in m && d.parent == Some(parentId) && d.depth == m[parentId].depth - 1
    requires var n := m[d.id := d]; Tree(n) && Mirrored(n, children[parentId := Listed(children, parentId) + [d.id]])
    ensures d.id != parentId && Within(m[parentId], d)
    ensures d.id in m ==> (m[d.id].parent.None? || m[d.id].parent == Some(parentId)) && ChildrenFit(m, d.id, d)
  {
    var n, kids := m[d.id := d], children[parentId := Listed(children, parentId) + [d.id]];
    TreeFits(n, d.id);
    assert Node(n, d.id);
    if d.id in m {
      TreeFits(m, d.id);
      if m[d.id].parent.Some? && m[d.id].parent != Some(parentId) {
        SameParent(m, n, children, kids, d.id, m[d.id].parent.value);
      }
      forall c | c in m && m[c].parent == Some(d.id) ensures Within(d, m[c]) {
        assert n[c].parent == Some(d.id);
      }
    }
  }

  lemma MirroredAppend(m: Registry, children: Children, d: Delegation, parentId: Id)
    requires Mirrored(m, children) && d.parent == Some(parentId)
    requires d.id in m ==> m[d.id].parent.None? || m[d.id].parent == Some(parentId)
    ensures Mirrored(m[d.id := d], children[parentId := Listed(children, parentId) + [d.id]])
  {
    var n, kids := m[d.id := d], children[parentId := Listed(children, parentId) + [d.id]];
    forall p, c ensures (p in kids && c in kids[p]) <==> (c in n && n[c].parent == Some(p)) {
      assert (p in children && c in children[p]) <==> (c in m && m[c].parent == Some(p));
    }
  }

  // ---------- identifier collisions ----------

  /** The n-th ancestor reached by following parent links, with no assumption on the registry. */
  ghost function Up(m: Registry, id: Option<Id>, n: nat): Option<Id>
    decreases n
  {
    if n == 0 || id.None? then id
    else if id.value !in m then None
    else Up(m, m[id.value].parent, n - 1)
  }

  /** The walk of GetDelegationChain from id stops. */
  ghost predicate Grounded(m: Registry, id: Id) {
    exists n: nat :: Up(m, Some(id), n).None?
  }

  ghost predicate WalksStop(m: Registry) {
    forall x | x in m :: Grounded(m, x)
  }

  ghost predicate AncestorOrSelf(m: Registry, a: Id, x: Id) {
    exists n: nat :: Up(m, Some(x), n) == Some(a)
  }

  lemma {:induction false} UpAdd(m: Registry, id: Option<Id>, i: nat, j: nat)
    ensures Up(m, Up(m, id, i), j) == Up(m, id, i + j)
    decreases i
  {
    if i != 0 && id.Some? && id.value in m {
      UpAdd(m, m[id.value].parent, i - 1, j);
    }
  }

  /** Walks that have not yet met s are not affected by rebinding s. */
  lemma {:induction false} UpUnaffected(m: Registry, s: Id, d: Delegation, id: Option<Id>, n: nat)
    requires forall k: nat | k < n :: Up(m, id, k) != Some(s)
    ensures Up(m[s := d], id, n) == Up(m, id, n)
    decreases n
  {
    if n != 0 && id.Some? {
      assert Up(m, id, 0) != Some(s);
      if id.value in m {
        forall k: nat | k < n - 1 ensures Up(m, m[id.value].parent, k) != Some(s) {
          assert Up(m, id, k + 1) != Some(s);
        }
        UpUnaffected(m, s, d, m[id.value].parent, n - 1);
      }
    }
  }

  lemma FirstMeeting(m: Registry, s: Id, x: Id, bound: nat) returns (k: nat)
    requires Up(m, Some(x), bound) == Some(s)
    ensures Up(m, Some(x), k) == Some(s) && forall j: nat | j < k :: Up(m, Some(x), j) != Some(s)
  {
    k := 0;
    while Up(m, Some(x), k) != Some(s)
      invariant k <= bound && forall j: nat | j < k :: Up(m, Some(x), j) != Some(s)
      decreases bound - k
    {
      k := k + 1;
    }
  }

  /** A walk that returns to its start after len steps never stops. */
  lemma {:induction false} LoopNeverStops(m: Registry, s: Id, len: nat, n: nat)
    requires len > 0 && Up(m, Some(s), len) == Some(s)
    ensures Up(m, Some(s), n).Some?
  {
    if n < len {
      UpAdd(m, Some(s), n, len - n);
    } else {
      UpAdd(m, Some(s), len, n - len);
      LoopNeverStops(m, s, len, n - len);
    }
  }

  /** Storing a child under an identifier s keeps every chain walk terminating exactly when s is
      not already on the chain of its own parent. */
  lemma WalksStopIff(m: Registry, s: Id, d: Delegation, p: Id)
    requires p in m && d.parent == Some(p)
    requires WalksStop(m)
    ensures WalksStop(m[s := d]) <==> !AncestorOrSelf(m, s, p)
  {
    var n := m[s := d];
    if AncestorOrSelf(m, s, p) {
      var bound: nat :| Up(m, Some(p), bound) == Some(s);
      var k := FirstMeeting(m, s, p, bound);
      UpUnaffected(m, s, d, Some(p), k);
      assert Up(n, Some(s), k + 1) == Some(s);
      forall j: nat ensures Up(n, Some(s), j).Some? { LoopNeverStops(n, s, k + 1, j); }
      assert s in n && !Grounded(n, s);
    } else {
      assert Grounded(m, p);
      var stop: nat :| Up(m, Some(p), stop).None?;
      UpUnaffected(m, s, d, Some(p), stop);
      assert Up(n, Some(s), stop + 1).None?;
      forall x | x in n ensures Grounded(n, x) {
        if AncestorOrSelf(m, s, x) {
          var bound: nat :| Up(m, Some(x), bound) == Some(s);
          var k := FirstMeeting(m, s, x, bound);
          UpUnaffected(m, s, d, Some(x), k);
          UpAdd(n, Some(x), k, stop + 1);
        } else if x in m {
          assert Grounded(m, x);
          var e: nat :| Up(m, Some(x), e).None?;
          UpUnaffected(m, s, d, Some(x), e);
        } else {
          assert Up(n, Some(x), stop + 1).None?;
        }
      }
    }
  }

  /** A parent cycle that the guards of the code let through: within one second 1 delegates to 2,
      2 to 3, 3 back to 2 and 2 to 3 again. The last two hand-overs of 2 to 3 share an identifier. */
  lemma SameSecondCycle(scope: Scope, now: int)
    ensures var policy := EmptyPolicy.(allowSubDelegation := true);
            var a := RootDelegation(1, 2, "read", 0, scope, 3, 0, policy, now);
            var m1: Registry := map[a.id := a];
            var b := AddSub(m1, a.id, 2, 3, 0, now);
            b.Ok? &&
            var m2 := m1[b.value.id := b.value];
            var c := AddSub(m2, b.value.id, 3, 2, 0, now);
            c.Ok? &&
            var m3 := m2[c.value.id := c.value];
            var e := AddSub(m3, c.value.id, 2, 3, 0, now);
            e.Ok? && e.value.id == b.value.id &&
            var m4 := m3[e.value.id := e.value];
            Up(m4, Some(b.value.id), 2) == Some(b.value.id) && !Grounded(m4, b.value.id)
  {
    var policy := EmptyPolicy.(allowSubDelegation := true);
    var a := RootDelegation(1, 2, "read", 0, scope, 3, 0, policy, now);
    var b := SubDelegation(a, 3, 0, now);
    var c := SubDelegation(b, 2, 0, now);
    var e := SubDelegation(c, 3, 0, now);
    var m3: Registry := map[a.id := a][b.id := b][c.id := c];
    var m4 := m3[e.id := e];
    assert m4[b.id].parent == Some(c.id) && m4[c.id].parent == Some(b.id);
    assert Up(m4, Some(c.id), 1) == Up(m4, Some(b.id), 0);
    assert Up(m4, Some(b.id), 2) == Some(b.id);
    forall j: nat ensures Up(m4, Some(b.id), j).Some? { LoopNeverStops(m4, b.id, 2, j); }
  }

  /** The records met on the way up from id, the first of them last. */
  ghost predicate Walked(m: Registry, id: Option<Id>, chain: seq<Delegation>)
    decreases |chain|
  {
    if id.None? || id.value !in m then chain == []
    else
      && chain != [] && chain[|chain| - 1] == m[id.value]
      && Walked(m, m[id.value].parent, chain[..|chain| - 1])
  }

  lemma {:induction false} WalkedIsChain(m: Registry, id: Id, chain: seq<Delegation>)
    requires Tree(m) && id in m
    ensures Walked(m, Some(id), chain) <==> chain == Chain(m, id)
    decreases m[id].currentDepth
  {
    assert Node(m, id);
    if chain != [] {
      var n := |chain| - 1;
      match m[id].parent {
        case None => assert chain == [m[id]] <==> chain[n] == m[id] && chain[..n] == [];
        case Some(p) =>
          WalkedIsChain(m, p, chain[..n]);
          assert chain == chain[..n] + [chain[n]];
          assert (Chain(m, p) + [m[id]])[..|Chain(m, p)|] == Chain(m, p);
      }
    }
  }

  lemma {:induction false} TreeGrounded(m: Registry, id: Id)
    requires Tree(m) && id in m
    ensures 0 <= m[id].currentDepth && Up(m, Some(id), m[id].currentDepth + 1).None?
    decreases m[id].currentDepth
  {
    assert Node(m, id);
    if m[id].parent.Some? {
      assert Node(m, m[id].parent.value);
      TreeGrounded(m, m[id].parent.value);
    }
  }

  lemma ValidGrounded(m: Registry, id: Id)
    requires Tree(m)
    ensures Grounded(m, id)
  {
    if id in m { TreeGrounded(m, id); } else { assert Up(m, Some(id), 1).None?; }
  }

  /** Some delegation from id upwards was given by revoker. */
  ghost predicate GivenAbove(m: Registry, id: Id, revoker: Address) {
    exists n: nat, x :: Up(m, Some(id), n) == Some(x) && x in m && m[x].delegator == revoker
  }

  lemma GivenAboveStep(m: Registry, id: Id, revoker: Address)
    requires id in m
    ensures GivenAbove(m, id, revoker) <==>
              m[id].delegator == revoker || (m[id].parent.Some? && GivenAbove(m, m[id].parent.value, revoker))
  {
    if m[id].delegator == revoker {
      assert Up(m, Some(id), 0) == Some(id);
    }
    if m[id].parent.Some? && GivenAbove(m, m[id].parent.value, revoker) {
      var n: nat, x :| Up(m, m[id].parent, n) == Some(x) && x in m && m[x].delegator == revoker;
      assert Up(m, Some(id), n + 1) == Some(x);
    }
    if GivenAbove(m, id, revoker) && m[id].delegator != revoker {
      var n: nat, x :| Up(m, Some(id), n) == Some(x) && x in m && m[x].delegator == revoker;
      assert n > 0;
      assert Up(m, m[id].parent, n - 1) == Some(x);
    }
  }

  lemma {:induction false} GivenAboveIsCanRevoke(m: Registry, id: Id, revoker: Address)
    requires Tree(m) && id in m
    ensures GivenAbove(m, id, revoker) <==> CanRevoke(m, id, revoker)
    decreases m[id].currentDepth
  {
    hide GivenAbove;
    assert Node(m, id);
    GivenAboveStep(m, id, revoker);
    if m[id].parent.Some? { GivenAboveIsCanRevoke(m, m[id].parent.value, revoker); }
  }

  /** Replacing a root within its second can break what the local check promises: 1 delegates to 2
      without end, 2 hands on to 3, and 1 delegates to 2 again until now only. */
  lemma OverwriteBreaksChain(scope: Scope, now: int)
    requires now > 0
    ensures var policy := EmptyPolicy.(allowSubDelegation := true);
            var a := RootDelegation(1, 2, "read", 0, scope, 3, 0, policy, now);
            var b := SubDelegation(a, 3, 0, now);
            var a' := RootDelegation(1, 2, "read", 0, scope, 3, now, policy, now);
            var m: Registry := map[a.id := a][b.id := b][a'.id := a'];
            && CanSubDelegate(a, now) && a'.id == a.id && b.id in m && m[b.id].parent == Some(a'.id)
            && IsValid(m[b.id], now + 1) && !IsValid(m[a'.id], now + 1)
  {
  }

  // ---------- the manager ----------

  /** Counter resets of CheckAndUse, done before the limits are looked at. */
  function Refreshed(t: Tracker, now: int): Tracker {
    var hourly := if now >= t.hourlyReset then t.(hourlyUses := 0, hourlyReset := now + 3600) else t;
    if now >= t.dailyReset then hourly.(dailyUses := 0, dailyReset := now + 86400) else hourly
  }

  function OneMore(t: Tracker): Tracker {
    t.(hourlyUses := t.hourlyUses + 1, dailyUses := t.dailyUses + 1)
  }

  /** One of the limits is used up. */
  predicate Exhausted(p: Policy, t: Tracker) {
    || (p.rateLimitPerHour > 0 && t.hourlyUses >= p.rateLimitPerHour)
    || (p.rateLimitPerDay > 0 && t.dailyUses >= p.rateLimitPerDay)
  }

  /** The two counters of a tracker, that of the hour and that of the day. */
  function Uses(t: Tracker, day: bool): int {
    if day then t.dailyUses else t.hourlyUses
  }

  function ResetAt(t: Tracker, day: bool): int {
    if day then t.dailyReset else t.hourlyReset
  }

  function Limit(p: Policy, day: bool): int {
    if day then p.rateLimitPerDay else p.rateLimitPerHour
  }

  function Span(day: bool): nat {
    if day then 24 * 60 * 60 else 60 * 60
  }

  /** The tracker after a use was tried, and whether it was admitted. */
  function Tried(p: Policy, t: Tracker, now: int): (Tracker, bool) {
    var r := Refreshed(t, now);
    if Exhausted(p, r) then (r, false) else (OneMore(r), true)
  }

  /** What trying a use does, counter by counter: within the period the counter goes on from its old
      value; at its end, and not before, it starts again; and a use is refused exactly if the counter
      that holds now has reached a positive limit. */
  lemma TriedCounters(p: Policy, t: Tracker, now: int)
    ensures var (t', ok) := Tried(p, t, now);
            && (forall day :: now < ResetAt(t, day) ==> ResetAt(t', day) == ResetAt(t, day) && Uses(t', day) == Uses(t, day) + if ok then 1 else 0)
            && (forall day :: now >= ResetAt(t, day) ==> ResetAt(t', day) == now + Span(day) && Uses(t', day) == if ok then 1 else 0)
            && (!ok <==> exists day :: Limit(p, day) > 0 && (if now < ResetAt(t, day) then Uses(t, day) else 0) >= Limit(p, day))
  {
    if Exhausted(p, Refreshed(t, now)) {
      var day := !(p.rateLimitPerHour > 0 && Refreshed(t, now).hourlyUses >= p.rateLimitPerHour);
      assert Limit(p, day) > 0 && (if now < ResetAt(t, day) then Uses(t, day) else 0) >= Limit(p, day);
    }
  }

  /** How many of the uses tried at the given times are admitted. */
  function Admitted(p: Policy, t: Tracker, times: seq<int>): nat
    decreases |times|
  {
    if times == [] then 0
    else
      var (t', ok) := Tried(p, t, times[0]);
      Admitted(p, t', times[1..]) + if ok then 1 else 0
  }

  /** Before the end of a period at most the rest of its limit is admitted. */
  lemma {:induction false} PeriodBudget(p: Policy, t: Tracker, times: seq<int>, day: bool)
    requires Limit(p, day) > 0 && 0 <= Uses(t, day) <= Limit(p, day)
    requires forall i | 0 <= i < |times| :: times[i] < ResetAt(t, day)
    ensures Admitted(p, t, times) <= Limit(p, day) - Uses(t, day)
    decreases |times|
  {
    if times != [] {
      hide Tried;
      TriedCounters(p, t, times[0]);
      PeriodBudget(p, Tried(p, t, times[0]).0, times[1..], day);
    }
  }

  /** Over any run of uses, in whatever periods they fall: with the clock not going back, at most one
      limit per period begun since the current one is admitted. */
  lemma {:induction false} RunBudget(p: Policy, t: Tracker, times: seq<int>, day: bool, last: int)
    requires Limit(p, day) > 0 && 0 <= Uses(t, day) <= Limit(p, day)
    requires forall i, j | 0 <= i < j < |times| :: times[i] <= times[j]
    requires forall i | 0 <= i < |times| :: ResetAt(t, day) - Span(day) <= times[i] <= last
    requires ResetAt(t, day) - Span(day) <= last
    ensures Admitted(p, t, times) <= Limit(p, day) * (1 + (last - (ResetAt(t, day) - Span(day))) / Span(day)) - Uses(t, day)
    decreases |times|
  {
    hide Tried;
    var limit, begun := Limit(p, day), (last - (ResetAt(t, day) - Span(day))) / Span(day);
    MulMono(limit, 1 + begun, 1);
    if times != [] {
      var t' := Tried(p, t, times[0]).0;
      TriedCounters(p, t, times[0]);
      RunBudget(p, t', times[1..], day, last);
      if times[0] >= ResetAt(t, day) {
        var later := (last - times[0]) / Span(day);
        assert begun >= later + 1;
        MulMono(limit, 1 + begun, 2 + later);
        Distributes(limit, 1 + later);
      }
    }
  }

  lemma Distributes(limit: nat, n: nat)
    ensures limit * (n + 1) == limit * n + limit
  {
  }

  /** Trying a use keeps the limits. */
  lemma UseKeepsInv(m: Registry, children: Children, usage: Usage, id: Id, now: int)
    requires Inv(m, children, usage) && id in m
    ensures Inv(m, children, usage[id := Tried(m[id].policy, usage[id], now).0])
  {
    hide Tree, Mirrored, RevokedClosed, LiveSigned;
  }

  /** The part of CheckAndUse that works on the tracker. */
  method TryUse(p: Policy, before: Tracker, now: int) returns (t: Tracker, err: Option<Error>)
    ensures err.None? || err == Some(HourlyLimit) || err == Some(DailyLimit)
    ensures (t, err.None?) == Tried(p, before, now)
    ensures var hour, today := (if now < before.hourlyReset then before.hourlyUses else 0), if now < before.dailyReset then before.dailyUses else 0;
            && (err == Some(HourlyLimit) <==> p.rateLimitPerHour > 0 && hour >= p.rateLimitPerHour)
            && (err.None? <==> !(p.rateLimitPerHour > 0 && hour >= p.rateLimitPerHour) && !(p.rateLimitPerDay > 0 && today >= p.rateLimitPerDay))
            && t.hourlyUses == hour + (if err.None? then 1 else 0) && t.dailyUses == today + (if err.None? then 1 else 0)
            && t.hourlyReset == (if now < before.hourlyReset then before.hourlyReset else now + 3600)
            && t.dailyReset == (if now < before.dailyReset then before.dailyReset else now + 86400)
  {
    t := before;
    if now >= t.hourlyReset { t := t.(hourlyUses := 0, hourlyReset := now + 3600); }
    if now >= t.dailyReset { t := t.(dailyUses := 0, dailyReset := now + 86400); }
    if p.rateLimitPerHour > 0 && t.hourlyUses >= p.rateLimitPerHour { return t, Some(HourlyLimit); }
    if p.rateLimitPerDay > 0 && t.dailyUses >= p.rateLimitPerDay { return t, Some(DailyLimit); }
    t := t.(hourlyUses := t.hourlyUses + 1, dailyUses := t.dailyUses + 1);
    err := None;
  }

  class DelegationManager {
    var delegations: Registry
    var chains: Children
    var usage: Usage

    /** What every run keeps, identifier collisions included. */
    ghost predicate Kept()
      reads this
    {
      && usage.Keys == delegations.Keys
      && (forall p, c | p in chains && c in chains[p] :: c in delegations)
    }

    /** What holds as long as everything stored fitted. */
    ghost predicate Valid()
      reads this
    {
      Inv(delegations, chains, usage)
    }

    constructor ()
      ensures Kept() && Valid() && delegations == map[] && chains == map[] && usage == map[]
    {
      delegations, chains, usage := map[], map[], map[];
    }

    method CreateDelegation(delegator: Address, delegate: Address, rightType: string, streamId: Stream,
                            scope: Scope, depth: int, validUntil: int, policy: Policy, now: int)
      returns (d: Delegation)
      requires Kept()
      modifies this
      ensures Kept() && d == RootDelegation(delegator, delegate, rightType, streamId, scope, depth, validUntil, policy, now)
      ensures delegations == old(delegations)[d.id := d] && chains == old(chains)
      ensures usage == old(usage)[d.id := Tracker(0, 0, now + 3600, now + 86400)]
      ensures old(Valid()) ==> (Valid() <==> RootFits(old(delegations), d))
    {
      d := RootDelegation(delegator, delegate, rightType, streamId, scope, depth, validUntil, policy, now);
      hide Inv, RootFits;
      if Valid() { RootKeepsInvIff(delegations, chains, usage, d, now); }
      delegations := delegations[d.id := d];
      usage := usage[d.id := FreshTracker(now)];
    }

    method CreateSubDelegation(caller: Address, parentId: Id, delegate: Address, validUntil: int, now: int)
      returns (r: Result<Delegation, Error>)
      requires Kept()
      modifies this
      ensures Kept() && r == AddSub(old(delegations), parentId, caller, delegate, validUntil, now)
      ensures r.Err? ==> unchanged(this)
      ensures r.Ok? ==> delegations == old(delegations)[r.value.id := r.value]
      ensures r == Err(NotFound) <==> parentId !in old(delegations)
      ensures r.Ok? <==>
              && parentId in old(delegations)
              && var p := old(delegations)[parentId];
                 && caller == p.delegate && !p.revoked && Verify(p) && p.validFrom <= now && (p.validUntil <= 0 || now <= p.validUntil)
                 && p.policy.allowSubDelegation && p.depth > 0
      ensures r.Ok? ==> usage == old(usage)[r.value.id := Tracker(0, 0, now + 3600, now + 86400)]
      ensures r.Ok? ==> chains == old(chains)[parentId := Listed(old(chains), parentId) + [r.value.id]]
      ensures r.Ok? && old(Valid()) ==> (Valid() <==> SubFits(old(delegations), parentId, r.value, validUntil))
    {
      r := AddSub(delegations, parentId, caller, delegate, validUntil, now);
      if r.Ok? {
        var d := r.value;
        assert d == SubDelegation(delegations[parentId], delegate, validUntil, now) && CanSubDelegate(delegations[parentId], now);
        hide Inv, SubFits, SubDelegation, CanSubDelegate, AddSub;
        if Valid() { SubKeepsInvIff(delegations, chains, usage, parentId, delegate, validUntil, now); }
        delegations := delegations[d.id := d];
        chains := chains[parentId := Listed(chains, parentId) + [d.id]];
        usage := usage[d.id := FreshTracker(now)];
      }
    }

    /** Revokes id and everything listed below it, and nothing else, or refuses and changes nothing.
        In a registry broken by a collision the walk up and the cascade down may not end; in a valid
        one they do, and the cascade covers exactly the subtree. */
    method RevokeDelegation(id: Id, revoker: Address, now: int, ghost n: nat) returns (err: Option<Error>)
      requires Kept() && (Valid() || (Grounded(delegations, id) && Bottomed(chains, Listed(chains, id), n)))
      modifies this`delegations
      ensures Kept() && (old(Valid()) ==> Valid())
      ensures err.None? <==> id in old(delegations) && GivenAbove(old(delegations), id, revoker)
      ensures err.Some? ==> delegations == old(delegations)
      ensures err.None? && !old(Valid()) ==>
                delegations == Marked(old(delegations), {id} + Listing(chains, Listed(chains, id), n), revoker, now)
      ensures err.None? && old(Valid()) ==>
                CanRevoke(old(delegations), id, revoker)
                && delegations == Marked(old(delegations), Subtrees(old(delegations), [id]), revoker, now)
      ensures err.None? ==> id in delegations && delegations[id].revoked && delegations[id].revokedBy == revoker && delegations[id].revokedAt == now
    {
      if id !in delegations { return Some(NotFound); }
      ghost var m, deep := delegations, n;
      if Valid() {
        deep := Max(delegations[id].depth, 0);
        ValidGrounded(m, id);
        GivenAboveIsCanRevoke(m, id, revoker);
        TreeBottomed(m, chains, id);
        RevokedSubtree(m, chains, usage, id, deep, revoker, now);
      }
      MarkedTerms(m, {id} + Listing(chains, Listed(chains, id), deep), revoker, now);
      hide *;
      err := RevokeBelow(id, revoker, now, deep);
    }

    method RevokeBelow(id: Id, revoker: Address, now: int, ghost n: nat) returns (err: Option<Error>)
      requires Kept() && id in delegations && Grounded(delegations, id) && Bottomed(chains, Listed(chains, id), n)
      modifies this`delegations
      ensures Kept() && (err.None? <==> GivenAbove(old(delegations), id, revoker))
      ensures err.Some? ==> delegations == old(delegations)
      ensures err.None? ==>
                delegations == Marked(old(delegations), {id} + Listing(chains, Listed(chains, id), n), revoker, now)
    {
      hide Up, Grounded, Bottomed, GivenAbove, Listing, Marked;
      ghost var m := delegations;
      var allowed := GivenBy(id, revoker);
      if !allowed { return Some(NotAuthorized); }
      MarkedOne(m, id, revoker, now);
      MarkedKeys(m, {id}, revoker, now);
      delegations := delegations[id := Revoke(delegations[id], revoker, now)];
      RevokeSubDelegations(id, revoker, now, n);
      MarkedTwice(m, {id}, Listing(chains, Listed(chains, id), n), revoker, now);
      err := None;
    }

    /** Whether revoker delegated id or something above it; the recursion follows the parent links. */
    method GivenBy(id: Id, revoker: Address) returns (ok: bool)
      requires Grounded(delegations, id) && id in delegations
      ensures ok <==> GivenAbove(delegations, id, revoker)
    {
      ghost var n: nat :| Up(delegations, Some(id), n).None?;
      ok := GivenByWithin(id, revoker, n);
    }

    method GivenByWithin(id: Id, revoker: Address, ghost n: nat) returns (ok: bool)
      requires id in delegations && Up(delegations, Some(id), n).None?
      ensures ok <==> GivenAbove(delegations, id, revoker)
      decreases n
    {
      var d := delegations[id];
      GivenAboveStep(delegations, id, revoker);
      if d.delegator == revoker { return true; }
      if d.parent.Some? && d.parent.value in delegations {
        ok := GivenByWithin(d.parent.value, revoker, n - 1);
      } else {
        if d.parent.Some? { NobodyAbove(delegations, d.parent.value, revoker); }
        ok := false;
      }
    }

    /** The cascade marks exactly what is listed below parentId. */
    method RevokeSubDelegations(parentId: Id, revoker: Address, now: int, ghost n: nat)
      requires Kept() && Bottomed(chains, Listed(chains, parentId), n)
      modifies this`delegations
      ensures Kept() && delegations == Marked(old(delegations), Listing(chains, Listed(chains, parentId), n), revoker, now)
      decreases n
    {
      var children := Listed(chains, parentId);
      ghost var start := delegations;
      hide Marked, Listing, Bottomed;
      NothingListed(start, chains, n, revoker, now);
      for k := 0 to |children|
        invariant Kept() && delegations.Keys == start.Keys
        invariant delegations == Marked(start, Listing(chains, children[..k], n), revoker, now)
      {
        var child := children[k];
        BottomedPrefix(chains, children, n, k);
        if child in delegations {
          ghost var before := delegations;
          delegations := delegations[child := Revoke(delegations[child], revoker, now)];
          MarkedOne(before, child, revoker, now);
          RevokeSubDelegations(child, revoker, now, n - 1);
          CascadeStep(start, chains, children, k, n, revoker, now);
          MarkedKeys(start, Listing(chains, children[..k + 1], n), revoker, now);
        }
      }
      assert children[..|children|] == children;
    }

    method CheckAndUse(id: Id, operation: Operation, now: int) returns (err: Option<Error>)
      requires Kept()
      modifies this`usage
      ensures Kept() && (old(Valid()) ==> Valid())
      ensures (err.None? || err == Some(HourlyLimit) || err == Some(DailyLimit)) <==>
              && id in delegations && !delegations[id].revoked && Verify(delegations[id]) && delegations[id].validFrom <= now
              && (delegations[id].validUntil <= 0 || now <= delegations[id].validUntil)
              && operation in delegations[id].scope.allowedOperations
      ensures err == Some(NotFound) <==> id !in delegations
      ensures err.None? || err == Some(HourlyLimit) || err == Some(DailyLimit) ==>
              var p, t, t' := delegations[id].policy, old(usage)[id], usage[id];
              var hour, today := (if now < t.hourlyReset then t.hourlyUses else 0), if now < t.dailyReset then t.dailyUses else 0;
              && (err == Some(HourlyLimit) <==> p.rateLimitPerHour > 0 && hour >= p.rateLimitPerHour)
              && (err.None? <==> !(p.rateLimitPerHour > 0 && hour >= p.rateLimitPerHour) && !(p.rateLimitPerDay > 0 && today >= p.rateLimitPerDay))
              && usage == old(usage)[id := t']
              && t'.hourlyUses == hour + (if err.None? then 1 else 0) && t'.dailyUses == today + (if err.None? then 1 else 0)
              && t'.hourlyReset == (if now < t.hourlyReset then t.hourlyReset else now + 3600)
              && t'.dailyReset == (if now < t.dailyReset then t.dailyReset else now + 86400)
      ensures !(err.None? || err == Some(HourlyLimit) || err == Some(DailyLimit)) ==> usage == old(usage)
      ensures err.None? && old(Valid()) ==> ChainVerifies(Chain(delegations, id), now)
    {
      if id !in delegations { return Some(NotFound); }
      var d := delegations[id];
      if !IsValid(d, now) { return Some(Invalid); }
      if operation !in d.scope.allowedOperations { return Some(OperationNotAllowed); }
      if Valid() { LocalValidityImpliesChain(delegations, id, now); }
      hide Inv, Tree, Verify, ChainVerifies, Chain;
      err := CountUse(id, now);
    }

    /** The counters, whether there is a use left, and the counting of it. */
    method CountUse(id: Id, now: int) returns (err: Option<Error>)
      requires Kept() && id in delegations
      modifies this`usage
      ensures Kept() && (old(Valid()) ==> Valid())
      ensures err.None? || err == Some(HourlyLimit) || err == Some(DailyLimit)
      ensures var p, t, t' := delegations[id].policy, old(usage)[id], usage[id];
              var hour, today := (if now < t.hourlyReset then t.hourlyUses else 0), if now < t.dailyReset then t.dailyUses else 0;
              && (err == Some(HourlyLimit) <==> p.rateLimitPerHour > 0 && hour >= p.rateLimitPerHour)
              && (err.None? <==> !(p.rateLimitPerHour > 0 && hour >= p.rateLimitPerHour) && !(p.rateLimitPerDay > 0 && today >= p.rateLimitPerDay))
              && usage == old(usage)[id := t'] && (t', err.None?) == Tried(p, t, now)
              && t'.hourlyUses == hour + (if err.None? then 1 else 0) && t'.dailyUses == today + (if err.None? then 1 else 0)
              && t'.hourlyReset == (if now < t.hourlyReset then t.hourlyReset else now + 3600)
              && t'.dailyReset == (if now < t.dailyReset then t.dailyReset else now + 86400)
    {
      if Valid() { UseKeepsInv(delegations, chains, usage, id, now); }
      hide *;
      var t;
      t, err := TryUse(delegations[id].policy, usage[id], now);
      usage := usage[id := t];
    }

    /** Walks the parent links up and returns the chain root first; empty for an unknown id. The walk
        ends exactly if it is grounded, which in a valid registry it always is. */
    method GetDelegationChain(id: Id) returns (chain: seq<Delegation>)
      requires Valid() || Grounded(delegations, id)
      ensures Walked(delegations, Some(id), chain)
      ensures Valid() ==> chain == if id in delegations then Chain(delegations, id) else []
    {
      if Valid() { ValidGrounded(delegations, id); }
      chain := WalkUp(id);
      if Valid() && id in delegations { WalkedIsChain(delegations, id, chain); }
    }

    method WalkUp(id: Id) returns (chain: seq<Delegation>)
      requires Grounded(delegations, id)
      ensures Walked(delegations, Some(id), chain)
    {
      ghost var n: nat :| Up(delegations, Some(id), n).None?;
      chain := [];
      var current := Some(id);
      NoWalkYet(delegations, id);
      hide Walked;
      while current.Some? && current.value in delegations
        invariant Up(delegations, current, n).None? && Continues(delegations, id, current, chain)
        decreases n
      {
        var d := delegations[current.value];
        WalkOn(delegations, id, current.value, chain);
        chain := [d] + chain;
        current := d.parent;
        n := n - 1;
      }
      WalkDone(delegations, id, current, chain);
    }

    method VerifyDelegationChain(id: Id, now: int) returns (err: Option<Error>)
      requires Valid() || Grounded(delegations, id)
      ensures exists chain :: Walked(delegations, Some(id), chain) && (err.None? <==> ChainVerifies(chain, now))
      ensures Valid() ==> (err.None? <==> id in delegations && ChainVerifies(Chain(delegations, id), now))
    {
      var chain := GetDelegationChain(id);
      err := VerifyLinks(chain, now);
    }
  }

  /** Whatever is met from current on, followed by chain, is what is met from id on. */
  ghost predicate Continues(m: Registry, id: Id, current: Option<Id>, chain: seq<Delegation>) {
    forall front :: Walked(m, current, front) ==> Walked(m, Some(id), front + chain)
  }

  lemma NoWalkYet(m: Registry, id: Id)
    ensures Continues(m, id, Some(id), [])
  {
    assert forall front: seq<Delegation> :: front + [] == front;
  }

  lemma WalkOn(m: Registry, id: Id, current: Id, chain: seq<Delegation>)
    requires current in m && Continues(m, id, Some(current), chain)
    ensures Continues(m, id, m[current].parent, [m[current]] + chain)
  {
    var d := m[current];
    forall front | Walked(m, d.parent, front) ensures Walked(m, Some(id), front + ([d] + chain)) {
      assert (front + [d])[..|front|] == front;
      assert Walked(m, Some(current), front + [d]);
      assert front + [d] + chain == front + ([d] + chain);
    }
  }

  lemma WalkDone(m: Registry, id: Id, current: Option<Id>, chain: seq<Delegation>)
    requires (current.None? || current.value !in m) && Continues(m, id, current, chain)
    ensures Walked(m, Some(id), chain)
  {
    assert Walked(m, current, []);
    assert [] + chain == chain;
  }

  lemma NobodyAbove(m: Registry, id: Id, revoker: Address)
    requires id !in m
    ensures !GivenAbove(m, id, revoker)
  {
  }

  lemma MarkedKeys(m: Registry, ids: set<Id>, revoker: Address, now: int)
    ensures Marked(m, ids, revoker, now).Keys == m.Keys
  {
  }

  lemma NothingListed(m: Registry, children: Children, n: nat, revoker: Address, now: int)
    ensures Marked(m, Listing(children, [], n), revoker, now) == m
  {
  }

  /** In a valid registry the root and what is listed below it are its subtree, and marking it keeps
      the registry valid. */
  lemma RevokedSubtree(m: Registry, children: Children, usage: Usage, id: Id, n: nat, revoker: Address, now: int)
    requires Inv(m, children, usage) && id in m && Bottomed(children, Listed(children, id), n)
    ensures {id} + Listing(children, Listed(children, id), n) == Subtrees(m, [id])
    ensures Inv(Marked(m, Subtrees(m, [id]), revoker, now), children, usage)
  {
    var kids := Listed(children, id);
    KidsOf(m, children, id);
    MarkedKeepsInv(m, children, usage, id, revoker, now);
    assert AllStored(m, kids);
    hide Bottomed, Listing, Tree, RevokedClosed, LiveSigned, AllStored, Mirrored, Marked;
    ListingIsSubtrees(m, children, kids, n);
    SubtreeOfListed(m, children, id);
  }

  method VerifyLinks(chain: seq<Delegation>, now: int) returns (err: Option<Error>)
    ensures err.None? <==> ChainVerifies(chain, now)
    ensures err.None? <==>
            && chain != []
            && (forall i | 0 <= i < |chain| ::
                  && !chain[i].revoked && chain[i].validFrom <= now && (chain[i].validUntil <= 0 || now <= chain[i].validUntil)
                  && chain[i].signature == Signed(chain[i].delegator, chain[i].(signature := Unsigned)))
            && (forall i | 0 < i < |chain| :: chain[i].parent == Some(chain[i-1].id) && chain[i].delegator == chain[i-1].delegate)
  {
    if chain == [] { return Some(NotFound); }
    for i := 0 to |chain|
      invariant forall j | 0 <= j < i :: IsValid(chain[j], now)
      invariant forall j | 0 < j < i :: chain[j].parent == Some(chain[j-1].id)
      invariant forall j | 0 < j < i :: chain[j].delegator == chain[j-1].delegate
    {
      if !IsValid(chain[i], now) { return Some(Invalid); }
      if i > 0 {
        if chain[i].parent != Some(chain[i-1].id) { return Some(ChainBreak); }
        if chain[i].delegator != chain[i-1].delegate { return Some(ChainBreak); }
      }
    }
    err := None;
  }
}
