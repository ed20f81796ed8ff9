/**
 Cross-fork recovery of ownership (identity/recovery.go): social recovery by a guardian quorum,
 time-locked recovery and recovery by phrase. Signatures are ideal, and a recovery's ID, a hash of
 five of its fields, is represented by those fields.
 */
module Recovery {
  import opened Common

  datatype Address = Address(id: nat)
  datatype Key = Key(secret: nat)

  function AddressOf(key: Key): Address {
    Address(key.secret)
  }

  const LockDuration: int := 7 * 24 * 60 * 60

  datatype Id = Id(sourceFork: nat, targetFork: nat, source: Address, target: Address, initiatedAt: int)
  datatype Phase = Initiated | Pending | Approved | Executed | Cancelled | Failed
  datatype Kind = TimeLock | Social | Phrase

  /** A signature over "approver approves recovery id". */
  datatype Signature = Invalid | Signed(signer: Address, id: Id, approver: Address)
  datatype Approval = Approval(approver: Address, approvedAt: int, sig: Signature)

  datatype Recovery = Recovery(
    id: Id, phase: Phase, kind: Kind, completedAt: int, expiry: int,
    approvals: seq<Approval>, required: int, guardians: seq<Address>, phraseHash: seq<int>)

  datatype Error =
    | BadQuorum | NotConfigured | BadPhrase | NotTargetKey | NotFound | NotSocial
    | BadSignature | NotGuardian | AlreadyApproved | Closed | StillLocked | TooFewApprovals | NotApproved

  // ---------- one recovery ----------

  function SignerOf(id: Id, approver: Address, sig: Signature): Option<Address> {
    if sig.Signed? && sig.id == id && sig.approver == approver then Some(sig.signer) else None
  }

  predicate HasApproved(r: Recovery, a: Address) {
    exists i | 0 <= i < |r.approvals| :: r.approvals[i].approver == a
  }

  /** AddApproval: which approvals are refused, and what an accepted one does to the phase. */
  function Approve(r: Recovery, approver: Address, sig: Signature, now: int): Result<Recovery, Error> {
    if SignerOf(r.id, approver, sig) != Some(approver) then Err(BadSignature)
    else if approver !in r.guardians then Err(NotGuardian)
    else if HasApproved(r, approver) then Err(AlreadyApproved)
    else
      var approvals := r.approvals + [Approval(approver, now, sig)];
      Ok(r.(approvals := approvals, phase := if |approvals| >= r.required then Approved else r.phase))
  }

  method AddApproval(r: Recovery, approver: Address, sig: Signature, now: int) returns (res: Result<Recovery, Error>)
    ensures res == Approve(r, approver, sig, now)
    ensures res.Ok? <==>
            && sig == Signed(approver, r.id, approver) && approver in r.guardians
            && forall i | 0 <= i < |r.approvals| :: r.approvals[i].approver != approver
    ensures res.Ok? ==>
            res.value == r.(approvals := r.approvals + [Approval(approver, now, sig)],
                            phase := if |r.approvals| + 1 >= r.required then Approved else r.phase)
  {
    if SignerOf(r.id, approver, sig) != Some(approver) { return Err(BadSignature); }
    var isGuardian := false;
    for i := 0 to |r.guardians|
      invariant !isGuardian && forall j | 0 <= j < i :: r.guardians[j] != approver
    {
      if r.guardians[i] == approver {
        isGuardian := true;
        break;
      }
    }
    if !isGuardian { return Err(NotGuardian); }
    for i := 0 to |r.approvals|
      invariant forall j | 0 <= j < i :: r.approvals[j].approver != approver
    {
      if r.approvals[i].approver == approver { return Err(AlreadyApproved); }
    }
    var approvals := r.approvals + [Approval(approver, now, sig)];
    var phase := r.phase;
    if |approvals| >= r.required { phase := Approved; }
    return Ok(r.(approvals := approvals, phase := phase));
  }

  /** The reason a recovery cannot be executed now, if any. */
  function Blocked(r: Recovery, now: int): Option<Error> {
    if r.phase == Executed || r.phase == Cancelled || r.phase == Failed then Some(Closed)
    else match r.kind
         case TimeLock => if now < r.expiry then Some(StillLocked) else None
         case Social => if |r.approvals| < r.required then Some(TooFewApprovals) else None
         case Phrase => if r.phase == Approved || r.phase == Pending then None else Some(NotApproved)
  }

  // ---------- the manager as a state machine ----------

  datatype State = State(
    forkID: nat, owner: Address, recoveries: map<Id, Recovery>, guardians: seq<Address>, quorum: int,
    phraseHash: Option<seq<int>>)

  function Fresh(forkID: nat, owner: Address): State {
    State(forkID, owner, map[], [], 0, None)
  }

  /** Every call that can affect a manager: its own methods, and the methods of a recovery it handed out. */
  datatype Op =
    | SetupSocial(guardians: seq<Address>, quorum: int)
    | SetPhrase(newHash: Option<seq<int>>)
    | Initiate(kind: Kind, target: Address, targetKey: Key, hash: seq<int>)
    | GuardianApproval(id: Id, guardianKey: Key)
    | OwnApproval(id: Id, approver: Address, sig: Signature)
    | ExecuteRecovery(id: Id)
    | OwnExecute(id: Id)
    | Cancel(id: Id)

  function NewId(s: State, target: Address, now: int): Id {
    Id(s.forkID, s.forkID, s.owner, target, now)
  }

  function NewRecovery(s: State, kind: Kind, target: Address, hash: seq<int>, now: int): Recovery {
    var id := NewId(s, target, now);
    match kind
    case TimeLock => Recovery(id, Pending, TimeLock, 0, now + LockDuration, [], 0, [], [])
    case Social => Recovery(id, Pending, Social, 0, 0, [], s.quorum, s.guardians, [])
    case Phrase => Recovery(id, Approved, Phrase, 0, 0, [], 0, [], hash)
  }

  function Put(s: State, r: Recovery): State {
    s.(recoveries := s.recoveries[r.id := r])
  }

  function Step(s: State, op: Op, now: int): Result<State, Error> {
    match op
    case SetupSocial(guardians, quorum) =>
      if quorum > |guardians| || quorum < 1 then Err(BadQuorum)
      else Ok(s.(guardians := guardians, quorum := quorum))
    case SetPhrase(hash) => Ok(s.(phraseHash := hash))
    case Initiate(kind, target, key, hash) =>
      if kind == Social && s.guardians == [] then Err(NotConfigured)
      else if kind == Phrase && s.phraseHash.None? then Err(NotConfigured)
      else if kind == Phrase && s.phraseHash.value != hash then Err(BadPhrase)
      else if AddressOf(key) != target then Err(NotTargetKey)
      else Ok(Put(s, NewRecovery(s, kind, target, hash, now)))
    case GuardianApproval(id, key) =>
      if id !in s.recoveries then Err(NotFound)
      else if s.recoveries[id].kind != Social then Err(NotSocial)
      else Approving(s, id, AddressOf(key), Signed(AddressOf(key), id, AddressOf(key)), now)
    case OwnApproval(id, approver, sig) =>
      if id !in s.recoveries then Err(NotFound) else Approving(s, id, approver, sig, now)
    case ExecuteRecovery(id) =>
      if id !in s.recoveries then Err(NotFound)
      else if Blocked(s.recoveries[id], now).Some? then Err(Blocked(s.recoveries[id], now).value)
      else Ok(Put(s, s.recoveries[id].(phase := Executed, completedAt := now)).(owner := s.recoveries[id].id.target))
    case OwnExecute(id) =>
      if id !in s.recoveries then Err(NotFound)
      else if Blocked(s.recoveries[id], now).Some? then Err(Blocked(s.recoveries[id], now).value)
      else Ok(Put(s, s.recoveries[id].(phase := Executed, completedAt := now)))
    case Cancel(id) =>
      if id !in s.recoveries then Err(NotFound)
      else Ok(Put(s, s.recoveries[id].(phase := Cancelled, completedAt := now)))
  }

  function Approving(s: State, id: Id, approver: Address, sig: Signature, now: int): Result<State, Error>
    requires id in s.recoveries
  {
    var res := Approve(s.recoveries[id], approver, sig, now);
    if res.Err? then Err(res.error) else Ok(Put(s, res.value))
  }

  function Next(s: State, op: Op, now: int): State {
    var res := Step(s, op, now);
    if res.Ok? then res.value else s
  }

  // ---------- the invariant ----------

  ghost predicate ApprovalsOk(r: Recovery) {
    && (forall i | 0 <= i < |r.approvals| ::
          && r.approvals[i].approver in r.guardians
          && SignerOf(r.id, r.approvals[i].approver, r.approvals[i].sig) == Some(r.approvals[i].approver))
    && (forall i, j | 0 <= i < j < |r.approvals| :: r.approvals[i].approver != r.approvals[j].approver)
  }

  ghost predicate RecoveryOk(r: Recovery) {
    && ApprovalsOk(r) && r.phase !in {Initiated, Failed}
    && (r.kind == Social ==> r.required >= 1 && (r.phase == Approved ==> |r.approvals| >= r.required))
    && (r.kind != Social ==> r.guardians == [])
    && (r.kind == TimeLock ==> r.expiry == r.id.initiatedAt + LockDuration)
  }

  ghost predicate Inv(s: State) {
    && (s.guardians == [] || 1 <= s.quorum <= |s.guardians|)
    && (forall id | id in s.recoveries :: s.recoveries[id].id == id && RecoveryOk(s.recoveries[id]))
  }

  lemma ApproveKeeps(r: Recovery, approver: Address, sig: Signature, now: int)
    requires RecoveryOk(r) && Approve(r, approver, sig, now).Ok?
    ensures RecoveryOk(Approve(r, approver, sig, now).value)
    ensures r.kind == Social
  {
    assert approver in r.guardians;
  }

  lemma StepKeepsInv(s: State, op: Op, now: int)
    requires Inv(s)
    ensures Inv(Next(s, op, now))
  {
    var res := Step(s, op, now);
    if res.Ok? {
      match op
      case GuardianApproval(id, key) =>
        hide RecoveryOk, Approve;
        ApproveKeeps(s.recoveries[id], AddressOf(key), Signed(AddressOf(key), id, AddressOf(key)), now);
        ApproveId(s.recoveries[id], AddressOf(key), Signed(AddressOf(key), id, AddressOf(key)), now);
      case OwnApproval(id, approver, sig) =>
        hide RecoveryOk, Approve;
        ApproveKeeps(s.recoveries[id], approver, sig, now);
        ApproveId(s.recoveries[id], approver, sig, now);
      case _ =>
        hide ApprovalsOk;
        PlainStepKeepsInv(s, op, now);
    }
  }

  lemma PlainStepKeepsInv(s: State, op: Op, now: int)
    requires Inv(s) && Step(s, op, now).Ok? && !op.GuardianApproval? && !op.OwnApproval?
    ensures Inv(Next(s, op, now))
  {
    hide Approve;
  }

  /** An accepted approval adds one entry and changes nothing of the recovery but its phase. */
  lemma ApproveId(r: Recovery, approver: Address, sig: Signature, now: int)
    requires Approve(r, approver, sig, now).Ok?
    ensures var r' := Approve(r, approver, sig, now).value;
            && r'.approvals == r.approvals + [Approval(approver, now, sig)]
            && r' == r.(approvals := r'.approvals, phase := r'.phase)
  {
  }

  // ---------- whole runs ----------

  datatype Event = Event(op: Op, now: int)

  function Run(s: State, events: seq<Event>): State {
    if events == [] then s else
    var last := events[|events| - 1];
    Next(Run(s, events[..|events| - 1]), last.op, last.now)
  }

  lemma RunSnoc(s: State, events: seq<Event>, e: Event)
    ensures Run(s, events + [e]) == Next(Run(s, events), e.op, e.now)
  {
    assert (events + [e])[..|events|] == events;
  }

  lemma {:induction false} EveryRunKeepsInv(forkID: nat, owner: Address, events: seq<Event>)
    ensures Inv(Run(Fresh(forkID, owner), events))
  {
    if events != [] {
      var n := |events| - 1;
      EveryRunKeepsInv(forkID, owner, events[..n]);
      StepKeepsInv(Run(Fresh(forkID, owner), events[..n]), events[n].op, events[n].now);
    }
  }

  /** What is fixed when a recovery is initiated. */
  ghost predicate SameTerms(r: Recovery, r': Recovery) {
    r' == r.(phase := r'.phase, completedAt := r'.completedAt, approvals := r'.approvals)
  }

  /** The initiation that an operation performs, if it performs one. */
  ghost predicate Starts(s: State, op: Op, now: int, r: Recovery) {
    op.Initiate? && Step(s, op, now).Ok? && r == NewRecovery(s, op.kind, op.target, op.hash, now)
  }

  /** A recovery is there after a step because the step started it, or because it was there before. */
  lemma StepOn(s: State, op: Op, now: int, id: Id)
    requires Inv(s) && id in Next(s, op, now).recoveries
    ensures var r' := Next(s, op, now).recoveries[id];
            Starts(s, op, now, r') || (id in s.recoveries && SameTerms(s.recoveries[id], r'))
  {
    hide RecoveryOk;
    match op
    case GuardianApproval(j, key) =>
      hide Approve;
      if j in s.recoveries && Step(s, op, now).Ok? {
        ApproveId(s.recoveries[j], AddressOf(key), Signed(AddressOf(key), j, AddressOf(key)), now);
      }
    case OwnApproval(j, approver, sig) =>
      hide Approve;
      if j in s.recoveries && Step(s, op, now).Ok? {
        ApproveId(s.recoveries[j], approver, sig, now);
      }
    case _ =>
  }

  /** Event j of the run started recovery r, on the terms r still has. */
  ghost predicate StartedAt(s0: State, events: seq<Event>, j: nat, r: Recovery)
    requires j < |events|
  {
    exists r0 :: Starts(Run(s0, events[..j]), events[j].op, events[j].now, r0) && SameTerms(r0, r)
  }

  lemma {:induction false} WasStarted(forkID: nat, owner: Address, events: seq<Event>, id: Id)
    requires id in Run(Fresh(forkID, owner), events).recoveries
    ensures exists j | 0 <= j < |events| :: StartedAt(Fresh(forkID, owner), events, j, Run(Fresh(forkID, owner), events).recoveries[id])
  {
    hide Step, Starts;
    var s0 := Fresh(forkID, owner);
    if events != [] {
      var n := |events| - 1;
      var s, e := Run(s0, events[..n]), events[n];
      var r' := Run(s0, events).recoveries[id];
      EveryRunKeepsInv(forkID, owner, events[..n]);
      StepOn(s, e.op, e.now, id);
      if Starts(s, e.op, e.now, r') {
        assert StartedAt(s0, events, n, r');
      } else {
        WasStarted(forkID, owner, events[..n], id);
        var j :| 0 <= j < n && StartedAt(s0, events[..n], j, s.recoveries[id]);
        var r0 :| Starts(Run(s0, events[..n][..j]), events[..n][j].op, events[..n][j].now, r0) && SameTerms(r0, s.recoveries[id]);
        assert events[..n][..j] == events[..j];
        assert StartedAt(s0, events, j, r');
      }
    }
  }

  /** What lets a recovery be executed at a moment. */
  ghost predicate Justified(r: Recovery, now: int) {
    match r.kind
    case Social => 1 <= r.required <= |r.approvals| && ApprovalsOk(r)
    case TimeLock => now >= r.id.initiatedAt + LockDuration
    case Phrase => true
  }

  /** How the configuration in force at initiation bound the recovery. */
  ghost predicate BoundBy(s: State, e: Event, r: Recovery) {
    && e.op.Initiate? && e.op.kind == r.kind && e.now == r.id.initiatedAt
    && r.id.source == s.owner && r.id.target == e.op.target == AddressOf(e.op.targetKey)
    && (r.kind == Social ==> r.guardians == s.guardians && r.required == s.quorum && 1 <= s.quorum <= |s.guardians|)
    && (r.kind == Phrase ==> s.phraseHash == Some(e.op.hash) && r.phraseHash == e.op.hash)
  }

  lemma StartedIsBound(s: State, e: Event, r0: Recovery, r: Recovery)
    requires Inv(s) && Starts(s, e.op, e.now, r0) && SameTerms(r0, r)
    ensures BoundBy(s, e, r)
  {
  }

  lemma OwnerStep(s: State, op: Op, now: int)
    requires Inv(s) && Next(s, op, now).owner != s.owner
    ensures op.ExecuteRecovery? && op.id in s.recoveries && s.recoveries[op.id].id == op.id
    ensures Next(s, op, now).owner == op.id.target && Justified(s.recoveries[op.id], now)
  {
    hide ApprovalsOk, Approve;
  }

  /** Some event of the run bound recovery r. */
  lemma WasBound(forkID: nat, owner: Address, events: seq<Event>, id: Id)
    requires id in Run(Fresh(forkID, owner), events).recoveries
    ensures exists j | 0 <= j < |events| ::
              BoundBy(Run(Fresh(forkID, owner), events[..j]), events[j], Run(Fresh(forkID, owner), events).recoveries[id])
  {
    hide Step, Starts, BoundBy, SameTerms, Run;
    var s0 := Fresh(forkID, owner);
    var r := Run(s0, events).recoveries[id];
    WasStarted(forkID, owner, events, id);
    var j :| 0 <= j < |events| && StartedAt(s0, events, j, r);
    var r0 :| Starts(Run(s0, events[..j]), events[j].op, events[j].now, r0) && SameTerms(r0, r);
    EveryRunKeepsInv(forkID, owner, events[..j]);
    StartedIsBound(Run(s0, events[..j]), events[j], r0, r);
  }

  /** The owner changes only by executing a recovery towards the new owner. Its holder initiated it in
      an earlier call; by now a social recovery has the quorum then in force of valid approvals from
      distinct guardians then configured, a time lock has run its full duration, and a phrase recovery
      was opened with the phrase then configured. */
  lemma OwnerChanges(forkID: nat, owner: Address, events: seq<Event>, e: Event)
    requires var s := Run(Fresh(forkID, owner), events); Next(s, e.op, e.now).owner != s.owner
    ensures var s := Run(Fresh(forkID, owner), events);
            && e.op.ExecuteRecovery? && e.op.id in s.recoveries
            && Next(s, e.op, e.now).owner == e.op.id.target
            && Justified(s.recoveries[e.op.id], e.now)
            && exists j | 0 <= j < |events| ::
                 BoundBy(Run(Fresh(forkID, owner), events[..j]), events[j], s.recoveries[e.op.id])
  {
    hide *;
    EveryRunKeepsInv(forkID, owner, events);
    OwnerStep(Run(Fresh(forkID, owner), events), e.op, e.now);
    WasBound(forkID, owner, events, e.op.id);
  }

  /** Exactly when a stored recovery can be executed: it is not closed, and a time lock has run its full
      duration since the initiation, a social recovery has its quorum; a phrase needs nothing more. */
  lemma ExecutableIff(s: State, id: Id, now: int)
    requires Inv(s) && id in s.recoveries
    ensures var r := s.recoveries[id];
            Step(s, ExecuteRecovery(id), now).Ok? <==>
              && r.phase != Executed && r.phase != Cancelled
              && (r.kind == TimeLock ==> now >= id.initiatedAt + 604800)
              && (r.kind == Social ==> |r.approvals| >= r.required)
  {
    hide ApprovalsOk;
  }

  /** What executing and cancelling do: the one hands over the ownership, the other never does, and
      executing a recovery by itself closes it without handing over. */
  lemma ClosingSteps(s: State, id: Id, now: int)
    requires Inv(s) && id in s.recoveries
    ensures var r, c := s.recoveries[id], Next(s, Cancel(id), now);
            c.owner == s.owner && c.recoveries == s.recoveries[id := r.(phase := Cancelled, completedAt := now)]
    ensures var r, e, o := s.recoveries[id], Next(s, ExecuteRecovery(id), now), Next(s, OwnExecute(id), now);
            && e.recoveries == o.recoveries && o.owner == s.owner
            && (Step(s, ExecuteRecovery(id), now).Ok? <==> Step(s, OwnExecute(id), now).Ok?)
            && (Step(s, ExecuteRecovery(id), now).Ok? ==>
                  e.owner == id.target && e.recoveries == s.recoveries[id := r.(phase := Executed, completedAt := now)])
            && (Step(s, ExecuteRecovery(id), now).Err? ==> e == s && o == s)
  {
    hide RecoveryOk, Blocked;
  }

  /** An opened time lock can be executed once its duration is over, and not a moment before. */
  lemma TimeLockOpens(s: State, target: Address, key: Key, now: int, later: int)
    requires Inv(s) && AddressOf(key) == target
    ensures var s' := Next(s, Initiate(TimeLock, target, key, []), now);
            var id := Id(s.forkID, s.forkID, s.owner, target, now);
            && id in s'.recoveries && s'.owner == s.owner
            && (Step(s', ExecuteRecovery(id), later).Ok? <==> later >= now + 604800)
            && (later >= now + 604800 ==> Next(s', ExecuteRecovery(id), later).owner == target)
  {
    hide RecoveryOk;
  }

  // ---------- finality ----------

  predicate IsClosed(r: Recovery) {
    r.phase in {Executed, Cancelled, Failed}
  }

  /** A call that initiates a recovery with the given ID: same owner, target and second. */
  ghost predicate Restarts(s: State, op: Op, now: int, id: Id) {
    && op.Initiate? && NewId(s, op.target, now) == id && AddressOf(op.targetKey) == op.target
    && (op.kind == Social ==> s.guardians != []) && (op.kind == Phrase ==> s.phraseHash == Some(op.hash))
  }

  function Approver(op: Op): Address
    requires op.GuardianApproval? || op.OwnApproval?
  {
    if op.GuardianApproval? then AddressOf(op.guardianKey) else op.approver
  }

  /** A valid approval by a guardian that has not approved yet, completing the required number. */
  ghost predicate Revives(r: Recovery, op: Op) {
    && (op.GuardianApproval? || op.OwnApproval?) && op.id == r.id
    && (op.OwnApproval? ==> op.sig == Signed(op.approver, r.id, op.approver))
    && Approver(op) in r.guardians && !HasApproved(r, Approver(op)) && |r.approvals| + 1 >= r.required
  }

  /** Exactly when a call opens an executed or cancelled recovery again. */
  lemma ReopensIff(s: State, op: Op, now: int, id: Id)
    requires Inv(s) && id in s.recoveries && IsClosed(s.recoveries[id])
    ensures id in Next(s, op, now).recoveries
    ensures !IsClosed(Next(s, op, now).recoveries[id]) <==>
              Restarts(s, op, now, id) || (s.recoveries[id].kind == Social && Revives(s.recoveries[id], op))
  {
    var r := s.recoveries[id];
    assert r.id == id && (r.kind != Social ==> r.guardians == []);
    if op.GuardianApproval? || op.OwnApproval? {
      ApprovalStep(s, op, now, id);
    } else {
      OtherStep(s, op, now, id);
    }
  }

  lemma ApprovalStep(s: State, op: Op, now: int, id: Id)
    requires (op.GuardianApproval? || op.OwnApproval?) && id in s.recoveries && s.recoveries[id].id == id && IsClosed(s.recoveries[id])
    requires s.recoveries[id].kind != Social ==> s.recoveries[id].guardians == []
    requires op.id in s.recoveries ==> s.recoveries[op.id].id == op.id
    ensures id in Next(s, op, now).recoveries
    ensures !IsClosed(Next(s, op, now).recoveries[id]) <==> s.recoveries[id].kind == Social && Revives(s.recoveries[id], op)
  {
    var r := s.recoveries[id];
    var sig := if op.OwnApproval? then op.sig else Signed(Approver(op), op.id, Approver(op));
    ApprovalReopensIff(r, Approver(op), sig, now);
    if op.id in s.recoveries && op.id != id && Approve(s.recoveries[op.id], Approver(op), sig, now).Ok? {
      ApproveId(s.recoveries[op.id], Approver(op), sig, now);
    }
    hide Approve, IsClosed, HasApproved;
  }

  lemma OtherStep(s: State, op: Op, now: int, id: Id)
    requires !op.GuardianApproval? && !op.OwnApproval? && id in s.recoveries && IsClosed(s.recoveries[id])
    requires forall j | j in s.recoveries :: s.recoveries[j].id == j
    ensures id in Next(s, op, now).recoveries
    ensures !IsClosed(Next(s, op, now).recoveries[id]) <==> Restarts(s, op, now, id)
  {
    hide Approve, HasApproved, Approving;
  }

  lemma ApprovalReopensIff(r: Recovery, approver: Address, sig: Signature, now: int)
    requires IsClosed(r)
    ensures var res := Approve(r, approver, sig, now);
            && (res.Ok? ==> res.value.id == r.id)
            && ((res.Ok? && !IsClosed(res.value)) <==>
                  && sig == Signed(approver, r.id, approver) && approver in r.guardians && !HasApproved(r, approver)
                  && |r.approvals| + 1 >= r.required)
  {
    hide HasApproved;
  }

  /** From the second after its initiation on, a closed time-lock or phrase recovery stays closed. */
  lemma {:induction false} ClosedForGood(s: State, events: seq<Event>, id: Id)
    requires Inv(s) && id in s.recoveries && IsClosed(s.recoveries[id]) && s.recoveries[id].kind != Social
    requires forall e | e in events :: e.now > id.initiatedAt
    ensures Inv(Run(s, events)) && id in Run(s, events).recoveries
    ensures IsClosed(Run(s, events).recoveries[id]) && Run(s, events).recoveries[id].kind == s.recoveries[id].kind
  {
    hide Step, Inv, IsClosed, SameTerms;
    if events != [] {
      var n := |events| - 1;
      ClosedForGood(s, events[..n], id);
      var t, e := Run(s, events[..n]), events[n];
      assert e in events;
      StepKeepsInv(t, e.op, e.now);
      ReopensIff(t, e.op, e.now, id);
      StepOn(t, e.op, e.now, id);
      NotStarted(t, e, id);
    }
  }

  lemma NotStarted(s: State, e: Event, id: Id)
    requires e.now > id.initiatedAt && Inv(s) && id in s.recoveries && id in Next(s, e.op, e.now).recoveries
    requires Inv(Next(s, e.op, e.now))
    ensures !Starts(s, e.op, e.now, Next(s, e.op, e.now).recoveries[id])
    ensures SameTerms(s.recoveries[id], Next(s, e.op, e.now).recoveries[id]) ==>
              s.recoveries[id].kind == Next(s, e.op, e.now).recoveries[id].kind
  {
    hide Step, RecoveryOk;
  }

  /** So in a run whose clock does not go back, a time lock is executed at most once, and a phrase
      recovery at most once after the second of its initiation. */
  lemma ExecutesOnce(s: State, id: Id, now: int, later: seq<Event>, again: int)
    requires Inv(s) && Step(s, ExecuteRecovery(id), now).Ok? && s.recoveries[id].kind != Social
    requires s.recoveries[id].kind == Phrase ==> now > id.initiatedAt
    requires forall e | e in later :: e.now >= now
    ensures Step(Run(Next(s, ExecuteRecovery(id), now), later), ExecuteRecovery(id), again) == Err(Closed)
  {
    StepKeepsInv(s, ExecuteRecovery(id), now);
    assert now > id.initiatedAt;
    ClosedForGood(Next(s, ExecuteRecovery(id), now), later, id);
  }

  /** A social recovery is not final: with more guardians than the quorum it can be executed twice. */
  lemma SocialExecutesTwice(alice: Key, bob: Key, now: int)
    requires alice != bob
    ensures var owner, target := AddressOf(alice), AddressOf(bob);
            var id := Id(0, 0, owner, target, now);
            var s1 := Next(Fresh(0, owner), SetupSocial([owner, target], 1), now);
            var s2 := Next(Next(s1, Initiate(Social, target, bob, []), now), GuardianApproval(id, alice), now);
            var s3 := Next(s2, ExecuteRecovery(id), now);
            var s4 := Next(s3, GuardianApproval(id, bob), now);
            Step(s2, ExecuteRecovery(id), now).Ok? && Step(s3, ExecuteRecovery(id), now).Err? && Step(s4, ExecuteRecovery(id), now).Ok?
  {
  }

  // ---------- the quorum ----------

  function Distinct(addresses: seq<Address>): set<Address> {
    set a | a in addresses
  }

  function Approvers(approvals: seq<Approval>): set<Address> {
    set i | 0 <= i < |approvals| :: approvals[i].approver
  }

  lemma {:induction false} ApproversCount(approvals: seq<Approval>)
    requires forall i, j | 0 <= i < j < |approvals| :: approvals[i].approver != approvals[j].approver
    ensures |Approvers(approvals)| == |approvals|
  {
    if approvals != [] {
      var n := |approvals| - 1;
      var init := approvals[..n];
      ApproversCount(init);
      forall a | a in Approvers(approvals) ensures a in Approvers(init) + {approvals[n].approver} {
        var i :| 0 <= i < |approvals| && approvals[i].approver == a;
        if i < n { assert init[i].approver == a; }
      }
      forall a | a in Approvers(init) ensures a in Approvers(approvals) {
        var i :| 0 <= i < n && init[i].approver == a;
        assert approvals[i].approver == a;
      }
      assert Approvers(approvals) == Approvers(init) + {approvals[n].approver};
    }
  }

  lemma Fits(a: set<Address>, b: set<Address>)
    requires a <= b
    ensures |a| <= |b| && (|a| < |b| ==> exists x :: x in b && x !in a)
  {
    assert b == a + (b - a);
    if |a| < |b| {
      var x :| x in b - a;
    }
  }

  /** There are never more approvals than distinct guardians, and with fewer one more can be given. */
  lemma RoomForApproval(r: Recovery)
    requires ApprovalsOk(r)
    ensures |r.approvals| <= |Distinct(r.guardians)|
    ensures |r.approvals| < |Distinct(r.guardians)| ==> exists a :: a in r.guardians && !HasApproved(r, a)
  {
    ApproversCount(r.approvals);
    Fits(Approvers(r.approvals), Distinct(r.guardians));
  }

  /** Nothing that happens after the second of its initiation changes a recovery's terms. */
  lemma {:induction false} TermsKept(s: State, events: seq<Event>, id: Id)
    requires Inv(s) && id in s.recoveries
    requires forall e | e in events :: e.now > id.initiatedAt
    ensures Inv(Run(s, events)) && id in Run(s, events).recoveries
    ensures SameTerms(s.recoveries[id], Run(s, events).recoveries[id])
  {
    hide Step, Inv;
    if events != [] {
      var n := |events| - 1;
      TermsKept(s, events[..n], id);
      var t, e := Run(s, events[..n]), events[n];
      assert e in events;
      StepKeepsInv(t, e.op, e.now);
      KeptStored(t, e.op, e.now, id);
      StepOn(t, e.op, e.now, id);
      NotStarted(t, e, id);
    }
  }

  lemma KeptStored(s: State, op: Op, now: int, id: Id)
    requires id in s.recoveries
    ensures id in Next(s, op, now).recoveries
  {
    hide Approve, Blocked, NewRecovery;
  }

  /** Guardians can bring an open social recovery to any number of approvals up to their own number. */
  lemma {:induction false} ApprovalsReach(s: State, id: Id, k: nat) returns (events: seq<Event>)
    requires Inv(s) && id in s.recoveries && s.recoveries[id].kind == Social && !IsClosed(s.recoveries[id])
    requires |s.recoveries[id].approvals| <= k <= |Distinct(s.recoveries[id].guardians)|
    ensures forall e | e in events :: e.now > id.initiatedAt
    ensures Inv(Run(s, events)) && id in Run(s, events).recoveries
    ensures var r := Run(s, events).recoveries[id];
            |r.approvals| == k && !IsClosed(r) && SameTerms(s.recoveries[id], r)
    decreases k
  {
    events := [];
    if |s.recoveries[id].approvals| < k {
      hide Step, Inv, Run;
      events := ApprovalsReach(s, id, k - 1);
      var t := Run(s, events);
      var e := OneMoreApproval(t, id);
      RunSnoc(s, events, e);
      StepKeepsInv(t, e.op, e.now);
      events := events + [e];
    }
  }

  lemma OneMoreApproval(s: State, id: Id) returns (e: Event)
    requires Inv(s) && id in s.recoveries && s.recoveries[id].kind == Social && !IsClosed(s.recoveries[id])
    requires |s.recoveries[id].approvals| < |Distinct(s.recoveries[id].guardians)|
    ensures e.now > id.initiatedAt && id in Next(s, e.op, e.now).recoveries
    ensures var r, r' := s.recoveries[id], Next(s, e.op, e.now).recoveries[id];
            SameTerms(r, r') && !IsClosed(r') && |r'.approvals| == |r.approvals| + 1
  {
    var r := s.recoveries[id];
    RoomForApproval(r);
    var a :| a in r.guardians && !HasApproved(r, a);
    e := Event(GuardianApproval(id, Key(a.id)), id.initiatedAt + 1);
    assert Approve(r, a, Signed(a, id, a), e.now).Ok?;
  }

  ghost predicate ExecutableAfter(s: State, events: seq<Event>, id: Id) {
    && (forall e | e in events :: e.now > id.initiatedAt)
    && exists now :: Step(Run(s, events), ExecuteRecovery(id), now).Ok?
  }

  /** An open social recovery can still be executed exactly if its guardian list, in which the setup
      allows repetitions, has as many distinct members as the quorum. */
  lemma SocialExecutableIff(s: State, id: Id)
    requires Inv(s) && id in s.recoveries && s.recoveries[id].kind == Social && !IsClosed(s.recoveries[id])
    ensures (exists events :: ExecutableAfter(s, events, id)) <==>
              s.recoveries[id].required <= |Distinct(s.recoveries[id].guardians)|
  {
    var r := s.recoveries[id];
    forall events | ExecutableAfter(s, events, id) ensures r.required <= |Distinct(r.guardians)| {
      TermsKept(s, events, id);
      RoomForApproval(Run(s, events).recoveries[id]);
    }
    if r.required <= |Distinct(r.guardians)| {
      RoomForApproval(r);
      var events := ApprovalsReach(s, id, Max(r.required, |r.approvals|));
      assert Step(Run(s, events), ExecuteRecovery(id), 0).Ok?;
      assert ExecutableAfter(s, events, id);
    }
  }

  // ---------- the manager ----------

  class RecoveryManager {
    const forkID: nat
    var owner: Address
    var recoveries: map<Id, Recovery>
    var guardians: seq<Address>
    var guardianQuorum: int
    var recoveryPhraseHash: Option<seq<int>>

    function Abstract(): State
      reads this
    {
      State(forkID, owner, recoveries, guardians, guardianQuorum, recoveryPhraseHash)
    }

    constructor (forkID: nat, owner: Address)
      ensures Abstract() == Fresh(forkID, owner) && Inv(Abstract())
      ensures this.owner == owner && recoveries == map[] && guardians == [] && guardianQuorum == 0 && recoveryPhraseHash == None
    {
      this.forkID, this.owner, recoveries := forkID, owner, map[];
      guardians, guardianQuorum, recoveryPhraseHash := [], 0, None;
    }

    method SetupSocialRecovery(newGuardians: seq<Address>, quorum: int) returns (err: Option<Error>)
      requires Inv(Abstract())
      modifies this
      ensures Inv(Abstract())
      ensures forall now :: Abstract() == Next(old(Abstract()), SetupSocial(newGuardians, quorum), now)
      ensures err.None? <==> 1 <= quorum <= |newGuardians|
      ensures err.None? ==> guardians == newGuardians && guardianQuorum == quorum
      ensures err.Some? ==> guardians == old(guardians) && guardianQuorum == old(guardianQuorum)
      ensures owner == old(owner) && recoveries == old(recoveries) && recoveryPhraseHash == old(recoveryPhraseHash)
    {
      if quorum > |newGuardians| || quorum < 1 { return Some(BadQuorum); }
      guardians, guardianQuorum := newGuardians, quorum;
      return None;
    }

    method SetRecoveryPhrase(phraseHash: Option<seq<int>>)
      requires Inv(Abstract())
      modifies this
      ensures Inv(Abstract()) && forall now :: Abstract() == Next(old(Abstract()), SetPhrase(phraseHash), now)
      ensures recoveryPhraseHash == phraseHash && owner == old(owner) && recoveries == old(recoveries)
      ensures guardians == old(guardians) && guardianQuorum == old(guardianQuorum)
    {
      recoveryPhraseHash := phraseHash;
    }

    method InitiateTimeLockRecovery(target: Address, targetKey: Key, now: int) returns (res: Result<Recovery, Error>)
      requires Inv(Abstract())
      modifies this
      ensures Inv(Abstract()) && Abstract() == Next(old(Abstract()), Initiate(TimeLock, target, targetKey, []), now)
      ensures res.Ok? <==> AddressOf(targetKey) == target
      ensures res.Ok? ==> res.value == Recovery(Id(forkID, forkID, owner, target, now), Pending, TimeLock, 0, now + 604800, [], 0, [], [])
      ensures recoveries == (if res.Ok? then old(recoveries)[res.value.id := res.value] else old(recoveries)) && owner == old(owner)
    {
      var id := Id(forkID, forkID, owner, target, now);
      var recovery := Recovery(id, Pending, TimeLock, 0, now + LockDuration, [], 0, [], []);
      StepKeepsInv(Abstract(), Initiate(TimeLock, target, targetKey, []), now);
      if AddressOf(targetKey) != target { return Err(NotTargetKey); }
      recoveries := recoveries[id := recovery];
      return Ok(recovery);
    }

    method InitiateSocialRecovery(target: Address, targetKey: Key, now: int) returns (res: Result<Recovery, Error>)
      requires Inv(Abstract())
      modifies this
      ensures Inv(Abstract()) && Abstract() == Next(old(Abstract()), Initiate(Social, target, targetKey, []), now)
      ensures res.Ok? <==> old(guardians) != [] && AddressOf(targetKey) == target
      ensures res.Ok? ==> res.value == Recovery(Id(forkID, forkID, owner, target, now), Pending, Social, 0, 0, [], guardianQuorum, guardians, [])
      ensures recoveries == (if res.Ok? then old(recoveries)[res.value.id := res.value] else old(recoveries)) && owner == old(owner)
    {
      StepKeepsInv(Abstract(), Initiate(Social, target, targetKey, []), now);
      if |guardians| == 0 { return Err(NotConfigured); }
      var id := Id(forkID, forkID, owner, target, now);
      var recovery := Recovery(id, Pending, Social, 0, 0, [], guardianQuorum, guardians, []);
      if AddressOf(targetKey) != target { return Err(NotTargetKey); }
      recoveries := recoveries[id := recovery];
      return Ok(recovery);
    }

    method InitiatePhraseRecovery(target: Address, targetKey: Key, phraseHash: seq<int>, now: int) returns (res: Result<Recovery, Error>)
      requires Inv(Abstract())
      modifies this
      ensures Inv(Abstract()) && Abstract() == Next(old(Abstract()), Initiate(Phrase, target, targetKey, phraseHash), now)
      ensures res.Ok? <==> old(recoveryPhraseHash) == Some(phraseHash) && AddressOf(targetKey) == target
      ensures res.Ok? ==> res.value == Recovery(Id(forkID, forkID, owner, target, now), Approved, Phrase, 0, 0, [], 0, [], phraseHash)
      ensures recoveries == (if res.Ok? then old(recoveries)[res.value.id := res.value] else old(recoveries)) && owner == old(owner)
    {
      StepKeepsInv(Abstract(), Initiate(Phrase, target, targetKey, phraseHash), now);
      if recoveryPhraseHash.None? { return Err(NotConfigured); }
      if |phraseHash| != |recoveryPhraseHash.value| { return Err(BadPhrase); }
      for i := 0 to |phraseHash|
        invariant phraseHash[..i] == recoveryPhraseHash.value[..i]
      {
        if phraseHash[i] != recoveryPhraseHash.value[i] { return Err(BadPhrase); }
      }
      assert phraseHash == phraseHash[..|phraseHash|] == recoveryPhraseHash.value;
      var id := Id(forkID, forkID, owner, target, now);
      var recovery := Recovery(id, Approved, Phrase, 0, 0, [], 0, [], phraseHash);
      if AddressOf(targetKey) != target { return Err(NotTargetKey); }
      recoveries := recoveries[id := recovery];
      return Ok(recovery);
    }

    method AddGuardianApproval(id: Id, guardianKey: Key, now: int) returns (err: Option<Error>)
      requires Inv(Abstract())
      modifies this
      ensures Inv(Abstract()) && Abstract() == Next(old(Abstract()), GuardianApproval(id, guardianKey), now)
      ensures err.None? <==>
              && id in old(recoveries) && old(recoveries)[id].kind == Social && AddressOf(guardianKey) in old(recoveries)[id].guardians
              && forall i | 0 <= i < |old(recoveries)[id].approvals| :: old(recoveries)[id].approvals[i].approver != AddressOf(guardianKey)
      ensures err.None? ==>
              var r, a := old(recoveries)[id], AddressOf(guardianKey);
              recoveries == old(recoveries)[id := r.(approvals := r.approvals + [Approval(a, now, Signed(a, id, a))],
                                                     phase := if |r.approvals| + 1 >= r.required then Approved else r.phase)]
      ensures owner == old(owner) && (err.Some? ==> recoveries == old(recoveries))
    {
      StepKeepsInv(Abstract(), GuardianApproval(id, guardianKey), now);
      if id !in recoveries { return Some(NotFound); }
      var recovery := recoveries[id];
      if recovery.kind != Social { return Some(NotSocial); }
      var guardian := AddressOf(guardianKey);
      var res := AddApproval(recovery, guardian, Signed(guardian, id, guardian), now);
      if res.Err? { return Some(res.error); }
      recoveries := recoveries[id := res.value];
      return None;
    }

    method ExecuteRecovery(id: Id, now: int) returns (err: Option<Error>)
      requires Inv(Abstract())
      modifies this
      ensures Inv(Abstract()) && Abstract() == Next(old(Abstract()), Op.ExecuteRecovery(id), now)
      ensures err.None? <==>
              && id in old(recoveries) && old(recoveries)[id].phase != Executed && old(recoveries)[id].phase != Cancelled
              && (old(recoveries)[id].kind == TimeLock ==> now >= id.initiatedAt + 604800)
              && (old(recoveries)[id].kind == Social ==> |old(recoveries)[id].approvals| >= old(recoveries)[id].required)
      ensures err.None? ==> Justified(old(recoveries)[id], now) && owner == id.target
      ensures err.None? ==> recoveries == old(recoveries)[id := old(recoveries)[id].(phase := Executed, completedAt := now)]
      ensures err.Some? ==> recoveries == old(recoveries) && owner == old(owner)
    {
      StepKeepsInv(Abstract(), Op.ExecuteRecovery(id), now);
      if id in recoveries { ExecutableIff(Abstract(), id, now); }
      if id !in recoveries { return Some(NotFound); }
      var recovery := recoveries[id];
      var reason := Blocked(recovery, now);
      if reason.Some? { return reason; }
      recoveries := recoveries[id := recovery.(phase := Executed, completedAt := now)];
      owner := recovery.id.target;
      return None;
    }
  }
}
