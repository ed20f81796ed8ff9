/**
 Key rotation (identity/rotation.go): continuity proofs signed by the old and the new key, the
 rotation manager, and the check of a whole rotation chain. Signatures are ideal: a signature
 records who signed what, and recovering the signer succeeds only for the message that was signed.
 */
module Rotation {
  import opened Common

  datatype Address = Address(id: nat)
  datatype Key = Key(secret: nat)

  function AddressOf(key: Key): Address {
    Address(key.secret)
  }

  const RotationRecovery: string := "recovery"
  const LockDuration: int := 7 * 24 * 60 * 60

  datatype RecoveryMethod = Phrase | Social | TimeLock
  datatype TimeLockProof = TimeLockProof(initiatedAt: int, lockDuration: int)
  datatype RecoveryProof = RecoveryProof(how: RecoveryMethod, timeLock: Option<TimeLockProof>)

  /** The fields of a continuity proof other than its two signatures. */
  datatype Body = Body(
    version: int, oldAddress: Address, newAddress: Address, forkID: nat, rotationNumber: int,
    reason: string, timestamp: int, effectiveAt: int, gracePeriodEnd: int,
    recoveryProof: Option<RecoveryProof>)

  /** The signed bytes: the marshalled proof, with its old-key signature field, followed by raw bytes. */
  datatype Message = Message(body: Body, oldField: Signature, suffix: Signature)
  datatype Signature = NoSignature | Signed(signer: Address, message: Message)

  function Sign(message: Message, key: Key): Signature {
    Signed(AddressOf(key), message)
  }

  function Recover(message: Message, sig: Signature): Option<Address> {
    if sig.Signed? && sig.message == message then Some(sig.signer) else None
  }

  datatype Proof = Proof(body: Body, oldSig: Signature, newSig: Signature)

  datatype Error =
    | KeyMismatch | MissingOldSignature | MissingNewSignature | MissingRecoveryProof
    | BadOldSignature | BadNewSignature | NotCurrentKey | BadThreshold | RecoveryInProgress
    | NoPendingRecovery | NotPendingAddress | StillLocked

  function SignWithOldKey(proof: Proof, key: Key): Result<Proof, Error> {
    if AddressOf(key) != proof.body.oldAddress then Err(KeyMismatch)
    else Ok(Proof(proof.body, Sign(Message(proof.body, NoSignature, NoSignature), key), NoSignature))
  }

  function SignWithNewKey(proof: Proof, key: Key): Result<Proof, Error> {
    if AddressOf(key) != proof.body.newAddress then Err(KeyMismatch)
    else Ok(proof.(newSig := Sign(Message(proof.body, NoSignature, proof.oldSig), key)))
  }

  function Verify(proof: Proof): Option<Error> {
    if proof.body.reason == RotationRecovery then VerifyNewKeyOnly(proof)
    else if proof.oldSig.NoSignature? then Some(MissingOldSignature)
    else if proof.newSig.NoSignature? then Some(MissingNewSignature)
    else if Recover(Message(proof.body, NoSignature, NoSignature), proof.oldSig) != Some(proof.body.oldAddress) then
      Some(BadOldSignature)
    else if Recover(Message(proof.body, NoSignature, proof.oldSig), proof.newSig) != Some(proof.body.newAddress) then
      Some(BadNewSignature)
    else None
  }

  /** The recovery form hashes the proof with its old-key signature field left in place. */
  function VerifyNewKeyOnly(proof: Proof): Option<Error> {
    if proof.newSig.NoSignature? then Some(MissingNewSignature)
    else if proof.body.recoveryProof.None? then Some(MissingRecoveryProof)
    else if Recover(Message(proof.body, proof.oldSig, NoSignature), proof.newSig) != Some(proof.body.newAddress) then
      Some(BadNewSignature)
    else None
  }

  /** Signing with both keys, in the order the manager does. */
  function SignBoth(body: Body, oldKey: Key, newKey: Key): Result<Proof, Error> {
    var half := SignWithOldKey(Proof(body, NoSignature, NoSignature), oldKey);
    if half.Err? then half else SignWithNewKey(half.value, newKey)
  }

  /** A proof signed by both keys verifies exactly if it is not marked as a recovery: the recovery
      form is refused both without a recovery proof and because of the old key's signature. */
  lemma BothSignedVerifiesIff(body: Body, oldKey: Key, newKey: Key)
    requires AddressOf(oldKey) == body.oldAddress && AddressOf(newKey) == body.newAddress
    ensures SignBoth(body, oldKey, newKey).Ok?
    ensures Verify(SignBoth(body, oldKey, newKey).value).None? <==> body.reason != RotationRecovery
  {
  }

  /** An accepted proof was signed by the holders of both keys; an accepted recovery by the new key,
      over all fields of the proof. */
  lemma AcceptedIsSigned(proof: Proof)
    requires Verify(proof).None?
    ensures proof.newSig.Signed? && proof.newSig.signer == proof.body.newAddress && proof.newSig.message.body == proof.body
    ensures proof.body.reason == RotationRecovery ==> proof.body.recoveryProof.Some?
    ensures proof.body.reason != RotationRecovery ==>
              && proof.oldSig.Signed? && proof.oldSig.signer == proof.body.oldAddress && proof.oldSig.message.body == proof.body
              && proof.newSig.message.suffix == proof.oldSig
  {
  }

  // ---------- the manager as a state machine ----------

  datatype Pending = Pending(newAddress: Address, initiatedAt: int, canComplete: int)

  datatype State = State(
    forkID: nat, current: Address, history: seq<Proof>, guardians: seq<Address>, threshold: int,
    pending: Option<Pending>)

  function Fresh(forkID: nat, address: Address): State {
    State(forkID, address, [], [], 0, None)
  }

  datatype Op =
    | Rotate(oldKey: Key, newKey: Key, reason: string, graceDays: int)
    | SetupSocial(guardians: seq<Address>, threshold: int)
    | Initiate(newAddress: Address)
    | Complete(newKey: Key)

  function RotationBody(s: State, newAddress: Address, reason: string, now: int, graceEnd: int, rp: Option<RecoveryProof>): Body {
    Body(1, s.current, newAddress, s.forkID, |s.history| + 1, reason, now, now, graceEnd, rp)
  }

  function LockBody(s: State, newAddress: Address, initiatedAt: int, now: int): Body {
    RotationBody(s, newAddress, RotationRecovery, now, now, Some(RecoveryProof(TimeLock, Some(TimeLockProof(initiatedAt, LockDuration)))))
  }

  /** Why an operation fails, if it does. */
  function Refusal(s: State, op: Op, now: int): Option<Error> {
    match op
    case Rotate(oldKey, newKey, reason, _) =>
      if AddressOf(oldKey) != s.current then Some(NotCurrentKey)
      else if reason == RotationRecovery then Some(MissingRecoveryProof)
      else None
    case SetupSocial(guardians, threshold) =>
      if threshold > |guardians| || threshold < 1 then Some(BadThreshold) else None
    case Initiate(_) =>
      if s.pending.Some? then Some(RecoveryInProgress) else None
    case Complete(newKey) =>
      if s.pending.None? then Some(NoPendingRecovery)
      else if AddressOf(newKey) != s.pending.value.newAddress then Some(NotPendingAddress)
      else if now < s.pending.value.canComplete then Some(StillLocked)
      else None
  }

  /** The state after an operation. */
  function Next(s: State, op: Op, now: int): State {
    if Refusal(s, op, now).Some? then s else
    match op
    case Rotate(oldKey, newKey, reason, graceDays) =>
      var body := RotationBody(s, AddressOf(newKey), reason, now, now + graceDays * 24 * 60 * 60, None);
      s.(current := AddressOf(newKey), history := s.history + [SignBoth(body, oldKey, newKey).value])
    case SetupSocial(guardians, threshold) => s.(guardians := guardians, threshold := threshold)
    case Initiate(newAddress) => s.(pending := Some(Pending(newAddress, now, now + LockDuration)))
    case Complete(newKey) =>
      var body := LockBody(s, AddressOf(newKey), s.pending.value.initiatedAt, now);
      s.(current := AddressOf(newKey), pending := None,
         history := s.history + [SignWithNewKey(Proof(body, NoSignature, NoSignature), newKey).value])
  }

  // ---------- chain verification ----------

  /** The address before hop i of a chain. */
  function AddressBefore(history: seq<Proof>, genesis: Address, i: nat): Address
    requires i <= |history|
  {
    if i == 0 then genesis else history[i - 1].body.newAddress
  }

  ghost predicate HopOk(history: seq<Proof>, forkID: nat, genesis: Address, i: nat)
    requires i < |history|
  {
    var body := history[i].body;
    && body.rotationNumber == i + 1 && body.oldAddress == AddressBefore(history, genesis, i)
    && body.forkID == forkID && Verify(history[i]).None?
  }

  ghost predicate ChainOk(s: State, genesis: Address) {
    && (forall i | 0 <= i < |s.history| :: HopOk(s.history, s.forkID, genesis, i))
    && s.current == AddressBefore(s.history, genesis, |s.history|)
  }

  /** In any chain that verifies, however it came about, every ordinary hop carries a signature over
      exactly its own fields by the address that the hops before it lead to, countersigned by the next. */
  lemma ChainIsAuthorised(s: State, genesis: Address, i: nat)
    requires ChainOk(s, genesis) && i < |s.history| && s.history[i].body.reason != RotationRecovery
    ensures var p := s.history[i];
            && p.oldSig.Signed? && p.oldSig.signer == AddressBefore(s.history, genesis, i) && p.oldSig.message.body == p.body
            && p.newSig.Signed? && p.newSig.signer == AddressBefore(s.history, genesis, i + 1)
            && p.newSig.message.suffix == p.oldSig
  {
    assert HopOk(s.history, s.forkID, genesis, i);
    AcceptedIsSigned(s.history[i]);
  }

  /** A time-lock recovery in the history waited out the whole lock. */
  ghost predicate LockServed(proof: Proof) {
    proof.body.reason == RotationRecovery ==>
      exists t0: int ::
        && proof.body.recoveryProof == Some(RecoveryProof(TimeLock, Some(TimeLockProof(t0, LockDuration))))
        && proof.body.timestamp >= t0 + LockDuration
  }

  ghost predicate Inv(s: State, genesis: Address) {
    && ChainOk(s, genesis)
    && (forall i | 0 <= i < |s.history| :: LockServed(s.history[i]))
    && (s.pending.Some? ==> s.pending.value.canComplete == s.pending.value.initiatedAt + LockDuration)
  }

  lemma AppendKeeps(s: State, genesis: Address, proof: Proof, s': State)
    requires Inv(s, genesis) && s'.forkID == s.forkID && s'.history == s.history + [proof]
    requires s'.current == proof.body.newAddress && LockServed(proof)
    requires proof.body.rotationNumber == |s.history| + 1 && proof.body.oldAddress == s.current
    requires proof.body.forkID == s.forkID && Verify(proof).None?
    requires s'.pending.Some? ==> s'.pending == s.pending
    ensures Inv(s', genesis)
  {
    hide Verify, LockServed;
    forall i | 0 <= i < |s'.history| ensures HopOk(s'.history, s'.forkID, genesis, i) {
      if i < |s.history| {
        assert HopOk(s.history, s.forkID, genesis, i);
      }
    }
  }

  /** Every operation, successful or not, keeps the whole chain verifiable from the genesis address. */
  lemma StepKeepsInv(s: State, genesis: Address, op: Op, now: int)
    requires Inv(s, genesis)
    ensures Inv(Next(s, op, now), genesis)
  {
    var s' := Next(s, op, now);
    if Refusal(s, op, now).None? {
      match op
      case Rotate(oldKey, newKey, reason, graceDays) =>
        var body := RotationBody(s, AddressOf(newKey), reason, now, now + graceDays * 24 * 60 * 60, None);
        BothSignedVerifiesIff(body, oldKey, newKey);
        AppendKeeps(s, genesis, SignBoth(body, oldKey, newKey).value, s');
      case Complete(newKey) =>
        var body := LockBody(s, AddressOf(newKey), s.pending.value.initiatedAt, now);
        AppendKeeps(s, genesis, SignWithNewKey(Proof(body, NoSignature, NoSignature), newKey).value, s');
      case _ =>
        forall i | 0 <= i < |s'.history| ensures HopOk(s'.history, s'.forkID, genesis, i) {
          assert HopOk(s.history, s.forkID, genesis, i);
        }
    }
  }

  // ---------- whole runs ----------

  datatype Event = Event(op: Op, now: int)

  function Run(s: State, events: seq<Event>): State {
    if events == [] then s else
    var last := events[|events| - 1];
    Next(Run(s, events[..|events| - 1]), last.op, last.now)
  }

  /** After any sequence of calls the chain verifies from the genesis address, and from no other. */
  lemma {:induction false} EveryRunVerifies(forkID: nat, genesis: Address, events: seq<Event>)
    ensures Inv(Run(Fresh(forkID, genesis), events), genesis)
    ensures forall other :: ChainOk(Run(Fresh(forkID, genesis), events), other) <==> other == genesis
  {
    if events != [] {
      var last := events[|events| - 1];
      EveryRunVerifies(forkID, genesis, events[..|events| - 1]);
      StepKeepsInv(Run(Fresh(forkID, genesis), events[..|events| - 1]), genesis, last.op, last.now);
    }
    forall other ensures ChainOk(Run(Fresh(forkID, genesis), events), other) <==> other == genesis {
      OneGenesis(Run(Fresh(forkID, genesis), events), genesis, other);
    }
  }

  lemma OneGenesis(s: State, genesis: Address, other: Address)
    requires ChainOk(s, genesis)
    ensures ChainOk(s, other) <==> other == genesis
  {
    hide Verify;
    if ChainOk(s, other) && s.history != [] {
      assert HopOk(s.history, s.forkID, genesis, 0) && HopOk(s.history, s.forkID, other, 0);
    }
  }

  /** Event j opened the pending recovery to `target` at time t0. */
  ghost predicate OpenedAt(forkID: nat, genesis: Address, events: seq<Event>, j: nat, target: Address, t0: int)
    requires j < |events|
  {
    && events[j] == Event(Initiate(target), t0)
    && Run(Fresh(forkID, genesis), events[..j]).pending.None?
  }

  lemma {:induction false} PendingWasOpened(forkID: nat, genesis: Address, events: seq<Event>)
    ensures var s := Run(Fresh(forkID, genesis), events);
            s.pending.Some? ==>
              exists j | 0 <= j < |events| ::
                OpenedAt(forkID, genesis, events, j, s.pending.value.newAddress, s.pending.value.initiatedAt)
  {
    if events != [] {
      var n := |events| - 1;
      var before, after := Run(Fresh(forkID, genesis), events[..n]), Run(Fresh(forkID, genesis), events);
      PendingWasOpened(forkID, genesis, events[..n]);
      if after.pending.Some? {
        if before.pending == after.pending {
          var p := before.pending.value;
          var j :| 0 <= j < n && OpenedAt(forkID, genesis, events[..n], j, p.newAddress, p.initiatedAt);
          assert events[..n][..j] == events[..j];
          assert OpenedAt(forkID, genesis, events, j, p.newAddress, p.initiatedAt);
        } else {
          assert OpenedAt(forkID, genesis, events, n, after.pending.value.newAddress, after.pending.value.initiatedAt);
        }
      }
    }
  }

  /** The current address moves only by a rotation signed with the current key, or by completing a
      recovery that an earlier call opened towards that address at least a full lock duration before. */
  lemma AddressChanges(forkID: nat, genesis: Address, events: seq<Event>, last: Event)
    ensures Run(Fresh(forkID, genesis), events).history <= Run(Fresh(forkID, genesis), events + [last]).history
    ensures var s, s' := Run(Fresh(forkID, genesis), events), Run(Fresh(forkID, genesis), events + [last]);
            s'.current != s.current ==>
              || (last.op.Rotate? && AddressOf(last.op.oldKey) == s.current && s'.current == AddressOf(last.op.newKey))
              || (last.op.Complete? && s'.current == AddressOf(last.op.newKey)
                  && exists j, t0 | 0 <= j < |events| ::
                       OpenedAt(forkID, genesis, events, j, s'.current, t0) && last.now >= t0 + LockDuration)
  {
    var s, s' := Run(Fresh(forkID, genesis), events), Run(Fresh(forkID, genesis), events + [last]);
    assert (events + [last])[..|events|] == events;
    PendingWasOpened(forkID, genesis, events);
    EveryRunVerifies(forkID, genesis, events);
    if s'.current != s.current && last.op.Complete? {
      var p := s.pending.value;
      assert last.now >= p.initiatedAt + LockDuration;
      var j :| 0 <= j < |events| && OpenedAt(forkID, genesis, events, j, p.newAddress, p.initiatedAt);
    }
  }

  /** Event i is a rotation or completion that succeeds: made with the current key and not for recovery,
      or with the key of a pending recovery whose time has come. */
  ghost predicate Moves(forkID: nat, genesis: Address, events: seq<Event>, i: nat)
    requires i < |events|
  {
    var s, op := Run(Fresh(forkID, genesis), events[..i]), events[i].op;
    || (op.Rotate? && AddressOf(op.oldKey) == s.current && op.reason != "recovery")
    || (op.Complete? && s.pending.Some? && s.pending.value.newAddress == AddressOf(op.newKey) && events[i].now >= s.pending.value.canComplete)
  }

  ghost predicate StillFrom(forkID: nat, genesis: Address, events: seq<Event>, i: nat) {
    forall j | i <= j < |events| :: !Moves(forkID, genesis, events, j)
  }

  /** The address is that of the new key of the last event that moved it, or the genesis address if none
      did (i is then -1). */
  lemma {:induction false} AddressIsLastMove(forkID: nat, genesis: Address, events: seq<Event>) returns (i: int)
    ensures -1 <= i < |events| && StillFrom(forkID, genesis, events, i + 1)
    ensures i == -1 ==> Run(Fresh(forkID, genesis), events).current == genesis
    ensures i >= 0 ==>
              && Moves(forkID, genesis, events, i) && (events[i].op.Rotate? || events[i].op.Complete?)
              && Run(Fresh(forkID, genesis), events).current == AddressOf(events[i].op.newKey)
  {
    i := -1;
    if events != [] {
      var n := |events| - 1;
      MoveStep(forkID, genesis, events);
      hide Run, Moves;
      if Moves(forkID, genesis, events, n) {
        i := n;
      } else {
        i := AddressIsLastMove(forkID, genesis, events[..n]);
        StillPrefix(forkID, genesis, events, i + 1);
        if i >= 0 { MovesPrefix(forkID, genesis, events, i); }
      }
    }
  }

  lemma MovesPrefix(forkID: nat, genesis: Address, events: seq<Event>, i: nat)
    requires i < |events| - 1
    ensures Moves(forkID, genesis, events, i) <==> Moves(forkID, genesis, events[..|events| - 1], i)
  {
    assert events[..|events| - 1][..i] == events[..i];
  }

  lemma StillPrefix(forkID: nat, genesis: Address, events: seq<Event>, i: nat)
    requires events != [] && StillFrom(forkID, genesis, events[..|events| - 1], i) && !Moves(forkID, genesis, events, |events| - 1)
    ensures StillFrom(forkID, genesis, events, i)
  {
    hide Moves;
    forall j | i <= j < |events| ensures !Moves(forkID, genesis, events, j) {
      if j < |events| - 1 { MovesPrefix(forkID, genesis, events, j); }
    }
  }

  lemma MoveStep(forkID: nat, genesis: Address, events: seq<Event>)
    requires events != []
    ensures var n := |events| - 1;
            var s, s' := Run(Fresh(forkID, genesis), events[..n]), Run(Fresh(forkID, genesis), events);
            && (!Moves(forkID, genesis, events, n) ==> s'.current == s.current && s'.history == s.history)
            && (Moves(forkID, genesis, events, n) ==>
                  && (events[n].op.Rotate? || events[n].op.Complete?) && s'.current == AddressOf(events[n].op.newKey)
                  && |s'.history| == |s.history| + 1)
  {
  }

  // ---------- the manager ----------

  datatype ChainError =
    | WrongNumber(at: int) | AddressMismatch(at: int) | ForkMismatch(at: int) | BadProof(at: int, why: Error) | WrongEnd

  class KeyRotationManager {
    const forkID: nat
    var currentAddress: Address
    var rotationHistory: seq<Proof>
    var guardians: seq<Address>
    var threshold: int
    var pendingRecovery: Option<Pending>

    function Abstract(): State
      reads this
    {
      State(forkID, currentAddress, rotationHistory, guardians, threshold, pendingRecovery)
    }

    constructor (forkID: nat, address: Address)
      ensures Abstract() == Fresh(forkID, address) && Inv(Abstract(), address)
      ensures currentAddress == address && rotationHistory == [] && guardians == [] && threshold == 0 && pendingRecovery == None
    {
      this.forkID, currentAddress, rotationHistory := forkID, address, [];
      guardians, threshold, pendingRecovery := [], 0, None;
    }

    method Rotate(oldKey: Key, newKey: Key, reason: string, graceDays: int, now: int) returns (r: Result<Proof, Error>)
      modifies this
      ensures Abstract() == Next(old(Abstract()), Op.Rotate(oldKey, newKey, reason, graceDays), now)
      ensures r.Err? <==> AddressOf(oldKey) != old(currentAddress) || reason == "recovery"
      ensures r.Err? ==> unchanged(this)
      ensures r.Ok? ==>
                && currentAddress == AddressOf(newKey) && rotationHistory == old(rotationHistory) + [r.value]
                && pendingRecovery == old(pendingRecovery) && guardians == old(guardians) && threshold == old(threshold)
                && Verify(r.value).None? && r.value.oldSig.Signed? && r.value.oldSig.signer == AddressOf(oldKey)
                && r.value.newSig.Signed? && r.value.newSig.signer == AddressOf(newKey)
                && r.value.body == Body(1, old(currentAddress), AddressOf(newKey), forkID, old(|rotationHistory|) + 1, reason,
                                        now, now, now + graceDays * 86400, None)
    {
      var oldAddr, newAddr := AddressOf(oldKey), AddressOf(newKey);
      if oldAddr != currentAddress {
        return Err(NotCurrentKey);
      }
      var body := Body(1, oldAddr, newAddr, forkID, |rotationHistory| + 1, reason, now, now,
                       now + graceDays * 24 * 60 * 60, None);
      var half := SignWithOldKey(Proof(body, NoSignature, NoSignature), oldKey);
      if half.Err? { return half; }
      var full := SignWithNewKey(half.value, newKey);
      if full.Err? { return full; }
      var verdict := Verify(full.value);
      if verdict.Some? { return Err(verdict.value); }
      currentAddress := newAddr;
      rotationHistory := rotationHistory + [full.value];
      return full;
    }

    method SetupSocialRecovery(newGuardians: seq<Address>, newThreshold: int) returns (r: Result<(), Error>)
      modifies this
      ensures forall now :: Abstract() == Next(old(Abstract()), SetupSocial(newGuardians, newThreshold), now)
      ensures r.Ok? <==> 1 <= newThreshold <= |newGuardians|
      ensures r.Err? ==> unchanged(this)
      ensures r.Ok? ==> guardians == newGuardians && threshold == newThreshold
      ensures currentAddress == old(currentAddress) && rotationHistory == old(rotationHistory) && pendingRecovery == old(pendingRecovery)
    {
      if newThreshold > |newGuardians| || newThreshold < 1 { return Err(BadThreshold); }
      guardians, threshold := newGuardians, newThreshold;
      return Ok(());
    }

    method InitiateTimeLockRecovery(newAddress: Address, now: int) returns (r: Result<(), Error>)
      modifies this
      ensures Abstract() == Next(old(Abstract()), Initiate(newAddress), now)
      ensures r.Ok? <==> old(pendingRecovery).None?
      ensures r.Err? ==> unchanged(this)
      ensures r.Ok? ==> pendingRecovery == Some(Pending(newAddress, now, now + 604800))
      ensures currentAddress == old(currentAddress) && rotationHistory == old(rotationHistory)
    {
      if pendingRecovery.Some? { return Err(RecoveryInProgress); }
      pendingRecovery := Some(Pending(newAddress, now, now + LockDuration));
      return Ok(());
    }

    method CompleteTimeLockRecovery(newKey: Key, now: int) returns (r: Result<Proof, Error>)
      modifies this
      ensures Abstract() == Next(old(Abstract()), Complete(newKey), now)
      ensures r.Ok? <==> old(pendingRecovery).Some? && old(pendingRecovery).value.newAddress == AddressOf(newKey)
                         && now >= old(pendingRecovery).value.canComplete
      ensures r.Err? ==> unchanged(this)
      ensures r.Ok? ==>
                && currentAddress == AddressOf(newKey) && pendingRecovery.None? && rotationHistory == old(rotationHistory) + [r.value]
                && Verify(r.value).None? && r.value.oldSig.NoSignature? && r.value.newSig.Signed? && r.value.newSig.signer == AddressOf(newKey)
                && r.value.body == Body(1, old(currentAddress), AddressOf(newKey), forkID, old(|rotationHistory|) + 1, "recovery", now, now, now,
                                        Some(RecoveryProof(TimeLock, Some(TimeLockProof(old(pendingRecovery).value.initiatedAt, 604800)))))
    {
      if pendingRecovery.None? { return Err(NoPendingRecovery); }
      var newAddr := AddressOf(newKey);
      if newAddr != pendingRecovery.value.newAddress { return Err(NotPendingAddress); }
      if now < pendingRecovery.value.canComplete { return Err(StillLocked); }
      var body := Body(1, currentAddress, newAddr, forkID, |rotationHistory| + 1, RotationRecovery, now, now, now,
                       Some(RecoveryProof(TimeLock, Some(TimeLockProof(pendingRecovery.value.initiatedAt, LockDuration)))));
      var signed := SignWithNewKey(Proof(body, NoSignature, NoSignature), newKey);
      if signed.Err? { return signed; }
      currentAddress := newAddr;
      rotationHistory := rotationHistory + [signed.value];
      pendingRecovery := None;
      return signed;
    }

    /** Walks the chain; on failure the position reported is that of the first bad hop. */
    method VerifyChain(genesis: Address) returns (r: Option<ChainError>)
      ensures r.None? <==> ChainOk(Abstract(), genesis)
      ensures r.Some? && !r.value.WrongEnd? ==>
                var i := r.value.at - 1;
                && 0 <= i < |rotationHistory| && !HopOk(rotationHistory, forkID, genesis, i)
                && forall j | 0 <= j < i :: HopOk(rotationHistory, forkID, genesis, j)
      ensures r == Some(WrongEnd) ==> forall j | 0 <= j < |rotationHistory| :: HopOk(rotationHistory, forkID, genesis, j)
    {
      var addr := genesis;
      for i := 0 to |rotationHistory|
        invariant addr == AddressBefore(rotationHistory, genesis, i)
        invariant forall j | 0 <= j < i :: HopOk(rotationHistory, forkID, genesis, j)
      {
        var proof := rotationHistory[i];
        assert ChainOk(Abstract(), genesis) ==> HopOk(rotationHistory, forkID, genesis, i);
        if proof.body.rotationNumber != i + 1 { return Some(WrongNumber(i + 1)); }
        if proof.body.oldAddress != addr { return Some(AddressMismatch(i + 1)); }
        if proof.body.forkID != forkID { return Some(ForkMismatch(i + 1)); }
        var verdict := Verify(proof);
        if verdict.Some? { return Some(BadProof(i + 1, verdict.value)); }
        addr := proof.body.newAddress;
      }
      if addr != currentAddress { return Some(WrongEnd); }
      return None;
    }
  }
}
