/** Tokens, stores and the validation pipeline as an ordered list of checks. */
module Validation {
  import opened Wrappers
  import opened IpldModel
  import opened Dids
  import opened Commands
  import opened Time
  import Policy

  datatype Subject = Powerline | Principal(did: Did)

  datatype Delegation = Delegation(
    cid: Cid, issuer: Did, audience: Did, subject: Subject, command: Command,
    policy: seq<Policy.Statement>, notBefore: Option<Timestamp>, expiration: Expiry)

  datatype Invocation = Invocation(
    cid: Cid, issuer: Did, subject: Did, audience: Option<Did>, command: Command,
    args: map<string, Ipld>, proofs: seq<Cid>, expiration: Expiry)
  {
    /** Who should execute: the audience if given, else the subject. */
    function Executor(): Did {
      if audience.Some? then audience.value else subject
    }
  }

  /** Why a token's signature was not accepted: no key for the issuer, no match, or anything else. */
  datatype SignatureFailure = Resolve(reason: nat) | Crypto | Other(reason: nat)

  /** The resolver and the signature backends: uninterpreted, but the same answer each time. */
  datatype Signatures = Signatures(
    ofDelegation: Delegation -> Option<SignatureFailure>,
    ofInvocation: Invocation -> Option<SignatureFailure>)

  datatype Hop = Proof(n: nat) | TheInvocation

  datatype ValidationError =
    | EmptyChain
    | MissingProof(cid: Cid)
    | TooManyProofs(count: nat, max: nat)
    | RootNotSubject(issuer: Did, subject: Did)
    | PowerlineAtRoot
    | SubjectMismatch(hop: Hop)
    | PrincipalMismatch(hop: Hop, audience: Did, issuer: Did)
    | CommandNotCovered(hop: Hop, granted: Command, requested: Command)
    | TooEarly(hop: Hop, notBefore: Timestamp)
    | TooLate(hop: Hop, at: Timestamp)
    | Unresolvable(hop: Hop, reason: nat)
    | BadSignature(hop: Hop)
    | Revoked(hop: Hop, cid: Cid)
    | PolicyRejected(hop: Hop, statement: nat)
    | WrongExecutor(expected: Did, found: Did)
    | Replay(cid: Cid)
    | Token(hop: Hop, reason: nat)

  /** Answers whether a delegation is revoked for a chain with these issuers. */
  type RevocationAnswer = (Cid, seq<Did>) -> bool

  /** A validator without its replay guard: what it looks things up in, and how strict it is. */
  datatype Config = Config(
    lookup: Cid -> Option<Delegation>, signatures: Signatures, now: Timestamp, skew: Seconds,
    executor: Option<Did>, maxProofs: Option<nat>, revocations: Option<RevocationAnswer>)

  /** One chain under one set of checks; `last` is the issuer and command of the token it was given for. */
  datatype Case = Case(
    v: Config, chain: seq<Delegation>, subject: Did, last: Option<(Did, Command)>, invocation: Invocation)

  datatype Check =
    | NonEmpty
    | RootIssued
    | RootNamed
    | SubjectAligned(i: nat)
    | Linked(i: nat)
    | Covered(i: nat)
    | InTime(i: nat)
    | InvocationInTime
    | Signed(i: nat)
    | InvocationSigned
    | Unrevoked(i: nat)
    | Permitted(i: nat)
    | Addressed

  function Issuers(chain: seq<Delegation>): seq<Did> {
    seq(|chain|, i requires 0 <= i < |chain| => chain[i].issuer)
  }

  /** Who issued the token after hop `i`, and under which command. */
  function Next(chain: seq<Delegation>, last: Option<(Did, Command)>, i: nat): Option<(Did, Command)> {
    if i + 1 < |chain| then Some((chain[i + 1].issuer, chain[i + 1].command)) else last
  }

  function TimeFailure(hop: Hop, r: Result<(), TimeError>): Option<ValidationError> {
    match r
    case Ok(_) => None
    case Err(NotYetValid(notBefore)) => Some(TooEarly(hop, notBefore))
    case Err(Expired(at)) => Some(TooLate(hop, at))
  }

  function SignatureError(hop: Hop, failure: Option<SignatureFailure>): Option<ValidationError> {
    match failure
    case None => None
    case Some(Resolve(reason)) => Some(Unresolvable(hop, reason))
    case Some(Crypto) => Some(BadSignature(hop))
    case Some(Other(reason)) => Some(Token(hop, reason))
  }

  /** Why a check fails, if it does. A check on a hop the chain does not have never fails. */
  function Failure(c: Case, check: Check): Option<ValidationError> {
    match check
    case NonEmpty => if c.chain == [] then Some(EmptyChain) else None
    case RootIssued =>
      if c.chain != [] && !SamePrincipal(c.chain[0].issuer, c.subject)
      then Some(RootNotSubject(c.chain[0].issuer, c.subject)) else None
    case RootNamed => if c.chain != [] && c.chain[0].subject.Powerline? then Some(PowerlineAtRoot) else None
    case InvocationInTime =>
      TimeFailure(TheInvocation, CheckWindow(None, c.invocation.expiration, c.v.now, c.v.skew))
    case InvocationSigned => SignatureError(TheInvocation, c.v.signatures.ofInvocation(c.invocation))
    case Addressed =>
      if c.v.executor.Some? && !SamePrincipal(c.invocation.Executor(), c.v.executor.value)
      then Some(WrongExecutor(c.v.executor.value, c.invocation.Executor())) else None
    case _ => if check.i < |c.chain| then HopFailure(c, check) else None
  }

  function HopFailure(c: Case, check: Check): Option<ValidationError>
    requires check.SubjectAligned? || check.Linked? || check.Covered? || check.InTime? || check.Signed?
          || check.Unrevoked? || check.Permitted?
    requires check.i < |c.chain|
  {
    var i := check.i;
    var d, hop := c.chain[i], Proof(i);
    match check
    case SubjectAligned(_) =>
      if d.subject.Principal? && !SamePrincipal(d.subject.did, c.subject) then Some(SubjectMismatch(hop)) else None
    case Linked(_) =>
      var next := Next(c.chain, c.last, i);
      if next.Some? && !SamePrincipal(d.audience, next.value.0)
      then Some(PrincipalMismatch(hop, d.audience, next.value.0)) else None
    case Covered(_) =>
      var next := Next(c.chain, c.last, i);
      if next.Some? && !Covers(d.command, next.value.1)
      then Some(CommandNotCovered(hop, d.command, next.value.1)) else None
    case InTime(_) => TimeFailure(hop, CheckWindow(d.notBefore, d.expiration, c.v.now, c.v.skew))
    case Signed(_) => SignatureError(hop, c.v.signatures.ofDelegation(d))
    case Unrevoked(_) =>
      if c.v.revocations.Some? && c.v.revocations.value(d.cid, Issuers(c.chain))
      then Some(Revoked(hop, d.cid)) else None
    case Permitted(_) =>
      match Policy.Check(d.policy, Map(c.invocation.args), 0)
      case Ok(_) => None
      case Err(statement) => Some(PolicyRejected(hop, statement))
  }

  /** The checks in the order they are made, the first failure being the answer. */
  function First(c: Case, checks: seq<Check>): Option<ValidationError> {
    if checks == [] then None
    else if Failure(c, checks[0]).Some? then Failure(c, checks[0])
    else First(c, checks[1..])
  }

  function Subjects(i: nat, n: nat): seq<Check>
    decreases n - i
  {
    if i >= n then [] else [SubjectAligned(i)] + Subjects(i + 1, n)
  }

  /** Audience and command are checked together, hop by hop. */
  function Links(i: nat, n: nat): seq<Check>
    decreases n - i
  {
    if i >= n then [] else [Linked(i), Covered(i)] + Links(i + 1, n)
  }

  function Times(i: nat, n: nat): seq<Check>
    decreases n - i
  {
    if i >= n then [] else [InTime(i)] + Times(i + 1, n)
  }

  function Signeds(i: nat, n: nat): seq<Check>
    decreases n - i
  {
    if i >= n then [] else [Signed(i)] + Signeds(i + 1, n)
  }

  function Unrevokeds(i: nat, n: nat): seq<Check>
    decreases n - i
  {
    if i >= n then [] else [Unrevoked(i)] + Unrevokeds(i + 1, n)
  }

  function Policies(i: nat, n: nat): seq<Check>
    decreases n - i
  {
    if i >= n then [] else [Permitted(i)] + Policies(i + 1, n)
  }

  function Structure(n: nat): seq<Check> {
    [NonEmpty, RootIssued, RootNamed] + Subjects(0, n) + Links(0, n)
  }

  /** Every check on a resolved chain of `n` hops. */
  function Plan(n: nat): seq<Check> {
    BeforeRevocation(n) + Unrevokeds(0, n) + AfterRevocation(n)
  }

  function BeforeRevocation(n: nat): seq<Check> {
    Structure(n) + (Times(0, n) + [InvocationInTime]) + (Signeds(0, n) + [InvocationSigned])
  }

  function AfterRevocation(n: nat): seq<Check> {
    Policies(0, n) + [Addressed]
  }

  /** The first of `proofs` that is not held. */
  function Missing(lookup: Cid -> Option<Delegation>, proofs: seq<Cid>): Option<Cid> {
    if proofs == [] then None
    else if lookup(proofs[0]).None? then Some(proofs[0])
    else Missing(lookup, proofs[1..])
  }

  function Chain(lookup: Cid -> Option<Delegation>, proofs: seq<Cid>): (chain: seq<Delegation>)
    requires Missing(lookup, proofs).None?
    ensures |chain| == |proofs|
  {
    if proofs == [] then [] else [lookup(proofs[0]).value] + Chain(lookup, proofs[1..])
  }

  function CaseOf(v: Config, chain: seq<Delegation>, inv: Invocation): Case {
    Case(v, chain, inv.subject, Some((inv.issuer, inv.command)), inv)
  }

  /** Every check but the replay guard's; the chain when they all pass. */
  function Judge(v: Config, inv: Invocation): Result<seq<Delegation>, ValidationError> {
    if v.maxProofs.Some? && |inv.proofs| > v.maxProofs.value then Err(TooManyProofs(|inv.proofs|, v.maxProofs.value))
    else match Missing(v.lookup, inv.proofs)
      case Some(cid) => Err(MissingProof(cid))
      case None =>
        var chain := Chain(v.lookup, inv.proofs);
        match First(CaseOf(v, chain, inv), Plan(|chain|))
        case Some(e) => Err(e)
        case None => Ok(chain)
  }

  /** The guard comes last, so that a rejected invocation is never recorded. */
  function Validate(v: Config, inv: Invocation, seen: map<Cid, Expiry>)
    : (Result<seq<Delegation>, ValidationError>, map<Cid, Expiry>)
  {
    match Judge(v, inv)
    case Err(e) => (Err(e), seen)
    case Ok(chain) =>
      (if inv.cid in seen then Err(Replay(inv.cid)) else Ok(chain), seen[inv.cid := inv.expiration])
  }

  // The stores

  datatype Recorded = Recorded(everywhere: bool, authorities: seq<Did>, targetExpiry: Option<Expiry>)

  const UNRECORDED := Recorded(false, [], None)

  datatype AcceptedRevocation = AcceptedRevocation(
    target: Cid, revoker: Did, authority: Did, targetExpiry: Expiry, delegated: bool)

  /** Whether one of `issuers` is the same principal as one of `by`. */
  predicate Reaches(authorities: seq<Did>, issuers: seq<Did>) {
    exists i, j :: 0 <= i < |authorities| && 0 <= j < |issuers| && SamePrincipal(issuers[j], authorities[i])
  }

  predicate IsRevoked(revoked: map<Cid, Recorded>, cid: Cid, issuers: seq<Did>) {
    cid in revoked && (revoked[cid].everywhere || Reaches(revoked[cid].authorities, issuers))
  }

  function Asking(revoked: map<Cid, Recorded>): RevocationAnswer {
    (cid, issuers) => IsRevoked(revoked, cid, issuers)
  }

  function EntryFor(revoked: map<Cid, Recorded>, cid: Cid): Recorded {
    if cid in revoked then revoked[cid] else UNRECORDED
  }

  predicate Holds(authorities: seq<Did>, did: Did) {
    exists i :: 0 <= i < |authorities| && SamePrincipal(authorities[i], did)
  }

  function Record(revoked: map<Cid, Recorded>, accepted: AcceptedRevocation): map<Cid, Recorded> {
    var entry := EntryFor(revoked, accepted.target);
    var authorities :=
      if Holds(entry.authorities, accepted.authority) then entry.authorities
      else entry.authorities + [accepted.authority];
    revoked[accepted.target := Recorded(entry.everywhere, authorities, Some(accepted.targetExpiry))]
  }

  function Revoke(revoked: map<Cid, Recorded>, cid: Cid): map<Cid, Recorded> {
    revoked[cid := EntryFor(revoked, cid).(everywhere := true)]
  }

  predicate Forgettable(recorded: Recorded, now: Timestamp, skew: Seconds) {
    !recorded.everywhere && recorded.targetExpiry.Some? && IsPast(recorded.targetExpiry.value, now, skew)
  }

  function PruneRevoked(revoked: map<Cid, Recorded>, now: Timestamp, skew: Seconds): map<Cid, Recorded> {
    map cid | cid in revoked && !Forgettable(revoked[cid], now, skew) :: revoked[cid]
  }

  function PruneSeen(seen: map<Cid, Expiry>, now: Timestamp, skew: Seconds): map<Cid, Expiry> {
    map cid | cid in seen && !IsPast(seen[cid], now, skew) :: seen[cid]
  }

  function PruneHeld(held: map<Cid, Delegation>, now: Timestamp, skew: Seconds): map<Cid, Delegation> {
    map cid | cid in held && !IsPast(held[cid].expiration, now, skew) :: held[cid]
  }
}
