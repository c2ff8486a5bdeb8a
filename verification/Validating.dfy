/** The in-memory stores and the validator as objects, against the functions of Validation and RevocationCheck. */
module Validating {
  import opened Wrappers
  import opened IpldModel
  import opened Dids
  import opened Commands
  import opened Time
  import opened V = Validation
  import opened R = RevocationCheck
  import Policy
  import StoreProofs
  import P = ValidationProofs

  class MemoryStore {
    var delegations: map<Cid, Delegation>

    constructor ()
      ensures delegations == map[]
    {
      delegations := map[];
    }

    method Insert(delegation: Delegation) returns (cid: Cid)
      modifies this
      ensures cid == delegation.cid && delegations == old(delegations)[cid := delegation]
    {
      cid := delegation.cid;
      delegations := delegations[cid := delegation];
    }

    method Remove(cid: Cid) returns (removed: Option<Delegation>)
      modifies this
      ensures removed == StoreProofs.LookupIn(old(delegations))(cid) && delegations == old(delegations) - {cid}
    {
      removed := if cid in delegations then Some(delegations[cid]) else None;
      delegations := delegations - {cid};
    }

    method PruneExpired(now: Timestamp, skew: Seconds)
      modifies this
      ensures delegations == PruneHeld(old(delegations), now, skew)
    {
      delegations := map cid | cid in delegations && !IsPast(delegations[cid].expiration, now, skew)
        :: delegations[cid];
    }
  }

  class MemoryReplayGuard {
    var seen: map<Cid, Expiry>

    constructor ()
      ensures seen == map[]
    {
      seen := map[];
    }

    method PruneExpired(now: Timestamp, skew: Seconds)
      modifies this
      ensures seen == PruneSeen(old(seen), now, skew)
    {
      seen := map cid | cid in seen && !IsPast(seen[cid], now, skew) :: seen[cid];
    }

    /** Record `cid`; whether it was new. */
    method RecordSeen(cid: Cid, expiry: Expiry) returns (isNew: bool)
      modifies this
      ensures isNew == (cid !in old(seen)) && seen == old(seen)[cid := expiry]
    {
      isNew := cid !in seen;
      seen := seen[cid := expiry];
    }
  }

  class MemoryRevocationStore {
    var revoked: map<Cid, Recorded>

    constructor ()
      ensures revoked == map[]
    {
      revoked := map[];
    }

    /** Record a revocation that passed `CheckRevocation`. */
    method RecordAccepted(accepted: AcceptedRevocation)
      modifies this
      ensures revoked == V.Record(old(revoked), accepted)
    {
      var entry := if accepted.target in revoked then revoked[accepted.target] else UNRECORDED;
      entry := entry.(targetExpiry := Some(accepted.targetExpiry));
      var held := false;
      var i := 0;
      while i < |entry.authorities| && !held
        invariant 0 <= i <= |entry.authorities|
        invariant held <==> exists k :: 0 <= k < i && SamePrincipal(entry.authorities[k], accepted.authority)
      {
        held := SamePrincipal(entry.authorities[i], accepted.authority);
        i := i + 1;
      }
      if !held { entry := entry.(authorities := entry.authorities + [accepted.authority]); }
      revoked := revoked[accepted.target := entry];
    }

    /** Revoke the delegation with this CID in every chain. */
    method RevokeEverywhere(cid: Cid)
      modifies this
      ensures revoked == V.Revoke(old(revoked), cid)
    {
      var entry := if cid in revoked then revoked[cid] else UNRECORDED;
      revoked := revoked[cid := entry.(everywhere := true)];
    }

    method PruneExpired(now: Timestamp, skew: Seconds)
      modifies this
      ensures revoked == PruneRevoked(old(revoked), now, skew)
    {
      revoked := map cid | cid in revoked
        && (revoked[cid].everywhere
            || !(revoked[cid].targetExpiry.Some? && IsPast(revoked[cid].targetExpiry.value, now, skew)))
        :: revoked[cid];
    }

    method Revokes(cid: Cid, issuers: seq<Did>) returns (r: bool)
      ensures r == IsRevoked(revoked, cid, issuers)
    {
      if cid !in revoked { return false; }
      var entry := revoked[cid];
      if entry.everywhere { return true; }
      var i := 0;
      while i < |entry.authorities|
        invariant 0 <= i <= |entry.authorities|
        invariant forall k, j :: 0 <= k < i && 0 <= j < |issuers| ==>
                    !SamePrincipal(issuers[j], entry.authorities[k])
      {
        var j := 0;
        while j < |issuers|
          invariant 0 <= j <= |issuers|
          invariant forall l :: 0 <= l < j ==> !SamePrincipal(issuers[l], entry.authorities[i])
        {
          if SamePrincipal(issuers[j], entry.authorities[i]) { return true; }
          j := j + 1;
        }
        i := i + 1;
      }
      return false;
    }
  }

  /** The pipeline's answer as a result. */
  function Answer(failure: Option<ValidationError>): Result<(), ValidationError> {
    match failure
    case Some(e) => Err(e)
    case None => Ok(())
  }

  lemma FirstStep(c: Case, check: Check, rest: seq<Check>)
    ensures First(c, [check] + rest) == if Failure(c, check).Some? then Failure(c, check) else First(c, rest)
    ensures First(c, []) == None
  {
    hide Failure;
    assert ([check] + rest)[1..] == rest;
  }

  /** The checks on the shape of a chain, which look at no signature. */
  method CheckStructure(c: Case) returns (r: Result<(), ValidationError>)
    ensures r == Answer(First(c, Structure(|c.chain|)))
  {
    hide First;
    var (chain, subject, n) := (c.chain, c.subject, |c.chain|);
    StructureOrder(c);
    if n == 0 { return Err(EmptyChain); }
    var root := chain[0];
    if !SamePrincipal(root.issuer, subject) { return Err(RootNotSubject(root.issuer, subject)); }
    if root.subject.Powerline? { return Err(PowerlineAtRoot); }
    var i := 0;
    while i < n
      invariant 0 <= i <= n && First(c, Subjects(0, n)) == First(c, Subjects(i, n))
    {
      FirstStep(c, SubjectAligned(i), Subjects(i + 1, n));
      match chain[i].subject {
        case Principal(did) => if !SamePrincipal(did, subject) { return Err(SubjectMismatch(Proof(i))); }
        case Powerline =>
      }
      i := i + 1;
    }
    FirstStep(c, NonEmpty, []);
    i := 0;
    while i < n
      invariant 0 <= i <= n && First(c, Links(0, n)) == First(c, Links(i, n))
    {
      LinksStep(c, i, n);
      var next := if i + 1 < n then Some((chain[i + 1].issuer, chain[i + 1].command)) else c.last;
      if next.Some? {
        var (issuer, command) := next.value;
        if !SamePrincipal(chain[i].audience, issuer) {
          return Err(PrincipalMismatch(Proof(i), chain[i].audience, issuer));
        }
        if !Covers(chain[i].command, command) {
          return Err(CommandNotCovered(Proof(i), chain[i].command, command));
        }
      }
      i := i + 1;
    }
    return Ok(());
  }

  lemma LinksStep(c: Case, i: nat, n: nat)
    requires i < n
    ensures First(c, Links(i, n)) ==
            if Failure(c, Linked(i)).Some? then Failure(c, Linked(i))
            else if Failure(c, Covered(i)).Some? then Failure(c, Covered(i))
            else First(c, Links(i + 1, n))
  {
    hide Failure;
    assert [Linked(i), Covered(i)] + Links(i + 1, n) == [Linked(i)] + ([Covered(i)] + Links(i + 1, n));
    FirstStep(c, Linked(i), [Covered(i)] + Links(i + 1, n));
    FirstStep(c, Covered(i), Links(i + 1, n));
  }

  /** The three checks of the root, then the subjects, then the links. */
  lemma StructureOrder(c: Case)
    ensures First(c, Structure(|c.chain|)) ==
            if Failure(c, NonEmpty).Some? then Failure(c, NonEmpty)
            else if Failure(c, RootIssued).Some? then Failure(c, RootIssued)
            else if Failure(c, RootNamed).Some? then Failure(c, RootNamed)
            else if First(c, Subjects(0, |c.chain|)).Some? then First(c, Subjects(0, |c.chain|))
            else First(c, Links(0, |c.chain|))
  {
    hide Failure, Subjects, Links;
    var n := |c.chain|;
    P.FirstAppend(c, [NonEmpty, RootIssued, RootNamed] + Subjects(0, n), Links(0, n));
    P.FirstAppend(c, [NonEmpty, RootIssued, RootNamed], Subjects(0, n));
    FirstStep(c, NonEmpty, [RootIssued, RootNamed]);
    FirstStep(c, RootIssued, [RootNamed]);
    FirstStep(c, RootNamed, []);
    assert [NonEmpty] + [RootIssued, RootNamed] == [NonEmpty, RootIssued, RootNamed];
    assert [RootIssued] + [RootNamed] == [RootIssued, RootNamed] && [RootNamed] + [] == [RootNamed];
  }

  /** The time bounds of the first `hops` delegations. */
  method CheckTimes(c: Case, hops: nat) returns (r: Result<(), ValidationError>)
    requires hops <= |c.chain|
    ensures r == Answer(First(c, Times(0, hops)))
  {
    hide First;
    FirstStep(c, NonEmpty, []);
    var i := 0;
    while i < hops
      invariant 0 <= i <= hops && First(c, Times(0, hops)) == First(c, Times(i, hops))
    {
      FirstStep(c, InTime(i), Times(i + 1, hops));
      var d := c.chain[i];
      var checked := CheckWindow(d.notBefore, d.expiration, c.v.now, c.v.skew);
      if checked.Err? { return Err(TimeFailure(Proof(i), checked).value); }
      i := i + 1;
    }
    return Ok(());
  }

  method VerifyChain(c: Case) returns (r: Result<(), ValidationError>)
    ensures r == Answer(First(c, Signeds(0, |c.chain|)))
  {
    hide First;
    FirstStep(c, NonEmpty, []);
    var i, n := 0, |c.chain|;
    while i < n
      invariant 0 <= i <= n && First(c, Signeds(0, n)) == First(c, Signeds(i, n))
    {
      FirstStep(c, Signed(i), Signeds(i + 1, n));
      var failure := c.v.signatures.ofDelegation(c.chain[i]);
      if failure.Some? { return Err(SignatureError(Proof(i), failure).value); }
      i := i + 1;
    }
    return Ok(());
  }

  /** Asks about the first `hops` delegations, with the issuers of the whole chain. */
  method CheckRevocations(c: Case, hops: nat) returns (r: Result<(), ValidationError>)
    requires hops <= |c.chain|
    ensures r == Answer(First(c, Unrevokeds(0, hops)))
  {
    hide First, Issuers;
    FirstStep(c, NonEmpty, []);
    if c.v.revocations.None? {
      NoneRevoked(c, 0, hops);
      return Ok(());
    }
    var issuers := Issuers(c.chain);
    var i := 0;
    while i < hops
      invariant 0 <= i <= hops && First(c, Unrevokeds(0, hops)) == First(c, Unrevokeds(i, hops))
    {
      FirstStep(c, Unrevoked(i), Unrevokeds(i + 1, hops));
      if c.v.revocations.value(c.chain[i].cid, issuers) { return Err(Revoked(Proof(i), c.chain[i].cid)); }
      i := i + 1;
    }
    return Ok(());
  }

  lemma {:induction false} NoneRevoked(c: Case, i: nat, hops: nat)
    requires c.v.revocations.None? && i <= hops <= |c.chain|
    ensures First(c, Unrevokeds(i, hops)).None?
    decreases hops - i
  {
    if i < hops { NoneRevoked(c, i + 1, hops); }
  }

  method CheckPolicies(c: Case) returns (r: Result<(), ValidationError>)
    ensures r == Answer(First(c, Policies(0, |c.chain|)))
  {
    hide First, Policy.Check;
    FirstStep(c, NonEmpty, []);
    var args := Map(c.invocation.args);
    var i, n := 0, |c.chain|;
    while i < n
      invariant 0 <= i <= n && First(c, Policies(0, n)) == First(c, Policies(i, n))
    {
      FirstStep(c, Permitted(i), Policies(i + 1, n));
      var checked := Policy.Check(c.chain[i].policy, args, 0);
      if checked.Err? { return Err(PolicyRejected(Proof(i), checked.error)); }
      i := i + 1;
    }
    return Ok(());
  }

  lemma MissingStep(lookup: Cid -> Option<Delegation>, proofs: seq<Cid>, i: nat)
    requires i < |proofs|
    ensures Missing(lookup, proofs[i..]) ==
            if lookup(proofs[i]).None? then Some(proofs[i]) else Missing(lookup, proofs[i + 1..])
    ensures Missing(lookup, proofs[i..]).None? ==>
              Chain(lookup, proofs[i..]) == [lookup(proofs[i]).value] + Chain(lookup, proofs[i + 1..])
  {
    assert proofs[i..][1..] == proofs[i + 1..];
  }

  /** Every proof, or the first that is not held. */
  method Collect(lookup: Cid -> Option<Delegation>, proofs: seq<Cid>)
    returns (r: Result<seq<Delegation>, ValidationError>)
    ensures r == match Missing(lookup, proofs)
                 case Some(cid) => Err(MissingProof(cid))
                 case None => Ok(Chain(lookup, proofs))
  {
    var chain: seq<Delegation> := [];
    var i := 0;
    assert proofs[0..] == proofs && forall more: seq<Delegation> :: chain + more == more;
    while i < |proofs|
      invariant 0 <= i <= |proofs| && Missing(lookup, proofs) == Missing(lookup, proofs[i..])
      invariant Missing(lookup, proofs).None? ==> Chain(lookup, proofs) == chain + Chain(lookup, proofs[i..])
    {
      hide Missing, Chain;
      MissingStep(lookup, proofs, i);
      var found := lookup(proofs[i]);
      if found.None? { return Err(MissingProof(proofs[i])); }
      ghost var before := chain;
      chain := chain + [found.value];
      assert forall more :: before + ([found.value] + more) == chain + more;
      i := i + 1;
    }
    assert chain + [] == chain;
    return Ok(chain);
  }

  /** Every check after the structure, in order. */
  lemma PlanOrder(c: Case)
    ensures First(c, Plan(|c.chain|)) ==
            var n := |c.chain|;
            if First(c, Structure(n)).Some? then First(c, Structure(n))
            else if First(c, Times(0, n)).Some? then First(c, Times(0, n))
            else if Failure(c, InvocationInTime).Some? then Failure(c, InvocationInTime)
            else if First(c, Signeds(0, n)).Some? then First(c, Signeds(0, n))
            else if Failure(c, InvocationSigned).Some? then Failure(c, InvocationSigned)
            else if First(c, Unrevokeds(0, n)).Some? then First(c, Unrevokeds(0, n))
            else if First(c, Policies(0, n)).Some? then First(c, Policies(0, n))
            else Failure(c, Addressed)
  {
    hide Failure, First, Structure, Times, Signeds, Unrevokeds, Policies;
    var n := |c.chain|;
    P.FirstAppend(c, BeforeRevocation(n) + Unrevokeds(0, n), AfterRevocation(n));
    P.FirstAppend(c, BeforeRevocation(n), Unrevokeds(0, n));
    P.FirstAppend(c, Structure(n) + (Times(0, n) + [InvocationInTime]), Signeds(0, n) + [InvocationSigned]);
    P.FirstAppend(c, Structure(n), Times(0, n) + [InvocationInTime]);
    P.FirstAppend(c, Times(0, n), [InvocationInTime]);
    P.FirstAppend(c, Signeds(0, n), [InvocationSigned]);
    P.FirstAppend(c, Policies(0, n), [Addressed]);
    FirstOfOne(c, InvocationInTime);
    FirstOfOne(c, InvocationSigned);
    FirstOfOne(c, Addressed);
  }

  lemma FirstOfOne(c: Case, check: Check)
    ensures First(c, [check]) == Failure(c, check)
  {
    hide Failure;
  }

  /** Every check on a resolved chain, in order. */
  method ExamineChain(c: Case) returns (r: Result<(), ValidationError>)
    ensures r == Answer(First(c, Plan(|c.chain|)))
  {
    hide First, Plan, Structure, Times, Signeds, Unrevokeds, Policies;
    PlanOrder(c);
    var _ :- CheckStructure(c);
    var _ :- CheckTimes(c, |c.chain|);
    var time := CheckWindow(None, c.invocation.expiration, c.v.now, c.v.skew);
    if time.Err? { return Err(TimeFailure(TheInvocation, time).value); }
    var _ :- VerifyChain(c);
    var failure := c.v.signatures.ofInvocation(c.invocation);
    if failure.Some? { return Err(SignatureError(TheInvocation, failure).value); }
    var _ :- CheckRevocations(c, |c.chain|);
    var _ :- CheckPolicies(c);
    var target := c.invocation.Executor();
    if c.v.executor.Some? && !SamePrincipal(target, c.v.executor.value) {
      return Err(WrongExecutor(c.v.executor.value, target));
    }
    return Ok(());
  }

  /** Every check but the replay guard's. */
  method Examine(v: Config, inv: Invocation) returns (r: Result<seq<Delegation>, ValidationError>)
    ensures r == Judge(v, inv)
  {
    hide First, Plan, Missing, Chain;
    if v.maxProofs.Some? && |inv.proofs| > v.maxProofs.value {
      return Err(TooManyProofs(|inv.proofs|, v.maxProofs.value));
    }
    var chain :- Collect(v.lookup, inv.proofs);
    var _ :- ExamineChain(CaseOf(v, chain, inv));
    return Ok(chain);
  }

  /** A validator: what it was built with, and the replay guard it may hold. */
  class Validator {
    const settings: Config
    const replay: MemoryReplayGuard?

    constructor (settings: Config, replay: MemoryReplayGuard?)
      ensures this.settings == settings && this.replay == replay
    {
      this.settings := settings;
      this.replay := replay;
    }

    /** Run every check. Stops at the first failure, and records last. */
    method Validate(inv: Invocation) returns (r: Result<seq<Delegation>, ValidationError>)
      modifies replay
      ensures replay == null ==> r == Judge(settings, inv)
      ensures replay != null ==> (r, replay.seen) == V.Validate(settings, inv, old(replay.seen))
    {
      hide Judge;
      var chain :- Examine(settings, inv);
      if replay != null {
        var isNew := replay.RecordSeen(inv.cid, inv.expiration);
        if !isNew { return Err(Replay(inv.cid)); }
      }
      return Ok(chain);
    }
  }
}
