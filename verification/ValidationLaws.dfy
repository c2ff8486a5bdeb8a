/** What each refusal says of the chain, and what of the settings each pipeline uses. */
module ValidationLaws {
  import opened Wrappers
  import opened IpldModel
  import opened Dids
  import opened Commands
  import opened Time
  import opened Validation
  import opened ValidationProofs
  import Policy
  import R = RevocationCheck

  /** The token after hop `i` has this issuer and command. */
  ghost predicate ContinuesWith(c: Case, i: nat, issuer: Did, command: Command) {
    if i + 1 < |c.chain| then c.chain[i + 1].issuer == issuer && c.chain[i + 1].command == command
    else c.last == Some((issuer, command))
  }

  ghost predicate Early(notBefore: Option<Timestamp>, v: Config) {
    notBefore.Some? && v.now < notBefore.value - v.skew
  }

  /** Statement `k` fails and none before it does. */
  ghost predicate FirstRejecting(policy: seq<Policy.Statement>, args: Ipld, k: nat) {
    && k < |policy| && !Policy.Holds(policy[k], args)
    && forall j :: 0 <= j < k ==> Policy.Holds(policy[j], args)
  }

  /** Why a signature was refused, and how that is said. */
  ghost predicate SaysOfSignature(failure: Option<SignatureFailure>, e: ValidationError, hop: Hop) {
    || (e == BadSignature(hop) && failure == Some(Crypto))
    || (e.Unresolvable? && e.hop == hop && failure == Some(Resolve(e.reason)))
    || (e.Token? && e.hop == hop && failure == Some(Other(e.reason)))
  }

  /** What an error of the checks on the whole chain says. */
  ghost predicate SaysOfChain(c: Case, check: Check, e: ValidationError) {
    match check
    case NonEmpty => c.chain == [] && e == EmptyChain
    case RootIssued =>
      c.chain != [] && e.RootNotSubject? && e.issuer == c.chain[0].issuer && e.subject == c.subject
      && Base(e.issuer) != Base(e.subject)
    case RootNamed => c.chain != [] && c.chain[0].subject == Powerline && e == PowerlineAtRoot
    case InvocationInTime =>
      c.invocation.expiration.At? && e == TooLate(TheInvocation, c.invocation.expiration.at)
      && c.v.now > c.invocation.expiration.at + c.v.skew
    case InvocationSigned => SaysOfSignature(c.v.signatures.ofInvocation(c.invocation), e, TheInvocation)
    case Addressed =>
      && c.v.executor.Some? && e.WrongExecutor? && e.expected == c.v.executor.value
      && (if c.invocation.audience.Some? then c.invocation.audience == Some(e.found)
          else e.found == c.invocation.subject)
      && Base(e.expected) != Base(e.found)
    case _ => false
  }

  /** What an error of the checks hop by hop says. */
  ghost predicate SaysOfHop(c: Case, check: Check, e: ValidationError, i: nat)
    requires i < |c.chain|
  {
    var d, hop := c.chain[i], Proof(i);
    match check
    case SubjectAligned(_) =>
      e == SubjectMismatch(hop) && d.subject.Principal? && Base(d.subject.did) != Base(c.subject)
    case Linked(_) =>
      e.PrincipalMismatch? && e.hop == hop && e.audience == d.audience && Base(e.audience) != Base(e.issuer)
      && exists command :: ContinuesWith(c, i, e.issuer, command)
    case Covered(_) =>
      e.CommandNotCovered? && e.hop == hop && e.granted == d.command
      && !(Segments(e.granted) <= Segments(e.requested)) && exists issuer :: ContinuesWith(c, i, issuer, e.requested)
    case InTime(_) =>
      || (e.TooEarly? && e.hop == hop && d.notBefore == Some(e.notBefore) && Early(d.notBefore, c.v))
      || (e.TooLate? && e.hop == hop && d.expiration == Expiry.At(e.at) && c.v.now > e.at + c.v.skew
          && !Early(d.notBefore, c.v))
    case Signed(_) => SaysOfSignature(c.v.signatures.ofDelegation(d), e, hop)
    case Unrevoked(_) =>
      e == Revoked(hop, d.cid) && c.v.revocations.Some? && c.v.revocations.value(d.cid, Issuers(c.chain))
    case Permitted(_) =>
      e.PolicyRejected? && e.hop == hop && FirstRejecting(d.policy, Map(c.invocation.args), e.statement)
    case _ => false
  }

  ghost predicate OfChain(check: Check) {
    check.NonEmpty? || check.RootIssued? || check.RootNamed? || check.InvocationInTime? || check.InvocationSigned?
    || check.Addressed?
  }

  /** What a check complains of: on a hop the chain does not have, of nothing. */
  ghost predicate Complains(c: Case, check: Check, e: ValidationError) {
    if OfChain(check) then SaysOfChain(c, check, e)
    else check.i < |c.chain| && SaysOfHop(c, check, e, check.i)
  }

  lemma SignatureSaid(failure: Option<SignatureFailure>, e: ValidationError, hop: Hop)
    ensures SignatureError(hop, failure) == Some(e) <==> SaysOfSignature(failure, e, hop)
  {
  }

  lemma ChainFailure(c: Case, check: Check, e: ValidationError)
    requires OfChain(check)
    ensures Failure(c, check) == Some(e) <==> SaysOfChain(c, check, e)
  {
    SignatureSaid(c.v.signatures.ofInvocation(c.invocation), e, TheInvocation);
    hide SignatureError, SaysOfSignature;
    var expiry := c.invocation.expiration;
    if expiry.At? { WindowErrors(None, expiry, c.v.now, c.v.skew, expiry.at); }
    WindowIsUnsaturated(None, expiry, c.v.now, c.v.skew);
    if e.TooLate? { WindowErrors(None, expiry, c.v.now, c.v.skew, e.at); }
    hide IsPast, Base;
    assert SamePrincipal(c.subject, c.subject);
  }

  lemma HopFailureSays(c: Case, check: Check, e: ValidationError, i: nat)
    requires !OfChain(check) && check.i == i < |c.chain|
    ensures Failure(c, check) == Some(e) <==> SaysOfHop(c, check, e, i)
  {
    hide Base, Issuers;
    match check
    case InTime(_) => WindowSays(c, e, i);
    case Linked(_) => LinkSays(c, e, i);
    case Covered(_) => CoverSays(c, e, i);
    case Permitted(_) => PolicySays(c, e, i);
    case Signed(_) => SignatureSaid(c.v.signatures.ofDelegation(c.chain[i]), e, Proof(i));
    case _ =>
  }

  lemma WindowSays(c: Case, e: ValidationError, i: nat)
    requires i < |c.chain|
    ensures Failure(c, InTime(i)) == Some(e) <==> SaysOfHop(c, InTime(i), e, i)
  {
    var d := c.chain[i];
    WindowIsUnsaturated(d.notBefore, d.expiration, c.v.now, c.v.skew);
    if e.TooEarly? { WindowErrors(d.notBefore, d.expiration, c.v.now, c.v.skew, e.notBefore); }
    if e.TooLate? { WindowErrors(d.notBefore, d.expiration, c.v.now, c.v.skew, e.at); }
    hide CheckWindow;
  }

  lemma LinkSays(c: Case, e: ValidationError, i: nat)
    requires i < |c.chain|
    ensures Failure(c, Linked(i)) == Some(e) <==> SaysOfHop(c, Linked(i), e, i)
  {
    hide Base;
    var next := Next(c.chain, c.last, i);
    if next.Some? { assert ContinuesWith(c, i, next.value.0, next.value.1); }
  }

  lemma CoverSays(c: Case, e: ValidationError, i: nat)
    requires i < |c.chain|
    ensures Failure(c, Covered(i)) == Some(e) <==> SaysOfHop(c, Covered(i), e, i)
  {
    var next := Next(c.chain, c.last, i);
    if next.Some? {
      CoversIsSegmentPrefix(c.chain[i].command, next.value.1);
      assert ContinuesWith(c, i, next.value.0, next.value.1);
    }
    hide Covers, Segments;
  }

  lemma PolicySays(c: Case, e: ValidationError, i: nat)
    requires i < |c.chain|
    ensures Failure(c, Permitted(i)) == Some(e) <==> SaysOfHop(c, Permitted(i), e, i)
  {
    hide Policy.Check, Policy.Holds;
    var r := Policy.Check(c.chain[i].policy, Map(c.invocation.args), 0);
  }

  /** A check fails with an error exactly when what the error says is so. */
  lemma FailureExactly(c: Case, check: Check, e: ValidationError)
    ensures Failure(c, check) == Some(e) <==> Complains(c, check, e)
  {
    hide Failure, SaysOfChain, SaysOfHop;
    if OfChain(check) {
      ChainFailure(c, check, e);
    } else if check.i < |c.chain| {
      HopFailureSays(c, check, e, check.i);
    } else {
      NoSuchHop(c, check);
    }
  }

  lemma NoSuchHop(c: Case, check: Check)
    requires !OfChain(check) && check.i >= |c.chain|
    ensures Failure(c, check).None?
  {
  }

  /** `check` has nothing to complain of. */
  ghost predicate Content(c: Case, check: Check) {
    forall e :: !Complains(c, check, e)
  }

  ghost predicate FirstComplaint(c: Case, checks: seq<Check>, e: ValidationError) {
    exists k: nat :: k < |checks| && Complains(c, checks[k], e) && forall j :: 0 <= j < k ==> Content(c, checks[j])
  }

  /** So a refusal over a resolved chain is the first complaint of the plan, and what it says is so. */
  lemma RefusedBecause(v: Config, inv: Invocation, chain: seq<Delegation>, e: ValidationError)
    requires v.maxProofs.Some? ==> |inv.proofs| <= v.maxProofs.value
    requires Missing(v.lookup, inv.proofs).None? && chain == Chain(v.lookup, inv.proofs)
    ensures Judge(v, inv) == Err(e) <==> FirstComplaint(CaseOf(v, chain, inv), Plan(|chain|), e)
  {
    hide Judge, Missing, Chain, Plan, Failure, Complains;
    JudgeRefusesWithFirst(v, inv, e);
    var c, plan := CaseOf(v, chain, inv), Plan(|chain|);
    forall check ensures Content(c, check) <==> Failure(c, check).None? {
      forall x ensures Failure(c, check) == Some(x) <==> Complains(c, check, x) { FailureExactly(c, check, x); }
    }
    forall check ensures Failure(c, check) == Some(e) <==> Complains(c, check, e) { FailureExactly(c, check, e); }
    hide Content;
    if FirstFailure(c, plan, e) {
      var k: nat :| FailsFirst(c, plan, k, e);
      assert Complains(c, plan[k], e);
    }
    if FirstComplaint(c, plan, e) {
      var k: nat :| k < |plan| && Complains(c, plan[k], e) && forall j :: 0 <= j < k ==> Content(c, plan[j]);
      assert FailsFirst(c, plan, k, e);
    }
  }

  /** A repeat is told as one exactly when nothing else speaks against it and it was seen before. */
  lemma ReplayExactly(v: Config, inv: Invocation, seen: map<Cid, Expiry>)
    ensures Validate(v, inv, seen).0 == Err(Replay(inv.cid)) <==> Judge(v, inv).Ok? && inv.cid in seen
    ensures Judge(v, inv).Err? ==> Validate(v, inv, seen).0 == Err(Judge(v, inv).error)
  {
    if Judge(v, inv) == Err(Replay(inv.cid)) { NeverReplay(v, inv); }
    hide Judge;
  }

  lemma NeverReplay(v: Config, inv: Invocation)
    ensures Judge(v, inv) != Err(Replay(inv.cid))
  {
    hide Plan, Chain, First;
    if Missing(v.lookup, inv.proofs).None? && Judge(v, inv) == Err(Replay(inv.cid)) {
      var chain := Chain(v.lookup, inv.proofs);
      RefusedBecause(v, inv, chain, Replay(inv.cid));
    }
  }

  /** A grant is judged by all the validator's own rules but the one on who executes. */
  lemma GrantRules(v: Config, inv: Invocation, chain: seq<Delegation>)
    ensures Accepted(v, inv, chain)
       <==> Accepted(R.GrantConfig(v), inv, chain)
            && (v.executor.Some? ==> Base(inv.Executor()) == Base(v.executor.value))
  {
    hide Rooted, HandedOn, AllPermit, Base;
    var w := R.GrantConfig(v);
    assert Timely(chain, w) <==> Timely(chain, v);
    assert AllSigned(chain, w) <==> AllSigned(chain, v);
    assert AllStand(chain, w) <==> AllStand(chain, v);
  }

  /** Who is to execute: the audience, and where none is given the subject. */
  lemma ExecutorIs(inv: Invocation)
    ensures inv.audience == None ==> inv.Executor() == inv.subject
    ensures inv.(audience := Some(inv.subject)).Executor() == inv.subject
    ensures forall did :: inv.audience == Some(did) ==> inv.Executor() == did
  {
  }

  /** The command of a revocation, piece by piece. */
  lemma RevokeCommandIs()
    ensures Joined(["ucan", "revoke"]) == R.REVOKE_COMMAND
  {
    assert ["ucan", "revoke"][1..] == ["revoke"] && ["revoke"][1..] == [];
    assert Joined(["revoke"]) == "/revoke";
  }
}
