/** What the pipeline accepts, what it answers otherwise, and what an accepted chain may be cut down to. */
module ValidationProofs {
  import opened Wrappers
  import opened IpldModel
  import opened Dids
  import opened Commands
  import opened Time
  import opened Validation
  import Policy

  // Checks in order

  lemma {:induction false} FirstAppend(c: Case, a: seq<Check>, b: seq<Check>)
    ensures First(c, a + b) == if First(c, a).Some? then First(c, a) else First(c, b)
  {
    hide Failure;
    if a == [] {
      assert a + b == b;
    } else {
      FirstAppend(c, a[1..], b);
      assert (a + b)[1..] == a[1..] + b;
    }
  }

  /** The answer is a failing check's before which every check passes, and there is none when all pass. */
  lemma {:induction false} FirstIsFirst(c: Case, checks: seq<Check>)
    ensures First(c, checks).None? <==> forall k :: 0 <= k < |checks| ==> Failure(c, checks[k]).None?
    ensures First(c, checks).Some? ==>
              exists k :: 0 <= k < |checks| && Failure(c, checks[k]) == First(c, checks)
                && forall j :: 0 <= j < k ==> Failure(c, checks[j]).None?
  {
    hide Failure;
    if checks != [] && Failure(c, checks[0]).None? {
      FirstIsFirst(c, checks[1..]);
      assert forall k :: 1 <= k < |checks| ==> checks[k] == checks[1..][k - 1];
      if First(c, checks[1..]).Some? {
        var k :| 0 <= k < |checks| - 1 && Failure(c, checks[1..][k]) == First(c, checks[1..])
                 && forall j :: 0 <= j < k ==> Failure(c, checks[1..][j]).None?;
        assert Failure(c, checks[k + 1]) == First(c, checks);
      }
    }
  }

  /** The checks that are made of a chain of `n` hops. */
  predicate InPlan(check: Check, n: nat) {
    match check
    case SubjectAligned(i) => i < n
    case Linked(i) => i < n
    case Covered(i) => i < n
    case InTime(i) => i < n
    case Signed(i) => i < n
    case Unrevoked(i) => i < n
    case Permitted(i) => i < n
    case _ => true
  }

  lemma {:induction false} InSubjects(i: nat, n: nat)
    ensures forall x :: x in Subjects(i, n) <==> x.SubjectAligned? && i <= x.i < n
    decreases n - i
  {
    if i < n { InSubjects(i + 1, n); }
  }

  lemma {:induction false} InLinks(i: nat, n: nat)
    ensures forall x :: x in Links(i, n) <==> (x.Linked? || x.Covered?) && i <= x.i < n
    decreases n - i
  {
    if i < n { InLinks(i + 1, n); }
  }

  lemma {:induction false} InTimes(i: nat, n: nat)
    ensures forall x :: x in Times(i, n) <==> x.InTime? && i <= x.i < n
    decreases n - i
  {
    if i < n { InTimes(i + 1, n); }
  }

  lemma {:induction false} InSigneds(i: nat, n: nat)
    ensures forall x :: x in Signeds(i, n) <==> x.Signed? && i <= x.i < n
    decreases n - i
  {
    if i < n { InSigneds(i + 1, n); }
  }

  lemma {:induction false} InUnrevokeds(i: nat, n: nat)
    ensures forall x :: x in Unrevokeds(i, n) <==> x.Unrevoked? && i <= x.i < n
    decreases n - i
  {
    if i < n { InUnrevokeds(i + 1, n); }
  }

  lemma {:induction false} InPolicies(i: nat, n: nat)
    ensures forall x :: x in Policies(i, n) <==> x.Permitted? && i <= x.i < n
    decreases n - i
  {
    if i < n { InPolicies(i + 1, n); }
  }

  lemma PlanHolds(n: nat)
    ensures forall x :: x in Plan(n) <==> InPlan(x, n)
    ensures forall x :: x in Structure(n) <==>
              InPlan(x, n) && (x.NonEmpty? || x.RootIssued? || x.RootNamed? || x.SubjectAligned? || x.Linked?
                               || x.Covered?)
  {
    hide Subjects, Links, Times, Signeds, Unrevokeds, Policies;
    InSubjects(0, n);
    InLinks(0, n);
    InTimes(0, n);
    InSigneds(0, n);
    InUnrevokeds(0, n);
    InPolicies(0, n);
  }

  lemma AllPass(c: Case)
    ensures First(c, Plan(|c.chain|)).None? <==> forall x :: InPlan(x, |c.chain|) ==> Failure(c, x).None?
  {
    hide Plan, Failure;
    var plan := Plan(|c.chain|);
    FirstIsFirst(c, plan);
    PlanHolds(|c.chain|);
    if First(c, plan).None? {
      forall x | InPlan(x, |c.chain|) ensures Failure(c, x).None? {
        var k :| 0 <= k < |plan| && plan[k] == x;
      }
    }
    if forall x :: InPlan(x, |c.chain|) ==> Failure(c, x).None? {
      assert forall k :: 0 <= k < |plan| ==> plan[k] in plan;
    }
  }

  // What is accepted

  ghost predicate WithinWindow(notBefore: Option<Timestamp>, expiry: Expiry, v: Config) {
    && (notBefore.Some? ==> notBefore.value - v.skew <= v.now)
    && (expiry.At? ==> v.now <= expiry.at + v.skew)
  }

  /** Root authority, and every hop naming the subject or inheriting it. */
  ghost predicate Rooted(chain: seq<Delegation>, subject: Did) {
    && chain != [] && SamePrincipal(chain[0].issuer, subject) && chain[0].subject.Principal?
    && forall i :: 0 <= i < |chain| && chain[i].subject.Principal? ==> SamePrincipal(chain[i].subject.did, subject)
  }

  /** Each hop was given to whoever issued the next token, for a command that comes first in the next one's. */
  ghost predicate HandedOn(chain: seq<Delegation>, last: Option<(Did, Command)>) {
    forall i :: 0 <= i < |chain| ==> HandedOnAt(chain, last, i)
  }

  ghost predicate HandedOnAt(chain: seq<Delegation>, last: Option<(Did, Command)>, i: nat)
    requires i < |chain|
  {
    var next := Next(chain, last, i);
    next.Some? ==>
      && SamePrincipal(chain[i].audience, next.value.0)
      && Segments(chain[i].command) <= Segments(next.value.1)
  }

  ghost predicate Timely(chain: seq<Delegation>, v: Config) {
    forall i :: 0 <= i < |chain| ==> WithinWindow(chain[i].notBefore, chain[i].expiration, v)
  }

  ghost predicate AllSigned(chain: seq<Delegation>, v: Config) {
    forall i :: 0 <= i < |chain| ==> v.signatures.ofDelegation(chain[i]).None?
  }

  ghost predicate AllStand(chain: seq<Delegation>, v: Config) {
    v.revocations.Some? ==>
      forall i :: 0 <= i < |chain| ==> !v.revocations.value(chain[i].cid, Issuers(chain))
  }

  ghost predicate AllPermit(chain: seq<Delegation>, args: Ipld) {
    forall i, k :: 0 <= i < |chain| && 0 <= k < |chain[i].policy| ==> Policy.Holds(chain[i].policy[k], args)
  }

  /** What it means for an invocation to be accepted over a chain, said all at once. */
  ghost predicate Accepted(v: Config, inv: Invocation, chain: seq<Delegation>) {
    && (v.maxProofs.Some? ==> |inv.proofs| <= v.maxProofs.value)
    && |chain| == |inv.proofs|
    && (forall i :: 0 <= i < |chain| ==> v.lookup(inv.proofs[i]) == Some(chain[i]))
    && Rooted(chain, inv.subject)
    && HandedOn(chain, Some((inv.issuer, inv.command)))
    && Timely(chain, v) && WithinWindow(None, inv.expiration, v)
    && AllSigned(chain, v) && v.signatures.ofInvocation(inv).None?
    && AllStand(chain, v)
    && AllPermit(chain, Map(inv.args))
    && (v.executor.Some? ==> SamePrincipal(inv.Executor(), v.executor.value))
  }

  lemma RootedExactly(c: Case)
    ensures Rooted(c.chain, c.subject)
       <==> Failure(c, NonEmpty).None? && Failure(c, RootIssued).None? && Failure(c, RootNamed).None?
            && forall i :: 0 <= i < |c.chain| ==> Failure(c, SubjectAligned(i)).None?
  {
    forall i | 0 <= i < |c.chain|
      ensures Failure(c, SubjectAligned(i)).None? <==>
              (c.chain[i].subject.Principal? ==> SamePrincipal(c.chain[i].subject.did, c.subject))
    {
    }
  }

  lemma HandedOnExactly(c: Case)
    ensures HandedOn(c.chain, c.last)
       <==> forall i :: 0 <= i < |c.chain| ==> Failure(c, Linked(i)).None? && Failure(c, Covered(i)).None?
  {
    forall i | 0 <= i < |c.chain|
      ensures HandedOnAt(c.chain, c.last, i) <==> Failure(c, Linked(i)).None? && Failure(c, Covered(i)).None?
    {
      var next := Next(c.chain, c.last, i);
      if next.Some? { CoversIsSegmentPrefix(c.chain[i].command, next.value.1); }
    }
  }

  lemma TimelyExactly(c: Case)
    ensures Timely(c.chain, c.v) <==> forall i :: 0 <= i < |c.chain| ==> Failure(c, InTime(i)).None?
    ensures WithinWindow(None, c.invocation.expiration, c.v) <==> Failure(c, InvocationInTime).None?
  {
    forall i | 0 <= i < |c.chain|
      ensures WithinWindow(c.chain[i].notBefore, c.chain[i].expiration, c.v) <==> Failure(c, InTime(i)).None?
    {
      WindowIsUnsaturated(c.chain[i].notBefore, c.chain[i].expiration, c.v.now, c.v.skew);
    }
    WindowIsUnsaturated(None, c.invocation.expiration, c.v.now, c.v.skew);
  }

  lemma AllSignedExactly(c: Case)
    ensures AllSigned(c.chain, c.v) <==> forall i :: 0 <= i < |c.chain| ==> Failure(c, Signed(i)).None?
  {
    forall i | 0 <= i < |c.chain|
      ensures Failure(c, Signed(i)).None? <==> c.v.signatures.ofDelegation(c.chain[i]).None?
    {
    }
  }

  lemma AllStandExactly(c: Case)
    ensures AllStand(c.chain, c.v) <==> forall i :: 0 <= i < |c.chain| ==> Failure(c, Unrevoked(i)).None?
  {
    hide Issuers;
    if c.v.revocations.Some? {
      forall i | 0 <= i < |c.chain|
        ensures Failure(c, Unrevoked(i)).None? <==> !c.v.revocations.value(c.chain[i].cid, Issuers(c.chain))
      {
      }
    }
  }

  lemma AllPermitExactly(c: Case)
    ensures AllPermit(c.chain, Map(c.invocation.args))
       <==> forall i :: 0 <= i < |c.chain| ==> Failure(c, Permitted(i)).None?
  {
    hide Policy.Holds;
    forall i | 0 <= i < |c.chain|
      ensures Failure(c, Permitted(i)).None? <==>
              forall k :: 0 <= k < |c.chain[i].policy| ==> Policy.Holds(c.chain[i].policy[k], Map(c.invocation.args))
    {
    }
  }

  lemma {:induction false} ChainHolds(lookup: Cid -> Option<Delegation>, proofs: seq<Cid>)
    ensures Missing(lookup, proofs).None? <==> forall i :: 0 <= i < |proofs| ==> lookup(proofs[i]).Some?
    ensures Missing(lookup, proofs).None? ==>
              forall i :: 0 <= i < |proofs| ==> lookup(proofs[i]) == Some(Chain(lookup, proofs)[i])
  {
    if proofs != [] {
      ChainHolds(lookup, proofs[1..]);
      assert forall i :: 1 <= i < |proofs| ==> proofs[i] == proofs[1..][i - 1];
    }
  }

  /** The pipeline accepts exactly what is accepted by that conjunction, over exactly that chain. */
  lemma JudgeAcceptsExactly(v: Config, inv: Invocation, chain: seq<Delegation>)
    ensures Judge(v, inv) == Ok(chain) <==> Accepted(v, inv, chain)
  {
    hide First, Plan, Failure, Rooted, HandedOn, Timely, AllSigned, AllStand, AllPermit, WithinWindow, Missing, Chain;
    ChainHolds(v.lookup, inv.proofs);
    if Missing(v.lookup, inv.proofs).None? {
      var found := Chain(v.lookup, inv.proofs);
      var c := CaseOf(v, found, inv);
      AllPass(c);
      RootedExactly(c);
      HandedOnExactly(c);
      TimelyExactly(c);
      AllSignedExactly(c);
      AllStandExactly(c);
      AllPermitExactly(c);
      AddressedExactly(c);
      EveryCheck(c);
      if Accepted(v, inv, chain) { assert chain == found; }
    }
  }

  lemma AddressedExactly(c: Case)
    ensures Failure(c, Addressed).None? <==>
            (c.v.executor.Some? ==> SamePrincipal(c.invocation.Executor(), c.v.executor.value))
    ensures Failure(c, InvocationSigned).None? <==> c.v.signatures.ofInvocation(c.invocation).None?
  {
  }

  /** All the checks of the plan, kind by kind. */
  lemma EveryCheck(c: Case)
    ensures (forall x :: InPlan(x, |c.chain|) ==> Failure(c, x).None?) <==>
            && Failure(c, NonEmpty).None? && Failure(c, RootIssued).None? && Failure(c, RootNamed).None?
            && Failure(c, InvocationInTime).None? && Failure(c, InvocationSigned).None?
            && Failure(c, Addressed).None?
            && (forall i :: 0 <= i < |c.chain| ==> Failure(c, SubjectAligned(i)).None?)
            && (forall i :: 0 <= i < |c.chain| ==> Failure(c, Linked(i)).None? && Failure(c, Covered(i)).None?)
            && (forall i :: 0 <= i < |c.chain| ==> Failure(c, InTime(i)).None?)
            && (forall i :: 0 <= i < |c.chain| ==> Failure(c, Signed(i)).None?)
            && (forall i :: 0 <= i < |c.chain| ==> Failure(c, Unrevoked(i)).None?)
            && (forall i :: 0 <= i < |c.chain| ==> Failure(c, Permitted(i)).None?)
  {
    hide Failure;
    if forall x :: InPlan(x, |c.chain|) ==> Failure(c, x).None? {
      forall i | 0 <= i < |c.chain|
        ensures Failure(c, SubjectAligned(i)).None? && Failure(c, Linked(i)).None? && Failure(c, Covered(i)).None?
        ensures Failure(c, InTime(i)).None? && Failure(c, Signed(i)).None? && Failure(c, Unrevoked(i)).None?
        ensures Failure(c, Permitted(i)).None?
      {
        assert InPlan(SubjectAligned(i), |c.chain|) && InPlan(Linked(i), |c.chain|) && InPlan(Covered(i), |c.chain|);
        assert InPlan(InTime(i), |c.chain|) && InPlan(Signed(i), |c.chain|) && InPlan(Unrevoked(i), |c.chain|);
        assert InPlan(Permitted(i), |c.chain|);
      }
      assert InPlan(NonEmpty, |c.chain|) && InPlan(RootIssued, |c.chain|) && InPlan(RootNamed, |c.chain|);
      assert InPlan(InvocationInTime, |c.chain|) && InPlan(InvocationSigned, |c.chain|);
      assert InPlan(Addressed, |c.chain|);
    }
  }

  /** `check` is the first of the checks that fails. */
  ghost predicate FailsFirst(c: Case, checks: seq<Check>, k: nat, e: ValidationError) {
    && k < |checks| && Failure(c, checks[k]) == Some(e)
    && forall j :: 0 <= j < k ==> Failure(c, checks[j]).None?
  }

  ghost predicate FirstFailure(c: Case, checks: seq<Check>, e: ValidationError) {
    exists k: nat :: FailsFirst(c, checks, k, e)
  }

  /**
   * Any other answer is the limit's, else that of the first proof not held, else that of the first check
   * in the plan that fails, every check before it passing.
   */
  lemma JudgeRefusesWithFirst(v: Config, inv: Invocation, e: ValidationError)
    ensures Judge(v, inv) == Err(e) <==>
            if v.maxProofs.Some? && |inv.proofs| > v.maxProofs.value
            then e == TooManyProofs(|inv.proofs|, v.maxProofs.value)
            else if Missing(v.lookup, inv.proofs).Some? then e == MissingProof(Missing(v.lookup, inv.proofs).value)
            else
              var chain := Chain(v.lookup, inv.proofs);
              FirstFailure(CaseOf(v, chain, inv), Plan(|chain|), e)
  {
    hide First, Plan, Missing, Chain, Failure, FirstFailure;
    if Missing(v.lookup, inv.proofs).None? {
      var chain := Chain(v.lookup, inv.proofs);
      FirstExactly(CaseOf(v, chain, inv), Plan(|chain|), e);
    }
  }

  lemma FirstExactly(c: Case, checks: seq<Check>, e: ValidationError)
    ensures First(c, checks) == Some(e) <==> FirstFailure(c, checks, e)
  {
    hide First, Failure;
    FirstIsFirst(c, checks);
    if First(c, checks) == Some(e) {
      var k :| 0 <= k < |checks| && Failure(c, checks[k]) == First(c, checks)
               && forall j :: 0 <= j < k ==> Failure(c, checks[j]).None?;
      assert FailsFirst(c, checks, k, e);
    }
    forall m: nat | FailsFirst(c, checks, m, e) ensures First(c, checks) == Some(e) {
      FailsFirstIsFirst(c, checks, m, e);
    }
  }

  lemma {:induction false} FailsFirstIsFirst(c: Case, checks: seq<Check>, k: nat, e: ValidationError)
    requires FailsFirst(c, checks, k, e)
    ensures First(c, checks) == Some(e)
  {
    hide Failure;
    if k > 0 {
      assert Failure(c, checks[0]).None?;
      assert forall j :: 0 <= j < k ==> checks[1..][j] == checks[j + 1];
      FailsFirstIsFirst(c, checks[1..], k - 1, e);
    }
  }

  // Attenuation

  /** Down an accepted chain commands only narrow: each hop's segments come first in every later one's. */
  lemma {:induction false} CommandsNarrow(chain: seq<Delegation>, last: (Did, Command), i: nat, j: nat)
    requires HandedOn(chain, Some(last)) && i <= j < |chain|
    ensures Segments(chain[i].command) <= Segments(chain[j].command)
    ensures Segments(chain[i].command) <= Segments(last.1)
    decreases |chain| - i
  {
    hide Segments;
    assert HandedOnAt(chain, Some(last), i);
    if i < j {
      CommandsNarrow(chain, last, i + 1, j);
    } else if i + 1 < |chain| {
      CommandsNarrow(chain, last, i + 1, i + 1);
    }
  }

  /** The hops of an accepted chain all carry at least the authority invoked. */
  lemma AcceptedCommandsCover(v: Config, inv: Invocation, chain: seq<Delegation>)
    requires Judge(v, inv) == Ok(chain)
    ensures forall i :: 0 <= i < |chain| ==> Segments(chain[i].command) <= Segments(inv.command)
  {
    hide Segments, HandedOn, Rooted;
    JudgeAcceptsExactly(v, inv, chain);
    forall i | 0 <= i < |chain| ensures Segments(chain[i].command) <= Segments(inv.command) {
      CommandsNarrow(chain, (inv.issuer, inv.command), i, i);
    }
  }

  /** A store that is asked about more issuers never revokes less. */
  ghost predicate Monotone(answer: RevocationAnswer) {
    forall cid, a, b :: a <= b && answer(cid, a) ==> answer(cid, b)
  }

  lemma AskingIsMonotone(revoked: map<Cid, Recorded>)
    ensures Monotone(Asking(revoked))
  {
  }

  /** `shorter` invokes what `inv` does, as the issuer of hop `k`, over the hops above it. */
  ghost predicate CutAt(shorter: Invocation, inv: Invocation, chain: seq<Delegation>, k: nat)
    requires 0 < k < |chain| == |inv.proofs|
  {
    && shorter.issuer == chain[k].issuer && shorter.subject == inv.subject && shorter.command == inv.command
    && shorter.args == inv.args && shorter.audience == inv.audience && shorter.proofs == inv.proofs[..k]
  }

  /**
   * Every issuer along an accepted chain could have invoked the same over the hops above it: any
   * non-empty proper prefix of the chain is accepted for a fresh invocation that is in time and signed.
   */
  lemma Attenuation(
      v: Config, inv: Invocation, chain: seq<Delegation>, k: nat, shorter: Invocation, seen: map<Cid, Expiry>)
    requires Judge(v, inv) == Ok(chain) && 0 < k < |chain| == |inv.proofs| && CutAt(shorter, inv, chain, k)
    requires v.revocations.Some? ==> Monotone(v.revocations.value)
    requires WithinWindow(None, shorter.expiration, v) && v.signatures.ofInvocation(shorter).None?
    requires shorter.cid !in seen
    ensures Validate(v, shorter, seen) == (Ok(chain[..k]), seen[shorter.cid := shorter.expiration])
  {
    hide Judge;
    JudgeAcceptsExactly(v, inv, chain);
    var above := chain[..k];
    HandedOnAbove(chain, (inv.issuer, inv.command), k);
    assert forall i :: 0 <= i < k ==> above[i] == chain[i] && shorter.proofs[i] == inv.proofs[i];
    hide HandedOn, Segments;
    AllStandAbove(chain, v, k);
    hide AllStand;
    assert Accepted(v, shorter, above);
    JudgeAcceptsExactly(v, shorter, above);
  }

  lemma AllStandAbove(chain: seq<Delegation>, v: Config, k: nat)
    requires AllStand(chain, v) && k <= |chain| && (v.revocations.Some? ==> Monotone(v.revocations.value))
    ensures AllStand(chain[..k], v)
  {
    var above := chain[..k];
    assert Issuers(above) <= Issuers(chain) by {
      assert Issuers(above) == Issuers(chain)[..k];
    }
    if v.revocations.Some? {
      forall i | 0 <= i < k ensures !v.revocations.value(above[i].cid, Issuers(above)) {
        assert !v.revocations.value(chain[i].cid, Issuers(chain));
      }
    }
  }

  lemma HandedOnAbove(chain: seq<Delegation>, last: (Did, Command), k: nat)
    requires HandedOn(chain, Some(last)) && 0 < k < |chain|
    ensures HandedOn(chain[..k], Some((chain[k].issuer, last.1)))
  {
    hide Segments;
    var above, end := chain[..k], Some((chain[k].issuer, last.1));
    forall i | 0 <= i < k ensures HandedOnAt(above, end, i) {
      assert HandedOnAt(chain, Some(last), i);
      if i + 1 == k { CommandsNarrow(chain, last, i, i); }
    }
  }

  // The documented order

  function Linkeds(i: nat, n: nat): seq<Check>
    decreases n - i
  {
    if i >= n then [] else [Linked(i)] + Linkeds(i + 1, n)
  }

  function Covereds(i: nat, n: nat): seq<Check>
    decreases n - i
  {
    if i >= n then [] else [Covered(i)] + Covereds(i + 1, n)
  }

  function BeforeLinks(n: nat): seq<Check> {
    [NonEmpty, RootIssued, RootNamed] + Subjects(0, n)
  }

  function AfterLinks(n: nat): seq<Check> {
    Times(0, n) + [InvocationInTime] + Signeds(0, n) + [InvocationSigned] + Unrevokeds(0, n) + AfterRevocation(n)
  }

  /** The plan as the documentation tabulates it: every audience of the chain before any command. */
  function TabledPlan(n: nat): seq<Check> {
    BeforeLinks(n) + (Linkeds(0, n) + Covereds(0, n)) + AfterLinks(n)
  }

  lemma PlanAroundLinks(n: nat)
    ensures Plan(n) == BeforeLinks(n) + Links(0, n) + AfterLinks(n)
  {
    hide Subjects, Links, Times, Signeds, Unrevokeds, AfterRevocation;
  }

  /** From hop `i` on, a command at `k` is not covered before an audience fails, and one fails later, at `l`. */
  ghost predicate Overtakes(c: Case, i: nat, k: nat, l: nat) {
    && i <= k < l < |c.chain| && Failure(c, Covered(k)).Some? && Failure(c, Linked(l)).Some?
    && forall m: nat :: i <= m <= k ==> Failure(c, Linked(m)).None?
  }

  ghost predicate OutOfStep(c: Case, i: nat) {
    exists k: nat, l: nat :: Overtakes(c, i, k, l)
  }

  lemma {:induction false} LinkedFails(c: Case, i: nat)
    ensures First(c, Linkeds(i, |c.chain|)).Some? <==>
            exists l: nat :: i <= l < |c.chain| && Failure(c, Linked(l)).Some?
    ensures First(c, Linkeds(i, |c.chain|)).Some? ==> First(c, Linkeds(i, |c.chain|)).value.PrincipalMismatch?
    decreases |c.chain| - i
  {
    hide Failure;
    if i < |c.chain| {
      LinkedFails(c, i + 1);
      assert Linkeds(i, |c.chain|)[1..] == Linkeds(i + 1, |c.chain|);
      MismatchOnly(c, i);
    }
  }

  lemma MismatchOnly(c: Case, i: nat)
    requires i < |c.chain|
    ensures Failure(c, Linked(i)).Some? ==> Failure(c, Linked(i)).value.PrincipalMismatch?
    ensures Failure(c, Covered(i)).Some? ==> Failure(c, Covered(i)).value.CommandNotCovered?
  {
  }

  /** From hop `i` on the two orders give one answer, unless a command is overtaken. */
  lemma {:induction false} LinksAsTabled(c: Case, i: nat)
    requires i <= |c.chain|
    ensures var n := |c.chain|;
            var done, tabled := First(c, Links(i, n)), First(c, Linkeds(i, n) + Covereds(i, n));
            if OutOfStep(c, i)
            then done.Some? && done.value.CommandNotCovered? && tabled.Some? && tabled.value.PrincipalMismatch?
            else done == tabled
    decreases |c.chain| - i
  {
    hide Failure, OutOfStep;
    var n := |c.chain|;
    FirstAppend(c, Linkeds(i, n), Covereds(i, n));
    if i < n {
      LinksAsTabled(c, i + 1);
      FirstAppend(c, Linkeds(i + 1, n), Covereds(i + 1, n));
      StepsOfLinks(c, i);
      MismatchOnly(c, i);
      LinkedFails(c, i + 1);
      OutOfStepAt(c, i);
    } else {
      NotOutOfStep(c, i);
    }
  }

  lemma NotOutOfStep(c: Case, i: nat)
    requires i >= |c.chain|
    ensures !OutOfStep(c, i)
  {
    hide Failure;
  }

  /** One hop of each list. */
  lemma StepsOfLinks(c: Case, i: nat)
    requires i < |c.chain|
    ensures var n := |c.chain|;
            && First(c, Links(i, n)) == (if Failure(c, Linked(i)).Some? then Failure(c, Linked(i))
                                         else if Failure(c, Covered(i)).Some? then Failure(c, Covered(i))
                                         else First(c, Links(i + 1, n)))
            && First(c, Linkeds(i, n)) == (if Failure(c, Linked(i)).Some? then Failure(c, Linked(i))
                                           else First(c, Linkeds(i + 1, n)))
            && First(c, Covereds(i, n)) == (if Failure(c, Covered(i)).Some? then Failure(c, Covered(i))
                                            else First(c, Covereds(i + 1, n)))
  {
    var n := |c.chain|;
    assert Linkeds(i, n)[1..] == Linkeds(i + 1, n);
    assert Covereds(i, n)[1..] == Covereds(i + 1, n);
    assert Links(i, n)[1..] == [Covered(i)] + Links(i + 1, n);
    assert ([Covered(i)] + Links(i + 1, n))[1..] == Links(i + 1, n);
    hide Failure, Links, Linkeds, Covereds;
    assert Links(i, n)[0] == Linked(i);
  }

  lemma OutOfStepAt(c: Case, i: nat)
    requires i < |c.chain|
    ensures OutOfStep(c, i) <==>
            && Failure(c, Linked(i)).None?
            && if Failure(c, Covered(i)).Some?
               then exists l: nat :: i + 1 <= l < |c.chain| && Failure(c, Linked(l)).Some?
               else OutOfStep(c, i + 1)
  {
    hide Failure;
    if Failure(c, Linked(i)).None? {
      var next := i + 1;
      if k: nat, l: nat :| Overtakes(c, next, k, l) { assert Overtakes(c, i, k, l); }
      if k: nat, l: nat :| Overtakes(c, i, k, l) {
        if k > i { assert Overtakes(c, next, k, l); }
      }
      if l: nat :| i + 1 <= l < |c.chain| && Failure(c, Linked(l)).Some? {
        if Failure(c, Covered(i)).Some? { assert Overtakes(c, i, i, l); }
      }
    }
  }

  /**
   * The order of the checks shows exactly when every check before them passes and a command is overtaken:
   * then the pipeline complains of the command, where the documentation's order would of the audience.
   */
  lemma OrderShows(c: Case)
    ensures var n := |c.chain|;
            var done, tabled := First(c, Plan(n)), First(c, TabledPlan(n));
            if First(c, BeforeLinks(n)).None? && OutOfStep(c, 0)
            then done.Some? && done.value.CommandNotCovered? && tabled.Some? && tabled.value.PrincipalMismatch?
            else done == tabled
  {
    var n := |c.chain|;
    PlanAroundLinks(n);
    LinksAsTabled(c, 0);
    hide First, Failure, OutOfStep, BeforeLinks, AfterLinks, Links, Linkeds, Covereds, Plan;
    FirstAppend(c, BeforeLinks(n) + Links(0, n), AfterLinks(n));
    FirstAppend(c, BeforeLinks(n), Links(0, n));
    FirstAppend(c, BeforeLinks(n) + (Linkeds(0, n) + Covereds(0, n)), AfterLinks(n));
    FirstAppend(c, BeforeLinks(n), Linkeds(0, n) + Covereds(0, n));
  }

  /** A hop from `a` to `a` about `a` for `command`. */
  function OwnHop(cid: Cid, a: Did, command: Command): Delegation {
    Delegation(cid, a, a, Principal(a), command, [], None, Never)
  }

  /** For one: a first hop whose command covers nothing, and a last one given to another than the invoker. */
  lemma OrderExample(v: Config, inv: Invocation, x: Cid, y: Cid)
    requires inv.subject == Did("a") && inv.issuer == Did("b") && inv.command == CommandText("/y")
    ensures var c := CaseOf(v, [OwnHop(x, Did("a"), CommandText("/x")), OwnHop(y, Did("a"), CommandText("/y"))], inv);
            && First(c, Plan(2)) == Some(CommandNotCovered(Proof(0), CommandText("/x"), CommandText("/y")))
            && First(c, TabledPlan(2)) == Some(PrincipalMismatch(Proof(1), Did("a"), Did("b")))
  {
    hide Failure, Covers, SamePrincipal;
    var c := CaseOf(v, [OwnHop(x, Did("a"), CommandText("/x")), OwnHop(y, Did("a"), CommandText("/y"))], inv);
    ExampleFails(c);
    ExampleStarts(c);
    PlanAroundLinks(2);
    hide First, BeforeLinks, AfterLinks, Links, Linkeds, Covereds, Plan;
    FirstAppend(c, BeforeLinks(2) + Links(0, 2), AfterLinks(2));
    FirstAppend(c, BeforeLinks(2), Links(0, 2));
    FirstAppend(c, BeforeLinks(2) + (Linkeds(0, 2) + Covereds(0, 2)), AfterLinks(2));
    FirstAppend(c, BeforeLinks(2), Linkeds(0, 2) + Covereds(0, 2));
    FirstAppend(c, Linkeds(0, 2), Covereds(0, 2));
    StepsOfLinks(c, 0);
    StepsOfLinks(c, 1);
  }

  lemma ExampleFails(c: Case)
    requires |c.chain| == 2 && c.chain[0].audience == c.chain[1].issuer == c.chain[1].audience == Did("a")
    requires c.chain[0].command == CommandText("/x") && c.chain[1].command == CommandText("/y")
    requires c.last == Some((Did("b"), CommandText("/y")))
    ensures Failure(c, Covered(0)) == Some(CommandNotCovered(Proof(0), CommandText("/x"), CommandText("/y")))
    ensures Failure(c, Linked(0)).None?
    ensures Failure(c, Linked(1)) == Some(PrincipalMismatch(Proof(1), Did("a"), Did("b")))
  {
    assert Base(Did("a")) == "a" && Base(Did("b")) == "b";
  }

  lemma ExampleStarts(c: Case)
    requires |c.chain| == 2 && forall i :: 0 <= i < 2 ==> c.chain[i].subject == Principal(c.subject)
    requires c.chain[0].issuer == c.subject
    ensures First(c, BeforeLinks(2)).None?
  {
    InSubjects(0, 2);
    FirstIsFirst(c, BeforeLinks(2));
    var checks := BeforeLinks(2);
    forall k | 0 <= k < |checks| ensures Failure(c, checks[k]).None? {
      if k >= 3 { assert checks[k] in Subjects(0, 2); }
    }
  }
}
