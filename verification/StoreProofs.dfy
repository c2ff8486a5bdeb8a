/** What the revocation store and the replay guard guarantee over whole runs. */
module StoreProofs {
  import opened Wrappers
  import opened IpldModel
  import opened Dids
  import opened Time
  import opened Validation
  import opened ValidationProofs

  // Pruning revocations

  /** The recorded expiry of a revoked delegation is that delegation's: a CID fixes its delegation. */
  ghost predicate ExpiriesKnown(revoked: map<Cid, Recorded>, chain: seq<Delegation>) {
    forall i :: 0 <= i < |chain| && chain[i].cid in revoked && revoked[chain[i].cid].targetExpiry.Some?
      ==> revoked[chain[i].cid].targetExpiry.value == chain[i].expiration
  }

  /** Pruning forgets only what has lapsed, so for a delegation still in time the answer is the same. */
  lemma PruningKeepsAnswer(
      revoked: map<Cid, Recorded>, earlier: Timestamp, more: Seconds, d: Delegation, now: Timestamp, skew: Seconds,
      issuers: seq<Did>)
    requires earlier <= now && skew <= more && CheckWindow(d.notBefore, d.expiration, now, skew).Ok?
    requires d.cid in revoked && revoked[d.cid].targetExpiry.Some? ==>
               revoked[d.cid].targetExpiry.value == d.expiration
    ensures IsRevoked(PruneRevoked(revoked, earlier, more), d.cid, issuers) == IsRevoked(revoked, d.cid, issuers)
  {
    hide Reaches;
    if IsPast(d.expiration, earlier, more) { PastStays(d.expiration, earlier, more, now, skew); }
  }

  /** The same validator over another revocation store. */
  function Over(v: Config, revoked: map<Cid, Recorded>): Config {
    v.(revocations := Some(Asking(revoked)))
  }

  /** `a` and `b` answer alike about every hop of the chain. */
  ghost predicate Alike(a: map<Cid, Recorded>, b: map<Cid, Recorded>, chain: seq<Delegation>) {
    forall i :: 0 <= i < |chain| ==>
      IsRevoked(a, chain[i].cid, Issuers(chain)) == IsRevoked(b, chain[i].cid, Issuers(chain))
  }

  /** Two cases that differ in their revocation stores alone. */
  ghost predicate SameBut(c: Case, d: Case) {
    d == c.(v := d.v) && d.v == c.v.(revocations := d.v.revocations)
  }

  lemma {:induction false} FirstIgnoresStore(c: Case, d: Case, checks: seq<Check>)
    requires SameBut(c, d) && forall x :: x in checks ==> !x.Unrevoked?
    ensures First(c, checks) == First(d, checks)
  {
    if checks != [] {
      assert !checks[0].Unrevoked? && Failure(c, checks[0]) == Failure(d, checks[0]);
      hide Failure;
      FirstIgnoresStore(c, d, checks[1..]);
    }
  }

  lemma {:induction false} FirstUnrevoked(c: Case, d: Case, i: nat)
    requires SameBut(c, d) && i <= |c.chain|
    requires forall k :: i <= k < |c.chain| ==> Failure(c, Unrevoked(k)) == Failure(d, Unrevoked(k))
    ensures First(c, Unrevokeds(i, |c.chain|)) == First(d, Unrevokeds(i, |c.chain|))
    decreases |c.chain| - i
  {
    hide Failure;
    if i < |c.chain| { FirstUnrevoked(c, d, i + 1); }
  }

  lemma BeforeAndAfter(n: nat)
    ensures forall x :: x in BeforeRevocation(n) ==> !x.Unrevoked?
    ensures forall x :: x in AfterRevocation(n) ==> !x.Unrevoked?
    ensures forall i :: 0 <= i < n ==> InTime(i) in BeforeRevocation(n)
  {
    hide Subjects, Links, Times, Signeds, Policies;
    InSubjects(0, n);
    InLinks(0, n);
    InTimes(0, n);
    InSigneds(0, n);
    InPolicies(0, n);
  }

  /** When everything before revocation passes, every hop is in time. */
  lemma TimesPassed(c: Case, i: nat)
    requires i < |c.chain| && First(c, BeforeRevocation(|c.chain|)).None?
    ensures CheckWindow(c.chain[i].notBefore, c.chain[i].expiration, c.v.now, c.v.skew).Ok?
  {
    var checks := BeforeRevocation(|c.chain|);
    hide First, BeforeRevocation, Failure;
    FirstIsFirst(c, checks);
    BeforeAndAfter(|c.chain|);
    assert InTime(i) in checks;
    var k :| 0 <= k < |checks| && checks[k] == InTime(i);
    assert Failure(c, checks[k]).None?;
    InTimeOk(c, i);
  }

  lemma InTimeOk(c: Case, i: nat)
    requires i < |c.chain|
    ensures Failure(c, InTime(i)).None? ==>
              CheckWindow(c.chain[i].notBefore, c.chain[i].expiration, c.v.now, c.v.skew).Ok?
  {
  }

  lemma AnswersDecide(c: Case, i: nat, revoked: map<Cid, Recorded>)
    requires i < |c.chain| && c.v.revocations == Some(Asking(revoked))
    ensures Failure(c, Unrevoked(i))
         == if IsRevoked(revoked, c.chain[i].cid, Issuers(c.chain)) then Some(Revoked(Proof(i), c.chain[i].cid))
            else None
  {
    hide IsRevoked, Issuers;
  }

  /** If two stores answer alike about a chain whenever it is in time, the whole plan answers alike. */
  lemma PlanAlike(c: Case, d: Case, a: map<Cid, Recorded>, b: map<Cid, Recorded>)
    requires SameBut(c, d) && c.v.revocations == Some(Asking(a)) && d.v.revocations == Some(Asking(b))
    requires Timely(c.chain, c.v) ==> Alike(a, b, c.chain)
    ensures First(c, Plan(|c.chain|)) == First(d, Plan(|c.chain|))
  {
    hide First, Unrevokeds, BeforeRevocation, AfterRevocation, Failure, IsRevoked, Issuers, Asking;
    var n := |c.chain|;
    var before, middle, after := BeforeRevocation(n), Unrevokeds(0, n), AfterRevocation(n);
    BeforeAndAfter(n);
    FirstIgnoresStore(c, d, before);
    FirstIgnoresStore(c, d, after);
    FirstAppend(c, before + middle, after);
    FirstAppend(d, before + middle, after);
    FirstAppend(c, before, middle);
    FirstAppend(d, before, middle);
    if First(c, before).None? {
      forall i | 0 <= i < n ensures WithinWindow(c.chain[i].notBefore, c.chain[i].expiration, c.v) {
        TimesPassed(c, i);
        WindowIsUnsaturated(c.chain[i].notBefore, c.chain[i].expiration, c.v.now, c.v.skew);
      }
      forall i | 0 <= i < n ensures Failure(c, Unrevoked(i)) == Failure(d, Unrevoked(i)) {
        AnswersDecide(c, i, a);
        AnswersDecide(d, i, b);
      }
      FirstUnrevoked(c, d, 0);
    }
  }

  /** Two stores that answer alike about the invocation's chain, when in time, give one verdict. */
  lemma JudgeAlike(v: Config, inv: Invocation, a: map<Cid, Recorded>, b: map<Cid, Recorded>)
    requires Missing(v.lookup, inv.proofs).None? ==>
               var chain := Chain(v.lookup, inv.proofs); Timely(chain, v) ==> Alike(a, b, chain)
    ensures Judge(Over(v, a), inv) == Judge(Over(v, b), inv)
  {
    hide First, Plan, Missing, Chain, Alike;
    if Missing(v.lookup, inv.proofs).None? {
      var chain := Chain(v.lookup, inv.proofs);
      PlanAlike(CaseOf(Over(v, a), chain, inv), CaseOf(Over(v, b), chain, inv), a, b);
    }
  }

  /**
   * Pruning revocations never changes a verdict: at any later time, with no more skew, validation
   * answers exactly as it would have over the unpruned store, error included.
   */
  lemma PruningKeepsVerdict(
      v: Config, inv: Invocation, revoked: map<Cid, Recorded>, earlier: Timestamp, more: Seconds,
      seen: map<Cid, Expiry>)
    requires earlier <= v.now && v.skew <= more
    requires Missing(v.lookup, inv.proofs).None? ==> ExpiriesKnown(revoked, Chain(v.lookup, inv.proofs))
    ensures Validate(Over(v, PruneRevoked(revoked, earlier, more)), inv, seen) == Validate(Over(v, revoked), inv, seen)
  {
    hide Judge;
    var pruned := PruneRevoked(revoked, earlier, more);
    if Missing(v.lookup, inv.proofs).None? {
      var chain := Chain(v.lookup, inv.proofs);
      if Timely(chain, v) { PruningAlike(v, chain, revoked, earlier, more); }
    }
    JudgeAlike(v, inv, pruned, revoked);
  }

  lemma PruningAlike(
      v: Config, chain: seq<Delegation>, revoked: map<Cid, Recorded>, earlier: Timestamp, more: Seconds)
    requires earlier <= v.now && v.skew <= more && Timely(chain, v) && ExpiriesKnown(revoked, chain)
    ensures Alike(PruneRevoked(revoked, earlier, more), revoked, chain)
  {
    hide IsRevoked, PruneRevoked, Issuers;
    forall i | 0 <= i < |chain|
      ensures IsRevoked(PruneRevoked(revoked, earlier, more), chain[i].cid, Issuers(chain))
           == IsRevoked(revoked, chain[i].cid, Issuers(chain))
    {
      WindowIsUnsaturated(chain[i].notBefore, chain[i].expiration, v.now, v.skew);
      PruningKeepsAnswer(revoked, earlier, more, chain[i], v.now, v.skew, Issuers(chain));
    }
  }

  /** The delegations held, as a proof store answers. */
  function LookupIn(held: map<Cid, Delegation>): Cid -> Option<Delegation> {
    cid => if cid in held then Some(held[cid]) else None
  }

  /** Pruning delegations that have expired takes no acceptance away, and gives none. */
  lemma PruningProofsKeepsAcceptance(
      v: Config, inv: Invocation, held: map<Cid, Delegation>, earlier: Timestamp, more: Seconds,
      chain: seq<Delegation>)
    requires earlier <= v.now && v.skew <= more
    ensures Judge(v.(lookup := LookupIn(PruneHeld(held, earlier, more))), inv) == Ok(chain)
       <==> Judge(v.(lookup := LookupIn(held)), inv) == Ok(chain)
  {
    hide Judge, Rooted, HandedOn, AllPermit, IsPast;
    var before, after := v.(lookup := LookupIn(held)), v.(lookup := LookupIn(PruneHeld(held, earlier, more)));
    JudgeAcceptsExactly(before, inv, chain);
    JudgeAcceptsExactly(after, inv, chain);
    if Timely(chain, v) && |chain| == |inv.proofs| {
      forall i | 0 <= i < |chain|
        ensures before.lookup(inv.proofs[i]) == Some(chain[i]) <==> after.lookup(inv.proofs[i]) == Some(chain[i])
      {
        WindowIsUnsaturated(chain[i].notBefore, chain[i].expiration, v.now, v.skew);
        WindowIsUnsaturated(chain[i].notBefore, chain[i].expiration, earlier, more);
      }
    }
  }

  // The reach of a revocation over a run

  /** What can happen to a revocation store. */
  datatype Step = RecordStep(accepted: AcceptedRevocation) | RevokeStep(cid: Cid)
    | PruneStep(now: Timestamp, skew: Seconds)

  function Apply(revoked: map<Cid, Recorded>, step: Step): map<Cid, Recorded> {
    match step
    case RecordStep(accepted) => Record(revoked, accepted)
    case RevokeStep(cid) => Revoke(revoked, cid)
    case PruneStep(now, skew) => PruneRevoked(revoked, now, skew)
  }

  /** The store after a run that began with nothing recorded. */
  function After(run: seq<Step>): map<Cid, Recorded> {
    if run == [] then map[] else Apply(After(run[..|run| - 1]), run[|run| - 1])
  }

  /** What a plain log of the run, never pruned, says. */
  ghost predicate Logged(run: seq<Step>, cid: Cid, issuers: seq<Did>) {
    exists k :: 0 <= k < |run| && Says(run[k], cid, issuers)
  }

  predicate Says(step: Step, cid: Cid, issuers: seq<Did>) {
    match step
    case RecordStep(accepted) => accepted.target == cid && Reaches([accepted.authority], issuers)
    case RevokeStep(revoked) => revoked == cid
    case PruneStep(_, _) => false
  }

  ghost predicate TargetExpires(run: seq<Step>, cid: Cid, expiry: Expiry) {
    forall k :: 0 <= k < |run| && run[k].RecordStep? && run[k].accepted.target == cid
      ==> run[k].accepted.targetExpiry == expiry
  }

  /** Some prune came after the expiry. */
  ghost predicate Lapsed(run: seq<Step>, expiry: Expiry) {
    exists k :: 0 <= k < |run| && run[k].PruneStep? && IsPast(expiry, run[k].now, run[k].skew)
  }

  lemma LoggedStep(run: seq<Step>, cid: Cid, issuers: seq<Did>)
    requires run != []
    ensures Logged(run, cid, issuers) <==>
            Logged(run[..|run| - 1], cid, issuers) || Says(run[|run| - 1], cid, issuers)
  {
    hide Says;
    var front := run[..|run| - 1];
    if Logged(run, cid, issuers) {
      var k :| 0 <= k < |run| && Says(run[k], cid, issuers);
      if k < |front| { assert Says(front[k], cid, issuers); }
    }
    if Logged(front, cid, issuers) {
      var k :| 0 <= k < |front| && Says(front[k], cid, issuers);
      assert Says(run[k], cid, issuers);
    }
  }

  lemma LapsedStep(run: seq<Step>, expiry: Expiry)
    requires run != []
    ensures Lapsed(run, expiry) <==>
            || Lapsed(run[..|run| - 1], expiry)
            || (var last := run[|run| - 1]; last.PruneStep? && IsPast(expiry, last.now, last.skew))
  {
    hide IsPast;
    var front := run[..|run| - 1];
    if Lapsed(front, expiry) {
      var k :| 0 <= k < |front| && front[k].PruneStep? && IsPast(expiry, front[k].now, front[k].skew);
      assert run[k] == front[k];
    }
    if Lapsed(run, expiry) {
      var k :| 0 <= k < |run| && run[k].PruneStep? && IsPast(expiry, run[k].now, run[k].skew);
      assert k < |front| ==> front[k] == run[k];
    }
  }

  lemma ReachesAppend(authorities: seq<Did>, did: Did, issuers: seq<Did>)
    ensures Reaches(authorities + [did], issuers) <==> Reaches(authorities, issuers) || Reaches([did], issuers)
    ensures Holds(authorities, did) && Reaches([did], issuers) ==> Reaches(authorities, issuers)
  {
    var all := authorities + [did];
    if Reaches(all, issuers) {
      var i, j :| 0 <= i < |all| && 0 <= j < |issuers| && SamePrincipal(issuers[j], all[i]);
      if i < |authorities| { assert SamePrincipal(issuers[j], authorities[i]); }
      else { assert SamePrincipal(issuers[j], [did][0]); }
    }
    if Reaches(authorities, issuers) {
      var i, j :| 0 <= i < |authorities| && 0 <= j < |issuers| && SamePrincipal(issuers[j], authorities[i]);
      assert SamePrincipal(issuers[j], all[i]);
    }
    if Reaches([did], issuers) {
      var i, j :| 0 <= i < 1 && 0 <= j < |issuers| && SamePrincipal(issuers[j], [did][i]);
      assert SamePrincipal(issuers[j], all[|authorities|]);
      if Holds(authorities, did) {
        var h :| 0 <= h < |authorities| && SamePrincipal(authorities[h], did);
        assert SamePrincipal(issuers[j], authorities[h]);
      }
    }
  }

  /** Never more than the log, whatever was pruned and whatever the tokens say. */
  lemma {:induction false} NeverMoreThanLogged(run: seq<Step>, cid: Cid, issuers: seq<Did>)
    ensures IsRevoked(After(run), cid, issuers) ==> Logged(run, cid, issuers)
    decreases |run|
  {
    hide Logged, Says, Reaches, Holds;
    if run == [] {
    } else {
      var front, last := run[..|run| - 1], run[|run| - 1];
      NeverMoreThanLogged(front, cid, issuers);
      LoggedStep(run, cid, issuers);
      StepAdds(After(front), last, cid, issuers);
    }
  }

  lemma StepAdds(revoked: map<Cid, Recorded>, step: Step, cid: Cid, issuers: seq<Did>)
    ensures IsRevoked(Apply(revoked, step), cid, issuers) ==>
              IsRevoked(revoked, cid, issuers) || Says(step, cid, issuers)
  {
    hide Reaches, Holds, SamePrincipal;
    NoneReach(issuers);
    if step.RecordStep? {
      ReachesAppend(EntryFor(revoked, step.accepted.target).authorities, step.accepted.authority, issuers);
    }
  }

  lemma NoneReach(issuers: seq<Did>)
    ensures !Reaches([], issuers)
  {
  }

  lemma StepKeeps(revoked: map<Cid, Recorded>, step: Step, cid: Cid, issuers: seq<Did>, expiry: Expiry)
    requires step.PruneStep? ==> !IsPast(expiry, step.now, step.skew)
    requires cid in revoked && revoked[cid].targetExpiry.Some? ==> revoked[cid].targetExpiry.value == expiry
    ensures IsRevoked(revoked, cid, issuers) || Says(step, cid, issuers) ==>
              IsRevoked(Apply(revoked, step), cid, issuers)
  {
    hide Reaches, Holds, SamePrincipal, IsPast;
    NoneReach(issuers);
    if step.RecordStep? {
      ReachesAppend(EntryFor(revoked, step.accepted.target).authorities, step.accepted.authority, issuers);
    }
  }

  /** The expiry on record is one that some record step gave. */
  lemma {:induction false} ExpiryOnRecord(run: seq<Step>, cid: Cid, expiry: Expiry)
    requires TargetExpires(run, cid, expiry)
    ensures cid in After(run) && After(run)[cid].targetExpiry.Some? ==> After(run)[cid].targetExpiry.value == expiry
    decreases |run|
  {
    hide Holds, IsPast;
    if run != [] {
      var front, last := run[..|run| - 1], run[|run| - 1];
      forall k | 0 <= k < |front| && front[k].RecordStep? && front[k].accepted.target == cid
        ensures front[k].accepted.targetExpiry == expiry
      {
        assert run[k] == front[k];
      }
      ExpiryOnRecord(front, cid, expiry);
    }
  }

  /**
   * For a delegation still in time at every prune, the store answers exactly as the plain log of
   * revocations would: pruning and the order of arrival do not show.
   */
  lemma {:induction false} AnswersAsLogged(run: seq<Step>, cid: Cid, issuers: seq<Did>, expiry: Expiry)
    requires TargetExpires(run, cid, expiry) && !Lapsed(run, expiry)
    ensures IsRevoked(After(run), cid, issuers) <==> Logged(run, cid, issuers)
    decreases |run|
  {
    hide Says, Apply, IsRevoked, IsPast, Lapsed, Logged;
    if run == [] {
      NothingLogged(cid, issuers);
    } else {
      var front, last := run[..|run| - 1], run[|run| - 1];
      LapsedStep(run, expiry);
      assert TargetExpires(front, cid, expiry) by {
        assert forall k :: 0 <= k < |front| ==> front[k] == run[k];
      }
      AnswersAsLogged(front, cid, issuers, expiry);
      LoggedStep(run, cid, issuers);
      ExpiryOnRecord(front, cid, expiry);
      StepAdds(After(front), last, cid, issuers);
      StepKeeps(After(front), last, cid, issuers, expiry);
    }
  }

  lemma NothingLogged(cid: Cid, issuers: seq<Did>)
    ensures !Logged([], cid, issuers) && !IsRevoked(map[], cid, issuers)
  {
  }

  // What a revocation does to verdicts

  /** The clock does not go backwards: every prune was made before `v` validates, with no less skew. */
  ghost predicate PrunedBefore(run: seq<Step>, v: Config) {
    forall k :: 0 <= k < |run| && run[k].PruneStep? ==> run[k].now <= v.now && v.skew <= run[k].skew
  }

  /**
   * Once a revocation is recorded whose authority issued anywhere in the chain, or the target is revoked
   * outright, no later validation accepts a chain that holds the target, whatever else the store saw.
   */
  lemma RevocationReaches(v: Config, run: seq<Step>, k: nat, inv: Invocation, i: nat)
    requires k < |run| && PrunedBefore(run, v)
    requires Missing(v.lookup, inv.proofs).None? && i < |inv.proofs|
    requires var chain := Chain(v.lookup, inv.proofs);
             TargetExpires(run, chain[i].cid, chain[i].expiration) && Says(run[k], chain[i].cid, Issuers(chain))
    ensures Judge(Over(v, After(run)), inv).Err?
  {
    hide Missing, Chain, Judge, After, TargetExpires, Logged, Lapsed, IsRevoked, Rooted, Issuers, Says;
    var chain := Chain(v.lookup, inv.proofs);
    var d := chain[i];
    if Judge(Over(v, After(run)), inv).Ok? {
      AcceptedStands(v, After(run), inv, i);
      NotLapsed(v, run, d.expiration);
      AnswersAsLogged(run, d.cid, Issuers(chain), d.expiration);
      SaysLogged(run, k, d.cid, Issuers(chain));
    }
  }

  /** The right to revoke a hop that comes with the chain itself: the subject's, or the hop's issuer's. */
  ghost predicate Entitled(authority: Did, inv: Invocation, d: Delegation) {
    SamePrincipal(authority, inv.subject) || SamePrincipal(authority, d.issuer)
  }

  /** Above all the subject and the target's issuer reach every chain that could be accepted. */
  lemma EntitledReaches(authority: Did, inv: Invocation, chain: seq<Delegation>, i: nat)
    requires Rooted(chain, inv.subject) && i < |chain| && Entitled(authority, inv, chain[i])
    ensures Reaches([authority], Issuers(chain))
  {
    var issuers := Issuers(chain);
    var j := if SamePrincipal(authority, inv.subject) then 0 else i;
    assert SamePrincipal(issuers[j], [authority][0]);
  }

  /** The log of the run says nothing of any hop of this chain. */
  ghost predicate Unsaid(run: seq<Step>, chain: seq<Delegation>) {
    forall i :: 0 <= i < |chain| ==> !Logged(run, chain[i].cid, Issuers(chain))
  }

  ghost predicate ExpiriesFixed(run: seq<Step>, chain: seq<Delegation>) {
    forall i :: 0 <= i < |chain| ==> TargetExpires(run, chain[i].cid, chain[i].expiration)
  }

  /**
   * After any run of records, revocations and prunes, an invocation is accepted exactly when it would be
   * with no revocations at all and the plain log says nothing of its chain.
   */
  lemma AcceptedAsLogged(v: Config, run: seq<Step>, inv: Invocation, chain: seq<Delegation>)
    requires PrunedBefore(run, v) && ExpiriesFixed(run, chain)
    ensures Judge(Over(v, After(run)), inv) == Ok(chain)
       <==> Judge(Over(v, map[]), inv) == Ok(chain) && Unsaid(run, chain)
  {
    hide Judge, After, TargetExpires, Logged, Lapsed, IsRevoked, Rooted, Issuers, HandedOn, AllPermit;
    var w, free := Over(v, After(run)), Over(v, map[]);
    JudgeAcceptsExactly(w, inv, chain);
    JudgeAcceptsExactly(free, inv, chain);
    if Timely(chain, v) {
      forall i | 0 <= i < |chain|
        ensures IsRevoked(After(run), chain[i].cid, Issuers(chain)) <==> Logged(run, chain[i].cid, Issuers(chain))
        ensures !IsRevoked(map[], chain[i].cid, Issuers(chain))
      {
        assert WithinWindow(chain[i].notBefore, chain[i].expiration, v);
        NotLapsed(v, run, chain[i].expiration);
        AnswersAsLogged(run, chain[i].cid, Issuers(chain), chain[i].expiration);
        NothingLogged(chain[i].cid, Issuers(chain));
      }
    }
  }

  lemma AcceptedStands(v: Config, revoked: map<Cid, Recorded>, inv: Invocation, i: nat)
    requires Judge(Over(v, revoked), inv).Ok? && Missing(v.lookup, inv.proofs).None? && i < |inv.proofs|
    ensures var chain := Chain(v.lookup, inv.proofs);
            && Rooted(chain, inv.subject) && !IsRevoked(revoked, chain[i].cid, Issuers(chain))
            && (chain[i].expiration.At? ==> v.now <= chain[i].expiration.at + v.skew)
  {
    hide Missing, Chain, Judge, IsRevoked, HandedOn, AllPermit, Rooted, Issuers;
    var w := Over(v, revoked);
    JudgeAcceptsExactly(w, inv, Judge(w, inv).value);
    ChainHolds(v.lookup, inv.proofs);
    var chain := Chain(v.lookup, inv.proofs);
    assert Judge(w, inv).value == chain;
    assert WithinWindow(chain[i].notBefore, chain[i].expiration, w);
    assert !w.revocations.value(chain[i].cid, Issuers(chain));
  }

  lemma SaysLogged(run: seq<Step>, k: nat, cid: Cid, issuers: seq<Did>)
    requires k < |run| && Says(run[k], cid, issuers)
    ensures Logged(run, cid, issuers)
  {
  }

  lemma NotLapsed(v: Config, run: seq<Step>, expiry: Expiry)
    requires PrunedBefore(run, v) && (expiry.At? ==> v.now <= expiry.at + v.skew)
    ensures !Lapsed(run, expiry)
  {
    forall k | 0 <= k < |run| && run[k].PruneStep? ensures !IsPast(expiry, run[k].now, run[k].skew) {
      WindowIsUnsaturated(None, expiry, run[k].now, run[k].skew);
    }
  }

  /** Recording a revocation leaves every verdict alone on chains its authority did not issue in. */
  lemma RecordingReachesNoFurther(
      v: Config, revoked: map<Cid, Recorded>, accepted: AcceptedRevocation, inv: Invocation, seen: map<Cid, Expiry>)
    requires Missing(v.lookup, inv.proofs).None? ==>
               !Reaches([accepted.authority], Issuers(Chain(v.lookup, inv.proofs)))
    ensures Validate(Over(v, Record(revoked, accepted)), inv, seen) == Validate(Over(v, revoked), inv, seen)
  {
    hide Judge, Missing, Chain, Reaches, Issuers, IsRevoked;
    var after := Record(revoked, accepted);
    if Missing(v.lookup, inv.proofs).None? {
      var chain := Chain(v.lookup, inv.proofs);
      forall i | 0 <= i < |chain|
        ensures IsRevoked(after, chain[i].cid, Issuers(chain)) == IsRevoked(revoked, chain[i].cid, Issuers(chain))
      {
        StepAdds(revoked, RecordStep(accepted), chain[i].cid, Issuers(chain));
        RecordKeeps(revoked, accepted, chain[i].cid, Issuers(chain));
      }
    }
    JudgeAlike(v, inv, after, revoked);
  }

  /** A revocation is kept until its target has expired, and no longer unless the target is revoked outright. */
  lemma KeptUntilExpired(
      revoked: map<Cid, Recorded>, accepted: AcceptedRevocation, now: Timestamp, skew: Seconds)
    ensures accepted.target in PruneRevoked(Record(revoked, accepted), now, skew)
       <==> (accepted.target in revoked && revoked[accepted.target].everywhere)
            || !IsPast(accepted.targetExpiry, now, skew)
    ensures accepted.target in PruneRevoked(Revoke(revoked, accepted.target), now, skew)
  {
  }

  /** Pruning the guard or the proofs drops what expired by then, over all integers, and nothing else. */
  lemma PrunedExactly(
      seen: map<Cid, Expiry>, held: map<Cid, Delegation>, now: Timestamp, skew: Seconds, cid: Cid)
    ensures cid in PruneSeen(seen, now, skew)
       <==> cid in seen && (seen[cid].At? ==> now <= seen[cid].at + skew)
    ensures cid in PruneHeld(held, now, skew)
       <==> cid in held && (held[cid].expiration.At? ==> now <= held[cid].expiration.at + skew)
    ensures cid in PruneSeen(seen, now, skew) ==> PruneSeen(seen, now, skew)[cid] == seen[cid]
    ensures cid in PruneHeld(held, now, skew) ==> PruneHeld(held, now, skew)[cid] == held[cid]
  {
    if cid in seen { WindowIsUnsaturated(None, seen[cid], now, skew); }
    if cid in held { WindowIsUnsaturated(None, held[cid].expiration, now, skew); }
  }

  /** It may arrive any number of times, in any order with another of the same target. */
  lemma RecordTwice(revoked: map<Cid, Recorded>, accepted: AcceptedRevocation, cid: Cid, issuers: seq<Did>)
    ensures Record(Record(revoked, accepted), accepted) == Record(revoked, accepted)
    ensures IsRevoked(Record(revoked, accepted), cid, issuers) <==>
            IsRevoked(revoked, cid, issuers) || Says(RecordStep(accepted), cid, issuers)
    ensures IsRevoked(Revoke(revoked, accepted.target), cid, issuers) <==>
            IsRevoked(revoked, cid, issuers) || cid == accepted.target
  {
    StepAdds(revoked, RecordStep(accepted), cid, issuers);
    StepAdds(revoked, RevokeStep(accepted.target), cid, issuers);
    StepKeeps(revoked, RecordStep(accepted), cid, issuers,
              if cid in revoked && revoked[cid].targetExpiry.Some? then revoked[cid].targetExpiry.value else Never);
    var once := Record(revoked, accepted);
    assert Holds(once[accepted.target].authorities, accepted.authority) by { HoldsLast(revoked, accepted); }
    hide Reaches, Holds;
  }

  lemma HoldsLast(revoked: map<Cid, Recorded>, accepted: AcceptedRevocation)
    ensures Holds(Record(revoked, accepted)[accepted.target].authorities, accepted.authority)
  {
    hide Base;
    var before := EntryFor(revoked, accepted.target).authorities;
    if !Holds(before, accepted.authority) {
      var all := before + [accepted.authority];
      assert SamePrincipal(all[|before|], accepted.authority);
    }
  }

  lemma RecordKeeps(revoked: map<Cid, Recorded>, accepted: AcceptedRevocation, cid: Cid, issuers: seq<Did>)
    ensures IsRevoked(revoked, cid, issuers) ==> IsRevoked(Record(revoked, accepted), cid, issuers)
  {
    hide Reaches, Holds, SamePrincipal;
    ReachesAppend(EntryFor(revoked, accepted.target).authorities, accepted.authority, issuers);
  }

  // At most once

  /** What can happen to a replay guard: a validation that uses it, or forgetting what has expired. */
  datatype GuardStep = Attempt(v: Config, inv: Invocation) | Forget(now: Timestamp, skew: Seconds)

  function SeenAfter(run: seq<GuardStep>): map<Cid, Expiry> {
    if run == [] then map[]
    else
      var before := SeenAfter(run[..|run| - 1]);
      match run[|run| - 1]
      case Attempt(v, inv) => Validate(v, inv, before).1
      case Forget(now, skew) => PruneSeen(before, now, skew)
  }

  /** The `k`-th step of the run is a validation that accepts. */
  predicate AcceptedAt(run: seq<GuardStep>, k: nat)
    requires k < |run|
  {
    run[k].Attempt? && Validate(run[k].v, run[k].inv, SeenAfter(run[..k])).0.Ok?
  }

  /** The clock does not go backwards from a prune to a later validation, and its skew is no larger. */
  ghost predicate Orderly(run: seq<GuardStep>) {
    forall i, j :: 0 <= i < j < |run| && run[i].Forget? && run[j].Attempt?
      ==> run[i].now <= run[j].v.now && run[j].v.skew <= run[i].skew
  }

  /** A CID determines its token, and so its expiry. */
  ghost predicate CidsFixExpiry(run: seq<GuardStep>) {
    forall i, j :: (0 <= i < |run| && 0 <= j < |run| && run[i].Attempt? && run[j].Attempt?
                    && run[i].inv.cid == run[j].inv.cid) ==> run[i].inv.expiration == run[j].inv.expiration
  }

  /** Up to step `m` an accepted invocation is either remembered or has been forgotten as expired. */
  lemma {:induction false} Remembered(run: seq<GuardStep>, i: nat, m: nat)
    requires i < m <= |run| && CidsFixExpiry(run) && AcceptedAt(run, i)
    ensures var (cid, expiry, seen) := (run[i].inv.cid, run[i].inv.expiration, SeenAfter(run[..m]));
            || (cid in seen && seen[cid] == expiry)
            || exists k :: i < k < m && run[k].Forget? && IsPast(expiry, run[k].now, run[k].skew)
    decreases m
  {
    hide Judge, IsPast;
    assert run[..m][..m - 1] == run[..m - 1];
    if m > i + 1 {
      Remembered(run, i, m - 1);
    }
  }

  /** Over any run of validations with one guard and of pruning, each invocation is accepted at most once. */
  lemma AtMostOnce(run: seq<GuardStep>, i: nat, j: nat)
    requires Orderly(run) && CidsFixExpiry(run)
    requires i < j < |run| && AcceptedAt(run, i) && run[j].Attempt? && run[j].inv.cid == run[i].inv.cid
    ensures !AcceptedAt(run, j)
  {
    hide Judge, IsPast, SeenAfter;
    Remembered(run, i, j);
    var (v, inv) := (run[j].v, run[j].inv);
    assert inv.expiration == run[i].inv.expiration;
    if inv.cid !in SeenAfter(run[..j]) {
      var k :| i < k < j && run[k].Forget? && IsPast(inv.expiration, run[k].now, run[k].skew);
      PastStays(inv.expiration, run[k].now, run[k].skew, v.now, v.skew);
      LateIsRefused(v, inv);
    }
  }

  lemma LateIsRefused(v: Config, inv: Invocation)
    requires IsPast(inv.expiration, v.now, v.skew)
    ensures Judge(v, inv).Err?
  {
    hide Judge, Rooted, HandedOn, Timely, AllSigned, AllStand, AllPermit;
    if Judge(v, inv).Ok? {
      JudgeAcceptsExactly(v, inv, Judge(v, inv).value);
      WindowIsUnsaturated(None, inv.expiration, v.now, v.skew);
    }
  }

  /** A rejected invocation leaves the guard's contents unchanged. */
  lemma RejectedIsNotRecorded(v: Config, inv: Invocation, seen: map<Cid, Expiry>)
    requires inv.cid in seen ==> seen[inv.cid] == inv.expiration
    ensures Validate(v, inv, seen).0.Err? ==> Validate(v, inv, seen).1 == seen
    ensures Validate(v, inv, seen).0.Ok? ==>
              inv.cid !in seen && Validate(v, inv, seen).1 == seen[inv.cid := inv.expiration]
  {
    hide Judge;
  }
}
