/** Who may revoke what, and that pruning does not show. */
module RevocationProofs {
  import opened Wrappers
  import opened IpldModel
  import opened Dids
  import opened Time
  import opened Validation
  import opened ValidationProofs
  import opened StoreProofs
  import opened RevocationCheck
  import KeyOrder

  // The arguments

  function LinksOf(cids: seq<Cid>): seq<Ipld> {
    seq(|cids|, i requires 0 <= i < |cids| => Link(cids[i]))
  }

  /** The arguments that say `r`. */
  function ArgumentsOf(r: Revocation): map<string, Ipld> {
    if r.path.None? then map["revoke" := Link(r.target)]
    else map["revoke" := Link(r.target), "path" := List(LinksOf(r.path.value))]
  }

  lemma {:induction false} LinksInExactly(values: seq<Ipld>, cids: seq<Cid>)
    ensures LinksIn(values) == Ok(cids) <==> values == LinksOf(cids)
    decreases |values|
  {
    if values != [] && values[0].Link? && cids != [] {
      LinksInExactly(values[1..], cids[1..]);
      assert values == [values[0]] + values[1..] && cids == [cids[0]] + cids[1..];
      assert LinksOf(cids) == [Link(cids[0])] + LinksOf(cids[1..]);
      assert LinksOf(cids)[1..] == LinksOf(cids[1..]);
    } else if values == [] {
      assert cids == [] ==> LinksOf(cids) == [];
    } else if cids == [] {
      assert LinksOf(cids) == [];
    }
  }

  /** One argument that is read says just what it leaves in `target` and `path`. */
  lemma ReadArgumentExactly(name: string, value: Ipld, target: Option<Cid>, path: Option<seq<Cid>>)
    ensures var r := ReadArgument(name, value, target, path);
            && (r.Ok? <==> || (name == "revoke" && value.Link?)
                           || (name == "path" && value.List? && exists p :: value.items == LinksOf(p)))
            && (r.Ok? && name == "revoke" ==> value.Link? && r.value == (Some(value.cid), path))
            && (r.Ok? && name != "revoke" ==>
                  name == "path" && value.List? && r.value.0 == target && r.value.1.Some?
                  && value.items == LinksOf(r.value.1.value))
    ensures "revoke" != "path"
  {
    hide LinksIn, LinksOf;
    assert "revoke"[0] != "path"[0];
    if name == "path" && value.List? {
      forall p ensures LinksIn(value.items) == Ok(p) <==> value.items == LinksOf(p) {
        LinksInExactly(value.items, p);
      }
      if LinksIn(value.items).Ok? { assert value.items == LinksOf(LinksIn(value.items).value); }
    }
  }

  lemma LinksOfInjective(a: seq<Cid>, b: seq<Cid>)
    requires LinksOf(a) == LinksOf(b)
    ensures a == b
  {
    forall i | 0 <= i < |a| ensures i < |b| && a[i] == b[i] {
      assert |LinksOf(a)| == |a| && |LinksOf(b)| == |b| && LinksOf(a)[i] == LinksOf(b)[i];
    }
    assert |LinksOf(a)| == |a| && |LinksOf(b)| == |b|;
  }

  /** Reading names that ascend leaves in `target` and `path` exactly what the arguments hold. */
  lemma {:induction false} ReadArgumentsExactly(
      args: map<string, Ipld>, names: seq<string>, target: Option<Cid>, path: Option<seq<Cid>>,
      t: Option<Cid>, p: Option<seq<Cid>>)
    requires (forall n :: n in names ==> n in args) && KeyOrder.Ascending(names, KeyOrder.Bytewise)
    ensures ReadArguments(args, names, target, path) == Ok((t, p)) <==>
            && (forall n :: n in names ==> n == "revoke" || n == "path")
            && (if "revoke" in names then t.Some? && args["revoke"] == Link(t.value) else t == target)
            && (if "path" in names then p.Some? && args["path"] == List(LinksOf(p.value)) else p == path)
    decreases |names|
  {
    hide KeyOrder.Ascending, KeyOrder.Bytewise, LinksOf, ReadArgument;
    if names != [] {
      var name, rest := names[0], names[1..];
      NamesTail(names);
      ReadArgumentExactly(name, args[name], target, path);
      var read := ReadArgument(name, args[name], target, path);
      if read.Ok? {
        var (t1, p1) := read.value;
        ReadArgumentsExactly(args, rest, t1, p1, t, p);
        if name == "path" && p.Some? && LinksOf(p.value) == args[name].items {
          LinksOfInjective(p.value, p1.value);
        }
      }
    }
  }

  lemma NamesTail(names: seq<string>)
    requires names != [] && KeyOrder.Ascending(names, KeyOrder.Bytewise)
    ensures KeyOrder.Ascending(names[1..], KeyOrder.Bytewise) && names[0] !in names[1..]
    ensures forall n :: n in names <==> n == names[0] || n in names[1..]
  {
    hide KeyOrder.Bytewise;
    KeyOrder.BytewiseIsStrictTotal();
    forall i | 0 <= i < |names| - 1 ensures names[1..][i] != names[0] {
      assert KeyOrder.Bytewise(names[0], names[i + 1]);
    }
  }

  /** A token is read as a revocation exactly when it is for that command and says just that. */
  lemma ReadExactly(inv: Invocation, r: Revocation)
    ensures Read(inv) == Ok(r) <==> inv.command.text == REVOKE_COMMAND && inv.args == ArgumentsOf(r)
  {
    hide ReadArguments, KeyOrder.Ascending, LinksOf, Names, ArgumentsOf, Read;
    var names := Names(inv.args);
    ReadByArguments(inv, r);
    ReadArgumentsExactly(inv.args, names, None, None, Some(r.target), r.path);
    ArgumentsByName(inv.args, r);
  }

  lemma ReadByArguments(inv: Invocation, r: Revocation)
    ensures Read(inv) == Ok(r) <==>
            && inv.command.text == REVOKE_COMMAND
            && ReadArguments(inv.args, Names(inv.args), None, None) == Ok((Some(r.target), r.path))
  {
    hide ReadArguments, Names;
    if inv.command.text == REVOKE_COMMAND {
      match ReadArguments(inv.args, Names(inv.args), None, None)
      case Err(_) =>
      case Ok((target, path)) =>
        if target.Some? { assert Read(inv) == Ok(Revocation(target.value, path)); }
    }
  }

  lemma ArgumentsByName(args: map<string, Ipld>, r: Revocation)
    ensures args == ArgumentsOf(r) <==>
            && (forall n :: n in args ==> n == "revoke" || n == "path")
            && "revoke" in args && args["revoke"] == Link(r.target)
            && (if "path" in args then r.path.Some? && args["path"] == List(LinksOf(r.path.value)) else r.path.None?)
  {
    hide LinksOf;
    assert "revoke" != "path" by { assert "revoke"[0] != "path"[0]; }
    var said := ArgumentsOf(r);
    if (forall n :: n in args ==> n == "revoke" || n == "path")
       && "revoke" in args && args["revoke"] == Link(r.target)
       && (if "path" in args then r.path.Some? && args["path"] == List(LinksOf(r.path.value)) else r.path.None?) {
      assert forall n :: n in args <==> n in said;
      assert forall n :: n in args ==> args[n] == said[n];
    }
  }

  // Who issued where

  ghost predicate DistinctIssuers(chain: seq<Delegation>) {
    forall i, j :: 0 <= i < j < |chain| ==> !SamePrincipal(chain[i].issuer, chain[j].issuer)
  }

  lemma {:induction false} RepeatExactly(chain: seq<Delegation>, i: nat)
    requires i <= |chain|
    ensures Repeat(chain, i).None? <==>
            forall j, k :: 0 <= j < k < |chain| && i <= k ==> !SamePrincipal(chain[j].issuer, chain[k].issuer)
    decreases |chain| - i
  {
    hide SamePrincipal;
    if i < |chain| {
      var found := IssuedAt(chain[..i], chain[i].issuer, 0);
      if found.None? {
        RepeatExactly(chain, i + 1);
        forall j | 0 <= j < i ensures !SamePrincipal(chain[j].issuer, chain[i].issuer) {
          assert chain[..i][j] == chain[j];
        }
      } else {
        assert SamePrincipal(chain[found.value].issuer, chain[i].issuer);
      }
    }
  }

  // What an accepted revocation is

  /** The hops above `hop` are in time and stand. */
  ghost predicate StandsAbove(v: Config, chain: seq<Delegation>, hop: nat)
    requires hop <= |chain|
  {
    forall i :: 0 <= i < hop ==>
      && WithinWindow(chain[i].notBefore, chain[i].expiration, v)
      && (v.revocations.Some? ==> !v.revocations.value(chain[i].cid, Issuers(chain)))
  }

  /**
   * The chain is the subject's, signed and well linked, no principal issuing twice; the token names its
   * last delegation; the authority issued at `hop` and everything above stands; and it is the revoker's
   * own, or was handed to the revoker over a chain that validates and is rooted in it.
   */
  ghost predicate Warranted(
      v: Config, subject: Did, inv: Invocation, chain: seq<Delegation>, accepted: AcceptedRevocation, hop: nat)
  {
    && hop < |chain|
    && (v.maxProofs.Some? ==> |chain| <= v.maxProofs.value)
    && inv.command.text == REVOKE_COMMAND
    && (|| inv.args == ArgumentsOf(Revocation(accepted.target, None))
        || inv.args == ArgumentsOf(Revocation(accepted.target, Some(Cids(chain)))))
    && Rooted(chain, subject) && HandedOn(chain, None) && DistinctIssuers(chain) && AllSigned(chain, v)
    && accepted.target == chain[|chain| - 1].cid && accepted.targetExpiry == chain[|chain| - 1].expiration
    && accepted.revoker == inv.issuer
    && v.signatures.ofInvocation(inv).None? && WithinWindow(None, inv.expiration, v)
    && (exists i :: 0 <= i < |chain| && SamePrincipal(chain[i].issuer, inv.subject))
    && SamePrincipal(chain[hop].issuer, accepted.authority) && StandsAbove(v, chain, hop)
    && (if accepted.delegated
        then accepted.authority == inv.subject && HandedToRevoker(v, inv, chain)
        else accepted.authority == inv.issuer)
  }

  ghost predicate HandedToRevoker(v: Config, inv: Invocation, chain: seq<Delegation>) {
    && (forall i :: 0 <= i < |chain| ==> !SamePrincipal(chain[i].issuer, inv.issuer))
    && exists grant :: Accepted(GrantConfig(v), inv, grant)
  }

  lemma StructureExactly(c: Case)
    ensures First(c, Structure(|c.chain|)).None? <==> Rooted(c.chain, c.subject) && HandedOn(c.chain, c.last)
  {
    hide Structure, Failure, First, Rooted, HandedOn;
    var checks := Structure(|c.chain|);
    FirstIsFirst(c, checks);
    PlanHolds(|c.chain|);
    RootedExactly(c);
    HandedOnExactly(c);
    if First(c, checks).None? {
      forall x | x in checks ensures Failure(c, x).None? {
        var k :| 0 <= k < |checks| && checks[k] == x;
      }
      assert NonEmpty in checks && RootIssued in checks && RootNamed in checks;
      forall i | 0 <= i < |c.chain|
        ensures Failure(c, SubjectAligned(i)).None? && Failure(c, Linked(i)).None? && Failure(c, Covered(i)).None?
      {
        assert SubjectAligned(i) in checks && Linked(i) in checks && Covered(i) in checks;
      }
    }
    if Rooted(c.chain, c.subject) && HandedOn(c.chain, c.last) {
      forall k | 0 <= k < |checks| ensures Failure(c, checks[k]).None? {
        assert checks[k] in checks;
      }
    }
  }

  lemma SignaturesAndTimeExactly(c: Case)
    ensures First(c, SignaturesAndTime(|c.chain|)).None? <==>
            && AllSigned(c.chain, c.v) && c.v.signatures.ofInvocation(c.invocation).None?
            && WithinWindow(None, c.invocation.expiration, c.v)
  {
    hide Failure, First, AllSigned, WithinWindow, Signeds;
    var checks := SignaturesAndTime(|c.chain|);
    FirstIsFirst(c, checks);
    InSigneds(0, |c.chain|);
    AllSignedExactly(c);
    AddressedExactly(c);
    TimelyExactly(c);
    if First(c, checks).None? {
      assert checks[0] == InvocationSigned && checks[1] == InvocationInTime;
      forall i | 0 <= i < |c.chain| ensures Failure(c, Signed(i)).None? {
        assert Signed(i) in Signeds(0, |c.chain|);
        var k :| 0 <= k < |Signeds(0, |c.chain|)| && Signeds(0, |c.chain|)[k] == Signed(i);
        assert checks[k + 2] == Signed(i);
      }
    } else {
      forall k | 2 <= k < |checks| ensures checks[k].Signed? && checks[k].i < |c.chain| {
        assert checks[k] == Signeds(0, |c.chain|)[k - 2];
        assert checks[k] in Signeds(0, |c.chain|);
      }
    }
  }

  lemma StandingExactly(c: Case, hop: nat)
    requires hop <= |c.chain|
    ensures First(c, Standing(hop)).None? <==> StandsAbove(c.v, c.chain, hop)
  {
    hide Failure, First, Times, Unrevokeds, StandsAbove;
    var checks := Standing(hop);
    FirstIsFirst(c, checks);
    InTimes(0, hop);
    InUnrevokeds(0, hop);
    StandsExactly(c, hop);
    forall x ensures x in checks <==> (x.InTime? || x.Unrevoked?) && x.i < hop {
      assert x in checks <==> x in Times(0, hop) || x in Unrevokeds(0, hop);
    }
    if First(c, checks).None? {
      forall x | x in checks ensures Failure(c, x).None? {
        var k :| 0 <= k < |checks| && checks[k] == x;
      }
      forall i | 0 <= i < hop ensures Failure(c, InTime(i)).None? && Failure(c, Unrevoked(i)).None? {
        assert InTime(i) in checks && Unrevoked(i) in checks;
      }
    } else if StandsAbove(c.v, c.chain, hop) {
      forall k | 0 <= k < |checks| ensures Failure(c, checks[k]).None? {
        assert checks[k] in checks;
      }
    }
  }

  lemma StandsExactly(c: Case, hop: nat)
    requires hop <= |c.chain|
    ensures StandsAbove(c.v, c.chain, hop)
       <==> forall i :: 0 <= i < hop ==> Failure(c, InTime(i)).None? && Failure(c, Unrevoked(i)).None?
  {
    hide Issuers;
    forall i | 0 <= i < hop
      ensures (Failure(c, InTime(i)).None? <==> WithinWindow(c.chain[i].notBefore, c.chain[i].expiration, c.v))
      ensures (Failure(c, Unrevoked(i)).None? <==>
               (c.v.revocations.Some? ==> !c.v.revocations.value(c.chain[i].cid, Issuers(c.chain))))
    {
      WindowIsUnsaturated(c.chain[i].notBefore, c.chain[i].expiration, c.v.now, c.v.skew);
    }
  }

  lemma GrantExactly(v: Config, inv: Invocation)
    ensures CheckGrant(v, inv).Ok? <==> exists grant :: Accepted(GrantConfig(v), inv, grant)
    ensures (exists grant :: Accepted(GrantConfig(v), inv, grant)) ==> inv.proofs != []
  {
    hide Judge;
    var r := Judge(GrantConfig(v), inv);
    if r.Ok? { JudgeAcceptsExactly(GrantConfig(v), inv, r.value); }
    forall grant | Accepted(GrantConfig(v), inv, grant) ensures r == Ok(grant) && inv.proofs != [] {
      JudgeAcceptsExactly(GrantConfig(v), inv, grant);
    }
  }

  /** The token, read, names this chain and its last delegation. */
  predicate NamedBy(inv: Invocation, chain: seq<Delegation>, target: Cid) {
    Read(inv).Ok? && NamesChain(Read(inv).value, chain) == Ok(target)
  }

  lemma NamesExactly(inv: Invocation, chain: seq<Delegation>, target: Cid)
    ensures NamedBy(inv, chain, target) <==>
            && chain != [] && target == chain[|chain| - 1].cid && inv.command.text == REVOKE_COMMAND
            && (|| inv.args == ArgumentsOf(Revocation(target, None))
                || inv.args == ArgumentsOf(Revocation(target, Some(Cids(chain)))))
  {
    hide NamedBy, ArgumentsOf, Cids;
    NamesSays(inv, chain, target);
  }

  /** The token is a revocation that says `r`. */
  predicate Says(inv: Invocation, r: Revocation) {
    inv.command.text == REVOKE_COMMAND && inv.args == ArgumentsOf(r)
  }

  lemma ReadSays(inv: Invocation, r: Revocation)
    ensures Read(inv) == Ok(r) <==> Says(inv, r)
  {
    hide Read, ArgumentsOf;
    ReadExactly(inv, r);
  }

  lemma NamesSays(inv: Invocation, chain: seq<Delegation>, target: Cid)
    ensures NamedBy(inv, chain, target) <==>
            && chain != [] && target == chain[|chain| - 1].cid
            && (Says(inv, Revocation(target, None)) || Says(inv, Revocation(target, Some(Cids(chain)))))
  {
    hide Read, Says, NamesChain, Cids;
    if Read(inv).Ok? {
      var r := Read(inv).value;
      ReadSays(inv, r);
      NamesChainExactly(r, chain, target);
    }
    ReadSays(inv, Revocation(target, None));
    ReadSays(inv, Revocation(target, Some(Cids(chain))));
  }

  lemma NamesChainExactly(r: Revocation, chain: seq<Delegation>, target: Cid)
    ensures NamesChain(r, chain) == Ok(target) <==>
            && chain != [] && target == chain[|chain| - 1].cid
            && (r == Revocation(target, None) || r == Revocation(target, Some(Cids(chain))))
  {
    hide Cids;
    assert r == Revocation(r.target, r.path);
    if r.path.Some? {
      assert r.path == Some(r.path.value);
    } else {
      assert r.path == None;
    }
  }

  /** Everything a revocation is warranted by but the authority and what stands above it. */
  ghost predicate WellBrought(v: Config, subject: Did, inv: Invocation, chain: seq<Delegation>, target: Cid) {
    && (v.maxProofs.Some? ==> |chain| <= v.maxProofs.value)
    && NamedBy(inv, chain, target)
    && Rooted(chain, subject) && HandedOn(chain, None) && DistinctIssuers(chain) && AllSigned(chain, v)
    && v.signatures.ofInvocation(inv).None? && WithinWindow(None, inv.expiration, v)
  }

  /** What `CheckRevocation` does once the token and the chain are in order. */
  function Remaining(v: Config, subject: Did, inv: Invocation, chain: seq<Delegation>, target: Cid)
    : Result<AcceptedRevocation, RevocationError>
    requires chain != []
  {
    match IssuedAt(chain, inv.subject, 0)
    case None => Err(SubjectNotInChain(inv.subject))
    case Some(source) =>
      var (hop, authority, delegated) :- Authority(v, inv, chain, source);
      var _ :- Passing(ChainCase(v, subject, inv, chain), Standing(hop));
      Ok(AcceptedRevocation(target, inv.issuer, authority, chain[|chain| - 1].expiration, delegated))
  }

  lemma CheckInParts(v: Config, subject: Did, inv: Invocation, chain: seq<Delegation>, accepted: AcceptedRevocation)
    ensures CheckRevocation(v, subject, inv, chain) == Ok(accepted) <==>
            && WellBrought(v, subject, inv, chain, accepted.target)
            && chain != [] && Remaining(v, subject, inv, chain, accepted.target) == Ok(accepted)
  {
    hide First, Read, NamesChain, Structure, SignaturesAndTime, Standing, Repeat, Rooted, HandedOn, AllSigned,
      DistinctIssuers, WithinWindow, Authority, IssuedAt;
    var c := ChainCase(v, subject, inv, chain);
    StructureExactly(c);
    SignaturesAndTimeExactly(c);
    RepeatExactly(chain, 0);
    DistinctByOrder(chain);
    ChainNotEmpty(chain, subject);
  }

  lemma ChainNotEmpty(chain: seq<Delegation>, subject: Did)
    ensures Rooted(chain, subject) ==> chain != []
  {
  }

  lemma DistinctByOrder(chain: seq<Delegation>)
    ensures DistinctIssuers(chain) <==>
            forall j, k :: 0 <= j < k < |chain| && 0 <= k ==> !SamePrincipal(chain[j].issuer, chain[k].issuer)
  {
    hide SamePrincipal;
  }

  /** What the last part of the check accepts, given distinct issuers. */
  ghost predicate Righted(
      v: Config, inv: Invocation, chain: seq<Delegation>, accepted: AcceptedRevocation, hop: nat)
  {
    && hop < |chain|
    && accepted.targetExpiry == chain[|chain| - 1].expiration && accepted.revoker == inv.issuer
    && (exists i :: 0 <= i < |chain| && SamePrincipal(chain[i].issuer, inv.subject))
    && SamePrincipal(chain[hop].issuer, accepted.authority) && StandsAbove(v, chain, hop)
    && (if accepted.delegated
        then accepted.authority == inv.subject && HandedToRevoker(v, inv, chain)
        else accepted.authority == inv.issuer)
  }

  /** `check_revocation` accepts exactly the revocations that are warranted. */
  lemma CheckRevocationExactly(
      v: Config, subject: Did, inv: Invocation, chain: seq<Delegation>, accepted: AcceptedRevocation)
    ensures CheckRevocation(v, subject, inv, chain) == Ok(accepted)
       <==> exists hop :: Warranted(v, subject, inv, chain, accepted, hop)
  {
    hide CheckRevocation, Remaining, DistinctIssuers, WellBrought, Righted, Warranted;
    CheckInParts(v, subject, inv, chain, accepted);
    forall hop: nat
      ensures Warranted(v, subject, inv, chain, accepted, hop) <==>
              && WellBrought(v, subject, inv, chain, accepted.target) && chain != []
              && Righted(v, inv, chain, accepted, hop)
    {
      WarrantedInParts(v, subject, inv, chain, accepted, hop);
    }
    if chain != [] {
      BroughtDistinct(v, subject, inv, chain, accepted.target);
      RemainingExactly(v, subject, inv, chain, accepted);
    }
  }

  lemma BroughtDistinct(v: Config, subject: Did, inv: Invocation, chain: seq<Delegation>, target: Cid)
    ensures WellBrought(v, subject, inv, chain, target) ==> DistinctIssuers(chain)
  {
  }

  lemma WarrantedInParts(
      v: Config, subject: Did, inv: Invocation, chain: seq<Delegation>, accepted: AcceptedRevocation, hop: nat)
    ensures Warranted(v, subject, inv, chain, accepted, hop) <==>
            WellBrought(v, subject, inv, chain, accepted.target) && chain != [] && Righted(v, inv, chain, accepted, hop)
  {
    hide Rooted, HandedOn, AllSigned, DistinctIssuers, WithinWindow, NamedBy, ArgumentsOf, Cids, StandsAbove,
      HandedToRevoker;
    NamesExactly(inv, chain, accepted.target);
  }

  lemma RemainingExactly(
      v: Config, subject: Did, inv: Invocation, chain: seq<Delegation>, accepted: AcceptedRevocation)
    requires chain != []
    ensures DistinctIssuers(chain) ==>
              (Remaining(v, subject, inv, chain, accepted.target) == Ok(accepted)
               <==> exists hop :: Righted(v, inv, chain, accepted, hop))
  {
    hide Remaining, Righted, DistinctIssuers;
    if DistinctIssuers(chain) {
      if Remaining(v, subject, inv, chain, accepted.target) == Ok(accepted) {
        var hop := RemainingIsRighted(v, subject, inv, chain, accepted);
      }
      forall hop | Righted(v, inv, chain, accepted, hop)
        ensures Remaining(v, subject, inv, chain, accepted.target) == Ok(accepted)
      {
        RightedRemains(v, subject, inv, chain, accepted, hop);
      }
    }
  }

  lemma RemainingIsRighted(
      v: Config, subject: Did, inv: Invocation, chain: seq<Delegation>, accepted: AcceptedRevocation)
    returns (hop: nat)
    requires chain != [] && Remaining(v, subject, inv, chain, accepted.target) == Ok(accepted)
    ensures Righted(v, inv, chain, accepted, hop)
  {
    hide StandsAbove, First, Standing, CheckGrant, Accepted, SamePrincipal;
    GrantExactly(v, inv);
    hop := Authority(v, inv, chain, IssuedAt(chain, inv.subject, 0).value).value.0;
    StandingExactly(ChainCase(v, subject, inv, chain), hop);
  }

  lemma RightedRemains(
      v: Config, subject: Did, inv: Invocation, chain: seq<Delegation>, accepted: AcceptedRevocation, hop: nat)
    requires chain != [] && DistinctIssuers(chain) && Righted(v, inv, chain, accepted, hop)
    ensures Remaining(v, subject, inv, chain, accepted.target) == Ok(accepted)
  {
    hide StandsAbove, First, Standing, SamePrincipal, DistinctIssuers, HandedToRevoker, Authority, IssuedAt;
    RightedAuthority(v, inv, chain, accepted, hop);
    StandingExactly(ChainCase(v, subject, inv, chain), hop);
  }

  lemma RightedAuthority(
      v: Config, inv: Invocation, chain: seq<Delegation>, accepted: AcceptedRevocation, hop: nat)
    requires chain != [] && DistinctIssuers(chain) && Righted(v, inv, chain, accepted, hop)
    ensures IssuedAt(chain, inv.subject, 0).Some?
    ensures Authority(v, inv, chain, IssuedAt(chain, inv.subject, 0).value)
         == Ok((hop, accepted.authority, accepted.delegated))
  {
    OnlyHop(chain, accepted.authority, hop);
    hide StandsAbove, CheckGrant, Accepted, SamePrincipal, DistinctIssuers;
    GrantExactly(v, inv);
  }

  /** Where issuers are distinct, a principal issued at one hop only. */
  lemma OnlyHop(chain: seq<Delegation>, did: Did, hop: nat)
    requires DistinctIssuers(chain) && hop < |chain| && SamePrincipal(chain[hop].issuer, did)
    ensures IssuedAt(chain, did, 0) == Some(hop)
  {
    forall i, j | 0 <= i < j < |chain|
      ensures !SamePrincipal(chain[i].issuer, did) || !SamePrincipal(chain[j].issuer, did)
    {
      assert !SamePrincipal(chain[i].issuer, chain[j].issuer);
    }
  }

  // Pruning

  lemma {:induction false} StandingAlike(c: Case, d: Case, hop: nat)
    requires SameBut(c, d) && hop <= |c.chain|
    requires forall i :: 0 <= i < hop && Failure(c, InTime(i)).None?
               ==> Failure(c, Unrevoked(i)) == Failure(d, Unrevoked(i))
    ensures First(c, Standing(hop)) == First(d, Standing(hop))
  {
    hide First, Failure, Times, Unrevokeds;
    InTimes(0, hop);
    FirstIgnoresStore(c, d, Times(0, hop));
    FirstAppend(c, Times(0, hop), Unrevokeds(0, hop));
    FirstAppend(d, Times(0, hop), Unrevokeds(0, hop));
    if First(c, Times(0, hop)).None? {
      var times := Times(0, hop);
      FirstIsFirst(c, times);
      forall i | 0 <= i < hop ensures Failure(c, Unrevoked(i)) == Failure(d, Unrevoked(i)) {
        assert InTime(i) in times;
        var k :| 0 <= k < |times| && times[k] == InTime(i);
        assert Failure(c, times[k]).None?;
      }
      FirstUnrevokedAbove(c, d, 0, hop);
    }
  }

  lemma {:induction false} FirstUnrevokedAbove(c: Case, d: Case, i: nat, hop: nat)
    requires SameBut(c, d) && i <= hop <= |c.chain|
    requires forall k :: i <= k < hop ==> Failure(c, Unrevoked(k)) == Failure(d, Unrevoked(k))
    ensures First(c, Unrevokeds(i, hop)) == First(d, Unrevokeds(i, hop))
    decreases hop - i
  {
    hide Failure;
    if i < hop { FirstUnrevokedAbove(c, d, i + 1, hop); }
  }

  /** Pruning revocations never changes what `check_revocation` answers, at any later time with no more skew. */
  lemma PruningKeepsRevocations(
      v: Config, subject: Did, inv: Invocation, chain: seq<Delegation>, revoked: map<Cid, Recorded>,
      earlier: Timestamp, more: Seconds)
    requires earlier <= v.now && v.skew <= more && ExpiriesKnown(revoked, chain)
    requires Missing(v.lookup, inv.proofs).None? ==> ExpiriesKnown(revoked, Chain(v.lookup, inv.proofs))
    ensures CheckRevocation(Over(v, PruneRevoked(revoked, earlier, more)), subject, inv, chain)
         == CheckRevocation(Over(v, revoked), subject, inv, chain)
  {
    hide First, Structure, SignaturesAndTime, Standing, Judge, Read, NamesChain, NoRepeats, IssuedAt, ExpiriesKnown,
      Missing, Chain, PruneRevoked;
    var pruned := PruneRevoked(revoked, earlier, more);
    var a, b := Over(v, pruned), Over(v, revoked);
    var c, d := ChainCase(a, subject, inv, chain), ChainCase(b, subject, inv, chain);
    PlainChecks(|chain|);
    FirstIgnoresStore(c, d, Structure(|chain|));
    FirstIgnoresStore(c, d, SignaturesAndTime(|chain|));
    GrantAlike(v, inv, revoked, earlier, more);
    forall hop | 0 <= hop <= |chain| ensures First(c, Standing(hop)) == First(d, Standing(hop)) {
      PrunedAlike(v, subject, inv, chain, revoked, earlier, more);
      StandingAlike(c, d, hop);
    }
  }

  lemma PlainChecks(n: nat)
    ensures forall x :: x in Structure(n) ==> !x.Unrevoked?
    ensures forall x :: x in SignaturesAndTime(n) ==> !x.Unrevoked?
  {
    hide Structure, Signeds;
    PlanHolds(n);
    InSigneds(0, n);
  }

  lemma GrantAlike(v: Config, inv: Invocation, revoked: map<Cid, Recorded>, earlier: Timestamp, more: Seconds)
    requires earlier <= v.now && v.skew <= more
    requires Missing(v.lookup, inv.proofs).None? ==> ExpiriesKnown(revoked, Chain(v.lookup, inv.proofs))
    ensures Judge(GrantConfig(Over(v, PruneRevoked(revoked, earlier, more))), inv)
         == Judge(GrantConfig(Over(v, revoked)), inv)
  {
    hide Judge, ExpiriesKnown, Missing, Chain, PruneRevoked;
    var g := GrantConfig(v);
    assert GrantConfig(Over(v, PruneRevoked(revoked, earlier, more))) == Over(g, PruneRevoked(revoked, earlier, more));
    assert GrantConfig(Over(v, revoked)) == Over(g, revoked);
    if Missing(g.lookup, inv.proofs).None? && Timely(Chain(g.lookup, inv.proofs), g) {
      PruningAlike(g, Chain(g.lookup, inv.proofs), revoked, earlier, more);
    }
    JudgeAlike(g, inv, PruneRevoked(revoked, earlier, more), revoked);
  }

  lemma PrunedAlike(
      v: Config, subject: Did, inv: Invocation, chain: seq<Delegation>, revoked: map<Cid, Recorded>,
      earlier: Timestamp, more: Seconds)
    requires earlier <= v.now && v.skew <= more && ExpiriesKnown(revoked, chain)
    ensures var c := ChainCase(Over(v, PruneRevoked(revoked, earlier, more)), subject, inv, chain);
            var d := ChainCase(Over(v, revoked), subject, inv, chain);
            forall i :: 0 <= i < |chain| && Failure(c, InTime(i)).None?
              ==> Failure(c, Unrevoked(i)) == Failure(d, Unrevoked(i))
  {
    hide IsRevoked, PruneRevoked, Issuers, Failure;
    var pruned := PruneRevoked(revoked, earlier, more);
    var c := ChainCase(Over(v, pruned), subject, inv, chain);
    var d := ChainCase(Over(v, revoked), subject, inv, chain);
    forall i | 0 <= i < |chain| && Failure(c, InTime(i)).None?
      ensures Failure(c, Unrevoked(i)) == Failure(d, Unrevoked(i))
    {
      InTimeOk(c, i);
      PruningKeepsAnswer(revoked, earlier, more, chain[i], v.now, v.skew, Issuers(chain));
      AnswersDecide(c, i, pruned);
      AnswersDecide(d, i, revoked);
    }
  }

  // From an accepted revocation to refused chains

  /** What a revocation was checked with. */
  datatype Evidence = Evidence(v: Config, subject: Did, inv: Invocation, chain: seq<Delegation>)

  /** Every revocation the store was given had been accepted. */
  ghost predicate Vetted(run: seq<Step>, evidence: seq<Evidence>) {
    && |evidence| == |run|
    && forall k :: 0 <= k < |run| && run[k].RecordStep? ==> Vouches(evidence[k], run[k].accepted)
  }

  ghost predicate Vouches(e: Evidence, accepted: AcceptedRevocation) {
    CheckRevocation(e.v, e.subject, e.inv, e.chain) == Ok(accepted)
  }

  /** A CID fixes its delegation: `token` says which it is. */
  ghost predicate Known(token: Cid -> Option<Delegation>, chain: seq<Delegation>) {
    forall i :: 0 <= i < |chain| ==> token(chain[i].cid) == Some(chain[i])
  }

  /** An accepted revocation names its target, when that expires, and an issuer of its chain. */
  lemma VouchedParts(e: Evidence, accepted: AcceptedRevocation)
    requires Vouches(e, accepted)
    ensures e.chain != []
    ensures accepted.target == e.chain[|e.chain| - 1].cid
    ensures accepted.targetExpiry == e.chain[|e.chain| - 1].expiration
    ensures Reaches([accepted.authority], Issuers(e.chain))
  {
    hide CheckRevocation, Warranted, Reaches;
    CheckRevocationExactly(e.v, e.subject, e.inv, e.chain, accepted);
    var hop: nat :| Warranted(e.v, e.subject, e.inv, e.chain, accepted, hop);
    WarrantedNames(e, accepted, hop);
  }

  lemma WarrantedNames(e: Evidence, accepted: AcceptedRevocation, hop: nat)
    requires Warranted(e.v, e.subject, e.inv, e.chain, accepted, hop)
    ensures e.chain != []
    ensures accepted.target == e.chain[|e.chain| - 1].cid
    ensures accepted.targetExpiry == e.chain[|e.chain| - 1].expiration
    ensures Reaches([accepted.authority], Issuers(e.chain))
  {
    hide Rooted, HandedOn, ArgumentsOf, StandsAbove, HandedToRevoker, DistinctIssuers, AllSigned;
    assert SamePrincipal(Issuers(e.chain)[hop], [accepted.authority][0]);
  }

  lemma VettedExpires(run: seq<Step>, evidence: seq<Evidence>, token: Cid -> Option<Delegation>, d: Delegation)
    requires Vetted(run, evidence) && token(d.cid) == Some(d)
    requires forall k :: 0 <= k < |run| ==> Known(token, evidence[k].chain)
    ensures TargetExpires(run, d.cid, d.expiration)
  {
    hide Vouches, Reaches;
    forall k | 0 <= k < |run| && run[k].RecordStep? && run[k].accepted.target == d.cid
      ensures run[k].accepted.targetExpiry == d.expiration
    {
      var chain := evidence[k].chain;
      VouchedParts(evidence[k], run[k].accepted);
      assert Known(token, chain) && token(chain[|chain| - 1].cid) == Some(chain[|chain| - 1]);
    }
  }

  lemma ReachesLonger(authority: Did, a: seq<Delegation>, b: seq<Delegation>)
    requires a <= b && Reaches([authority], Issuers(a))
    ensures Reaches([authority], Issuers(b))
  {
    var i, j :| 0 <= i < 1 && 0 <= j < |Issuers(a)| && SamePrincipal(Issuers(a)[j], [authority][i]);
    assert SamePrincipal(Issuers(b)[j], [authority][0]);
  }

  /**
   * From end to end: once a revocation has been accepted and recorded, no later validation accepts a
   * chain that holds its target if its authority issued in that chain, as it did in every chain that
   * continues the one the revocation was brought with.
   */
  lemma AcceptedRevocationReaches(
      v: Config, run: seq<Step>, evidence: seq<Evidence>, token: Cid -> Option<Delegation>, k: nat,
      inv: Invocation, i: nat)
    requires Vetted(run, evidence) && PrunedBefore(run, v) && k < |run| && run[k].RecordStep?
    requires forall j :: 0 <= j < |run| ==> Known(token, evidence[j].chain)
    requires Missing(v.lookup, inv.proofs).None? && i < |inv.proofs|
    requires var chain := Chain(v.lookup, inv.proofs);
             && Known(token, chain) && run[k].accepted.target == chain[i].cid
             && (Reaches([run[k].accepted.authority], Issuers(chain)) || evidence[k].chain <= chain)
    ensures Judge(Over(v, After(run)), inv).Err?
  {
    hide Judge, After, Missing, Chain, Vouches, Reaches, Issuers, PrunedBefore, TargetExpires;
    var chain := Chain(v.lookup, inv.proofs);
    VettedExpires(run, evidence, token, chain[i]);
    VouchedParts(evidence[k], run[k].accepted);
    if evidence[k].chain <= chain { ReachesLonger(run[k].accepted.authority, evidence[k].chain, chain); }
    RevocationReaches(v, run, k, inv, i);
  }

  /** And over any vetted run an invocation is accepted exactly when the plain log says nothing of its chain. */
  lemma VettedVerdict(
      v: Config, run: seq<Step>, evidence: seq<Evidence>, token: Cid -> Option<Delegation>, inv: Invocation,
      chain: seq<Delegation>)
    requires Vetted(run, evidence) && PrunedBefore(run, v) && Known(token, chain)
    requires forall j :: 0 <= j < |run| ==> Known(token, evidence[j].chain)
    ensures Judge(Over(v, After(run)), inv) == Ok(chain)
       <==> Judge(Over(v, map[]), inv) == Ok(chain) && Unsaid(run, chain)
  {
    hide Judge, After, Unsaid, Vetted, PrunedBefore, TargetExpires;
    forall i | 0 <= i < |chain| ensures TargetExpires(run, chain[i].cid, chain[i].expiration) {
      VettedExpires(run, evidence, token, chain[i]);
    }
    AcceptedAsLogged(v, run, inv, chain);
  }
}
