/** Reading and judging revocations as the code runs them, against the functions of RevocationCheck. */
module Revoker {
  import opened Wrappers
  import opened IpldModel
  import opened Dids
  import opened Time
  import V = Validation
  import opened R = RevocationCheck
  import P = ValidationProofs
  import Validating

  method ReadLinks(values: seq<Ipld>) returns (r: Result<seq<Cid>, RevocationError>)
    ensures r == LinksIn(values)
  {
    var cids: seq<Cid> := [];
    var i := 0;
    assert values[0..] == values && forall more: seq<Cid> :: cids + more == more;
    while i < |values|
      invariant 0 <= i <= |values|
      invariant match LinksIn(values[i..])
                case Ok(more) => LinksIn(values) == Ok(cids + more)
                case Err(e) => LinksIn(values) == Err(e)
    {
      assert values[i..][1..] == values[i + 1..];
      if !values[i].Link? { return Err(MalformedArgument("path")); }
      ghost var before := cids;
      cids := cids + [values[i].cid];
      assert forall more :: before + ([values[i].cid] + more) == cids + more;
      i := i + 1;
    }
    assert cids + [] == cids;
    return Ok(cids);
  }

  lemma ArgumentsStep(
      args: map<string, Ipld>, names: seq<string>, i: nat, target: Option<Cid>, path: Option<seq<Cid>>)
    requires (forall n :: n in names ==> n in args) && i < |names|
    ensures ReadArguments(args, names[i..], target, path) ==
            match ReadArgument(names[i], args[names[i]], target, path)
            case Ok((t, p)) => ReadArguments(args, names[i + 1..], t, p)
            case Err(e) => Err(e)
  {
    hide ReadArgument;
    assert names[i..][1..] == names[i + 1..];
  }

  method ReadOne(name: string, value: Ipld, target: Option<Cid>, path: Option<seq<Cid>>)
    returns (r: Result<(Option<Cid>, Option<seq<Cid>>), RevocationError>)
    ensures r == ReadArgument(name, value, target, path)
  {
    hide LinksIn;
    if name == "revoke" {
      if !value.Link? { return Err(MalformedArgument("revoke")); }
      return Ok((Some(value.cid), path));
    } else if name == "path" {
      if !value.List? { return Err(MalformedArgument("path")); }
      var links :- ReadLinks(value.items);
      return Ok((target, Some(links)));
    } else {
      return Err(UnknownArgument(name));
    }
  }

  /** The loop over the arguments. */
  method ReadAll(args: map<string, Ipld>) returns (r: Result<(Option<Cid>, Option<seq<Cid>>), RevocationError>)
    ensures r == ReadArguments(args, Names(args), None, None)
  {
    hide ReadArgument;
    var target: Option<Cid>, path: Option<seq<Cid>> := None, None;
    var names := Names(args);
    var i := 0;
    assert names[0..] == names;
    while i < |names|
      invariant 0 <= i <= |names|
      invariant ReadArguments(args, names[i..], target, path) == ReadArguments(args, names, None, None)
    {
      hide ReadArguments;
      ArgumentsStep(args, names, i, target, path);
      var read :- ReadOne(names[i], args[names[i]], target, path);
      target, path := read.0, read.1;
      i := i + 1;
    }
    return Ok((target, path));
  }

  /** Read the arguments; names other than `revoke` and `path` are refused. */
  method ReadRevocation(inv: V.Invocation) returns (r: Result<Revocation, RevocationError>)
    ensures r == Read(inv)
  {
    hide ReadArguments, Names;
    if inv.command.text != REVOKE_COMMAND { return Err(NotARevocation(inv.command)); }
    var read :- ReadAll(inv.args);
    if read.0.None? { return Err(MissingTarget); }
    return Ok(Revocation(read.0.value, read.1));
  }

  method CheckNamesChain(revocation: Revocation, chain: seq<V.Delegation>) returns (r: Result<Cid, RevocationError>)
    ensures r == NamesChain(revocation, chain)
  {
    if chain == [] { return Err(Invalid(V.EmptyChain)); }
    var found := chain[|chain| - 1].cid;
    if revocation.target != found { return Err(WrongTarget(revocation.target)); }
    if revocation.path.Some? && revocation.path.value != Cids(chain) { return Err(PathMismatch); }
    return Ok(found);
  }

  method CheckNoIssuerRepeats(chain: seq<V.Delegation>) returns (r: Result<(), RevocationError>)
    ensures r == NoRepeats(chain)
  {
    var i := 0;
    while i < |chain|
      invariant 0 <= i <= |chain| && Repeat(chain, i) == Repeat(chain, 0)
    {
      var issuer := chain[i].issuer;
      var earlier := FindIssuer(chain[..i], issuer);
      if earlier.Some? { return Err(RepeatedIssuer(V.Proof(i), issuer)); }
      i := i + 1;
    }
    return Ok(());
  }

  method FindIssuer(chain: seq<V.Delegation>, did: Did) returns (r: Option<nat>)
    ensures r == IssuedAt(chain, did, 0)
  {
    var i := 0;
    while i < |chain|
      invariant 0 <= i <= |chain| && IssuedAt(chain, did, i) == IssuedAt(chain, did, 0)
    {
      if SamePrincipal(chain[i].issuer, did) { return Some(i); }
      i := i + 1;
    }
    return None;
  }

  function Refused(r: Result<(), V.ValidationError>): Result<(), RevocationError> {
    match r
    case Ok(_) => Ok(())
    case Err(e) => Err(Invalid(e))
  }

  /** The hops above `hop` must still stand. */
  method CheckStanding(c: V.Case, hop: nat) returns (r: Result<(), RevocationError>)
    requires hop <= |c.chain|
    ensures r == Passing(c, Standing(hop))
  {
    hide V.First;
    P.FirstAppend(c, V.Times(0, hop), V.Unrevokeds(0, hop));
    var times := Validating.CheckTimes(c, hop);
    if times.Err? { return Refused(times); }
    var stands := Validating.CheckRevocations(c, hop);
    return Refused(stands);
  }

  /** A validator like this one, without executor or guard, on the revocation's own proofs. */
  method CheckGranted(settings: V.Config, inv: V.Invocation) returns (r: Result<(), RevocationError>)
    ensures r == CheckGrant(settings, inv)
  {
    hide V.Judge;
    var validator := new Validating.Validator(GrantConfig(settings), null);
    var verdict := validator.Validate(inv);
    match verdict {
      case Ok(_) => return Ok(());
      case Err(e) => return Err(Grant(e));
    }
  }

  lemma SignaturesAndTimeOrder(c: V.Case)
    ensures V.First(c, SignaturesAndTime(|c.chain|)) ==
            if V.Failure(c, V.InvocationSigned).Some? then V.Failure(c, V.InvocationSigned)
            else if V.Failure(c, V.InvocationInTime).Some? then V.Failure(c, V.InvocationInTime)
            else V.First(c, V.Signeds(0, |c.chain|))
  {
    hide V.Failure, V.Signeds;
    var rest := V.Signeds(0, |c.chain|);
    assert [V.InvocationSigned, V.InvocationInTime] + rest == [V.InvocationSigned] + ([V.InvocationInTime] + rest);
    Validating.FirstStep(c, V.InvocationSigned, [V.InvocationInTime] + rest);
    Validating.FirstStep(c, V.InvocationInTime, rest);
  }

  method Check(settings: V.Config, subject: Did, inv: V.Invocation, chain: seq<V.Delegation>)
    returns (r: Result<V.AcceptedRevocation, RevocationError>)
    ensures r == CheckRevocation(settings, subject, inv, chain)
  {
    hide V.First, V.Structure, V.Signeds, SignaturesAndTime, Standing, Read, NamesChain, NoRepeats, IssuedAt,
      CheckGrant;
    var revocation :- ReadRevocation(inv);
    if settings.maxProofs.Some? && |chain| > settings.maxProofs.value {
      return Err(Invalid(V.TooManyProofs(|chain|, settings.maxProofs.value)));
    }
    var c := ChainCase(settings, subject, inv, chain);
    var shape := Validating.CheckStructure(c);
    var _ :- Refused(shape);
    var target :- CheckNamesChain(revocation, chain);
    NamedIsNotEmpty(revocation, chain);
    var targetExpiry := chain[|chain| - 1].expiration;
    var _ :- CheckNoIssuerRepeats(chain);

    SignaturesAndTimeOrder(c);
    var failure := settings.signatures.ofInvocation(inv);
    if failure.Some? { return Err(Invalid(V.SignatureError(V.TheInvocation, failure).value)); }
    var time := CheckWindow(None, inv.expiration, settings.now, settings.skew);
    if time.Err? { return Err(Invalid(V.TimeFailure(V.TheInvocation, time).value)); }
    var signed := Validating.VerifyChain(c);
    var _ :- Refused(signed);

    var source := FindIssuer(chain, inv.subject);
    if source.None? { return Err(SubjectNotInChain(inv.subject)); }
    var own := FindIssuer(chain, inv.issuer);
    // The revoker's own right, whatever `sub` names, comes first.
    var hop, authority, delegated := source.value, inv.subject, true;
    if own.Some? {
      hop, authority, delegated := own.value, inv.issuer, false;
    } else {
      if inv.proofs == [] { return Err(NotAuthorized(inv.issuer)); }
      var _ :- CheckGranted(settings, inv);
    }
    var _ :- CheckStanding(c, hop);
    return Ok(V.AcceptedRevocation(target, inv.issuer, authority, targetExpiry, delegated));
  }

  lemma NamedIsNotEmpty(revocation: Revocation, chain: seq<V.Delegation>)
    ensures NamesChain(revocation, chain).Ok? ==> chain != []
  {
  }
}
