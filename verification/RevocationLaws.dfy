/** What each refusal of a revocation says. */
module RevocationLaws {
  import opened Wrappers
  import opened IpldModel
  import opened Dids
  import opened Validation
  import opened RevocationCheck
  import opened RevocationProofs
  import opened ValidationProofs
  import opened ValidationLaws

  /** An argument is not of the form its name asks for. */
  ghost predicate Misformed(name: string, value: Ipld) {
    || (name == "revoke" && !value.Link?)
    || (name == "path" && !(value.List? && forall i :: 0 <= i < |value.items| ==> value.items[i].Link?))
  }

  ghost predicate IssuedNowhere(chain: seq<Delegation>, did: Did) {
    forall i :: 0 <= i < |chain| ==> Base(chain[i].issuer) != Base(did)
  }

  /** What an error says of the arguments. */
  ghost predicate SaysOfArguments(args: map<string, Ipld>, e: RevocationError) {
    match e
    case MalformedArgument(name) => name in args && Misformed(name, args[name])
    case UnknownArgument(name) => name in args && name != "revoke" && name != "path"
    case _ => false
  }

  /** What an error says of the token and the chain it is brought with. */
  ghost predicate SaysOfRevocation(
      v: Config, subject: Did, inv: Invocation, chain: seq<Delegation>, e: RevocationError)
  {
    match e
    case NotARevocation(command) => command == inv.command && command.text != REVOKE_COMMAND
    case MissingTarget => "revoke" !in inv.args
    case MalformedArgument(_) => SaysOfArguments(inv.args, e)
    case UnknownArgument(_) => SaysOfArguments(inv.args, e)
    case WrongTarget(named) =>
      "revoke" in inv.args && inv.args["revoke"] == Link(named) && chain != [] && named != chain[|chain| - 1].cid
    case PathMismatch => "path" in inv.args && inv.args["path"] != List(LinksOf(Cids(chain)))
    case RepeatedIssuer(hop, issuer) =>
      hop.Proof? && hop.n < |chain| && issuer == chain[hop.n].issuer
      && exists j :: 0 <= j < hop.n && Base(chain[j].issuer) == Base(issuer)
    case SubjectNotInChain(did) => did == inv.subject && IssuedNowhere(chain, did)
    case NotAuthorized(revoker) => revoker == inv.issuer && inv.proofs == [] && IssuedNowhere(chain, revoker)
    case Invalid(why) =>
      || (v.maxProofs.Some? && why == TooManyProofs(|chain|, v.maxProofs.value) && |chain| > v.maxProofs.value)
      || exists check :: Complains(ChainCase(v, subject, inv, chain), check, why)
    case Grant(why) =>
      inv.proofs != [] && IssuedNowhere(chain, inv.issuer) && Judge(GrantConfig(v), inv) == Err(why)
  }

  lemma {:induction false} LinksSaid(values: seq<Ipld>, e: RevocationError)
    requires LinksIn(values) == Err(e)
    ensures e == MalformedArgument("path") && exists i :: 0 <= i < |values| && !values[i].Link?
  {
    if values[0].Link? {
      LinksSaid(values[1..], e);
      var i :| 0 <= i < |values[1..]| && !values[1..][i].Link?;
      assert values[i + 1] == values[1..][i];
    }
  }

  lemma {:induction false} ArgumentsSaid(
      args: map<string, Ipld>, names: seq<string>, target: Option<Cid>, path: Option<seq<Cid>>, e: RevocationError)
    requires (forall n :: n in names ==> n in args) && ReadArguments(args, names, target, path) == Err(e)
    ensures SaysOfArguments(args, e)
    decreases |names|
  {
    var name, value := names[0], args[names[0]];
    assert "revoke" != "path" by { assert "revoke"[0] != "path"[0]; }
    if name == "path" && value.List? && LinksIn(value.items).Err? {
      LinksSaid(value.items, LinksIn(value.items).error);
    }
    var read := ReadArgument(name, value, target, path);
    hide LinksIn;
    if read.Ok? { ArgumentsSaid(args, names[1..], read.value.0, read.value.1, e); }
  }

  lemma ReadSaid(v: Config, subject: Did, inv: Invocation, chain: seq<Delegation>, e: RevocationError)
    requires Read(inv) == Err(e)
    ensures SaysOfRevocation(v, subject, inv, chain, e)
  {
    var names := Names(inv.args);
    var read := ReadArguments(inv.args, names, None, None);
    if inv.command.text == REVOKE_COMMAND {
      if read.Err? {
        ArgumentsSaid(inv.args, names, None, None, e);
      } else {
        var (t, p) := read.value;
        ReadArgumentsExactly(inv.args, names, None, None, t, p);
      }
    }
    hide ReadArguments, Names;
  }

  lemma ReadGives(inv: Invocation)
    requires Read(inv).Ok?
    ensures var r := Read(inv).value;
            && "revoke" in inv.args && inv.args["revoke"] == Link(r.target)
            && (r.path.Some? ==> "path" in inv.args && inv.args["path"] == List(LinksOf(r.path.value)))
  {
    hide Read, ArgumentsOf, LinksOf;
    ReadExactly(inv, Read(inv).value);
    ArgumentsByName(inv.args, Read(inv).value);
  }

  lemma PassingSaid(c: Case, checks: seq<Check>, e: RevocationError)
    requires Passing(c, checks) == Err(e)
    ensures e.Invalid? && exists check :: Complains(c, check, e.error)
  {
    hide First, Complains, Failure;
    FirstIsFirst(c, checks);
    var why := First(c, checks).value;
    var k :| 0 <= k < |checks| && Failure(c, checks[k]) == Some(why);
    FailureExactly(c, checks[k], why);
  }

  lemma NamesSaid(v: Config, subject: Did, inv: Invocation, chain: seq<Delegation>, e: RevocationError)
    requires Read(inv).Ok? && NamesChain(Read(inv).value, chain) == Err(e)
    ensures SaysOfRevocation(v, subject, inv, chain, e)
  {
    ReadGives(inv);
    hide Read, Complains, SaysOfRevocation, LinksOf, Cids;
    var r := Read(inv).value;
    if chain == [] {
      EmptySaid(ChainCase(v, subject, inv, chain));
      SaidOfCheck(v, subject, inv, chain, NonEmpty, EmptyChain);
    } else if r.target != chain[|chain| - 1].cid {
      TargetSaid(v, subject, inv, chain, r.target);
    } else {
      if LinksOf(r.path.value) == LinksOf(Cids(chain)) { LinksOfInjective(r.path.value, Cids(chain)); }
      PathSaid(v, subject, inv, chain);
    }
  }

  lemma SaidOfCheck(
      v: Config, subject: Did, inv: Invocation, chain: seq<Delegation>, check: Check, why: ValidationError)
    requires Complains(ChainCase(v, subject, inv, chain), check, why)
    ensures SaysOfRevocation(v, subject, inv, chain, Invalid(why))
  {
    hide Complains;
  }

  lemma TargetSaid(v: Config, subject: Did, inv: Invocation, chain: seq<Delegation>, named: Cid)
    requires "revoke" in inv.args && inv.args["revoke"] == Link(named)
    requires chain != [] && named != chain[|chain| - 1].cid
    ensures SaysOfRevocation(v, subject, inv, chain, WrongTarget(named))
  {
  }

  lemma PathSaid(v: Config, subject: Did, inv: Invocation, chain: seq<Delegation>)
    requires "path" in inv.args && inv.args["path"] != List(LinksOf(Cids(chain)))
    ensures SaysOfRevocation(v, subject, inv, chain, PathMismatch)
  {
    hide LinksOf, Cids;
  }

  lemma EmptySaid(c: Case)
    requires c.chain == []
    ensures Complains(c, NonEmpty, EmptyChain)
  {
  }

  lemma {:induction false} RepeatSaid(chain: seq<Delegation>, i: nat)
    requires i <= |chain| && Repeat(chain, i).Some?
    ensures var k := Repeat(chain, i).value;
            exists j :: 0 <= j < k && Base(chain[j].issuer) == Base(chain[k].issuer)
    decreases |chain| - i
  {
    hide Base;
    var found := IssuedAt(chain[..i], chain[i].issuer, 0);
    if found.Some? {
      assert chain[..i][found.value] == chain[found.value];
    } else {
      RepeatSaid(chain, i + 1);
    }
  }

  lemma AuthoritySaid(v: Config, subject: Did, inv: Invocation, chain: seq<Delegation>, source: nat, e: RevocationError)
    requires source < |chain| && Authority(v, inv, chain, source) == Err(e)
    ensures SaysOfRevocation(v, subject, inv, chain, e)
  {
    RefusedAuthority(v, inv, chain, source, e);
    hide Judge, IssuedNowhere, Complains, Authority;
  }

  lemma RefusedAuthority(v: Config, inv: Invocation, chain: seq<Delegation>, source: nat, e: RevocationError)
    requires source < |chain| && Authority(v, inv, chain, source) == Err(e)
    ensures IssuedNowhere(chain, inv.issuer)
    ensures || (e == NotAuthorized(inv.issuer) && inv.proofs == [])
            || (e.Grant? && inv.proofs != [] && Judge(GrantConfig(v), inv) == Err(e.error))
  {
    hide Judge, Base, Complains;
  }

  /** Whatever a refused revocation is told is so. */
  lemma RefusalIsTrue(v: Config, subject: Did, inv: Invocation, chain: seq<Delegation>, e: RevocationError)
    requires CheckRevocation(v, subject, inv, chain) == Err(e)
    ensures SaysOfRevocation(v, subject, inv, chain, e)
  {
    hide Read, First, NamesChain, Authority, Structure, SignaturesAndTime, Standing, Passing, SaysOfRevocation, Base;
    var c := ChainCase(v, subject, inv, chain);
    if Read(inv).Err? {
      ReadSaid(v, subject, inv, chain, e);
    } else if MaxProofs(v, chain).Err? {
      LimitSaid(v, subject, inv, chain, e);
    } else if Passing(c, Structure(|chain|)).Err? {
      PassedOn(v, subject, inv, chain, Structure(|chain|), e);
    } else if NamesChain(Read(inv).value, chain).Err? {
      NamesSaid(v, subject, inv, chain, e);
    } else if NoRepeats(chain).Err? {
      RepeatsSaid(v, subject, inv, chain, e);
    } else if Passing(c, SignaturesAndTime(|chain|)).Err? {
      PassedOn(v, subject, inv, chain, SignaturesAndTime(|chain|), e);
    } else if IssuedAt(chain, inv.subject, 0).None? {
      NowhereSaid(v, subject, inv, chain);
    } else {
      var source := IssuedAt(chain, inv.subject, 0).value;
      if Authority(v, inv, chain, source).Err? {
        AuthoritySaid(v, subject, inv, chain, source, e);
      } else {
        PassedOn(v, subject, inv, chain, Standing(Authority(v, inv, chain, source).value.0), e);
      }
    }
  }

  lemma LimitSaid(v: Config, subject: Did, inv: Invocation, chain: seq<Delegation>, e: RevocationError)
    requires MaxProofs(v, chain) == Err(e)
    ensures SaysOfRevocation(v, subject, inv, chain, e)
  {
  }

  lemma PassedOn(
      v: Config, subject: Did, inv: Invocation, chain: seq<Delegation>, checks: seq<Check>, e: RevocationError)
    requires Passing(ChainCase(v, subject, inv, chain), checks) == Err(e)
    ensures SaysOfRevocation(v, subject, inv, chain, e)
  {
    PassingSaid(ChainCase(v, subject, inv, chain), checks, e);
    hide Passing, Complains;
  }

  lemma RepeatsSaid(v: Config, subject: Did, inv: Invocation, chain: seq<Delegation>, e: RevocationError)
    requires NoRepeats(chain) == Err(e)
    ensures SaysOfRevocation(v, subject, inv, chain, e)
  {
    RepeatSaid(chain, 0);
    hide Repeat, Base;
  }

  lemma NowhereSaid(v: Config, subject: Did, inv: Invocation, chain: seq<Delegation>)
    requires IssuedAt(chain, inv.subject, 0).None?
    ensures SaysOfRevocation(v, subject, inv, chain, SubjectNotInChain(inv.subject))
  {
    hide Base;
  }
}
