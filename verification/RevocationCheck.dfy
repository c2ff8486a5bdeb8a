/** Reading and judging `/ucan/revoke` invocations. */
module RevocationCheck {
  import opened Wrappers
  import opened IpldModel
  import opened Dids
  import opened Commands
  import opened Time
  import opened Validation
  import KeyOrder

  const REVOKE_COMMAND: string := "/ucan/revoke"

  datatype RevocationError =
    | NotARevocation(command: Command)
    | MissingTarget
    | MalformedArgument(name: string)
    | UnknownArgument(name: string)
    | WrongTarget(named: Cid)
    | PathMismatch
    | RepeatedIssuer(hop: Hop, issuer: Did)
    | SubjectNotInChain(subject: Did)
    | NotAuthorized(revoker: Did)
    | Invalid(error: ValidationError)
    | Grant(error: ValidationError)

  datatype Revocation = Revocation(target: Cid, path: Option<seq<Cid>>)

  function LinksIn(values: seq<Ipld>): Result<seq<Cid>, RevocationError> {
    if values == [] then Ok([])
    else if !values[0].Link? then Err(MalformedArgument("path"))
    else
      var rest :- LinksIn(values[1..]);
      Ok([values[0].cid] + rest)
  }

  /** One argument read into what was read before. */
  function ReadArgument(name: string, value: Ipld, target: Option<Cid>, path: Option<seq<Cid>>)
    : Result<(Option<Cid>, Option<seq<Cid>>), RevocationError>
  {
    if name == "revoke" then if value.Link? then Ok((Some(value.cid), path)) else Err(MalformedArgument("revoke"))
    else if name == "path" then
      if value.List? then
        var links :- LinksIn(value.items);
        Ok((target, Some(links)))
      else Err(MalformedArgument("path"))
    else Err(UnknownArgument(name))
  }

  /** The arguments in the order of their names. */
  function ReadArguments(args: map<string, Ipld>, names: seq<string>, target: Option<Cid>, path: Option<seq<Cid>>)
    : Result<(Option<Cid>, Option<seq<Cid>>), RevocationError>
    requires forall n :: n in names ==> n in args
  {
    if names == [] then Ok((target, path))
    else
      var (t, p) :- ReadArgument(names[0], args[names[0]], target, path);
      ReadArguments(args, names[1..], t, p)
  }

  function Names(args: map<string, Ipld>): (names: seq<string>)
    ensures forall n :: n in names <==> n in args
    ensures KeyOrder.Ascending(names, KeyOrder.Bytewise)
  {
    KeyOrder.BytewiseIsStrictTotal();
    KeyOrder.Listing(args.Keys, KeyOrder.Bytewise)
  }

  function Read(inv: Invocation): Result<Revocation, RevocationError> {
    if inv.command.text != REVOKE_COMMAND then Err(NotARevocation(inv.command))
    else
      var (target, path) :- ReadArguments(inv.args, Names(inv.args), None, None);
      if target.None? then Err(MissingTarget) else Ok(Revocation(target.value, path))
  }

  function Cids(chain: seq<Delegation>): seq<Cid> {
    seq(|chain|, i requires 0 <= i < |chain| => chain[i].cid)
  }

  /** The target's own CID, once the arguments are shown to name this chain. */
  function NamesChain(r: Revocation, chain: seq<Delegation>): Result<Cid, RevocationError> {
    if chain == [] then Err(Invalid(EmptyChain))
    else if r.target != chain[|chain| - 1].cid then Err(WrongTarget(r.target))
    else if r.path.Some? && r.path.value != Cids(chain) then Err(PathMismatch)
    else Ok(chain[|chain| - 1].cid)
  }

  /** The first position from `i` on that `did` issued at. */
  function IssuedAt(chain: seq<Delegation>, did: Did, i: nat): (r: Option<nat>)
    requires i <= |chain|
    ensures r.Some? ==>
              && i <= r.value < |chain| && SamePrincipal(chain[r.value].issuer, did)
              && forall k :: i <= k < r.value ==> !SamePrincipal(chain[k].issuer, did)
    ensures r.None? ==> forall k :: i <= k < |chain| ==> !SamePrincipal(chain[k].issuer, did)
    decreases |chain| - i
  {
    if i == |chain| then None
    else if SamePrincipal(chain[i].issuer, did) then Some(i)
    else IssuedAt(chain, did, i + 1)
  }

  /** The first hop from `i` on whose issuer issued before. */
  function Repeat(chain: seq<Delegation>, i: nat): (r: Option<nat>)
    requires i <= |chain|
    ensures r.Some? ==> i <= r.value < |chain|
    decreases |chain| - i
  {
    if i == |chain| then None
    else if IssuedAt(chain[..i], chain[i].issuer, 0).Some? then Some(i)
    else Repeat(chain, i + 1)
  }

  function NoRepeats(chain: seq<Delegation>): Result<(), RevocationError> {
    match Repeat(chain, 0)
    case Some(i) => Err(RepeatedIssuer(Proof(i), chain[i].issuer))
    case None => Ok(())
  }

  /** The first failure of these checks, as this pipeline reports it. */
  function Passing(c: Case, checks: seq<Check>): Result<(), RevocationError> {
    match First(c, checks)
    case Some(e) => Err(Invalid(e))
    case None => Ok(())
  }

  /** A `/ucan/revoke` proof is an ordinary invocation chain, with neither executor nor replay guard. */
  function GrantConfig(v: Config): Config {
    v.(executor := None)
  }

  function CheckGrant(v: Config, inv: Invocation): Result<(), RevocationError> {
    match Judge(GrantConfig(v), inv)
    case Ok(_) => Ok(())
    case Err(e) => Err(Grant(e))
  }

  /** The hop whose right is used, whose right it is, and whether it was handed on. */
  function Authority(v: Config, inv: Invocation, chain: seq<Delegation>, source: nat)
    : (r: Result<(nat, Did, bool), RevocationError>)
    requires source < |chain|
    ensures r.Ok? ==> r.value.0 < |chain|
  {
    match IssuedAt(chain, inv.issuer, 0)
    case Some(hop) => Ok((hop, inv.issuer, false))
    case None =>
      if inv.proofs == [] then Err(NotAuthorized(inv.issuer))
      else
        var _ :- CheckGrant(v, inv);
        Ok((source, inv.subject, true))
  }

  function MaxProofs(v: Config, chain: seq<Delegation>): Result<(), RevocationError> {
    if v.maxProofs.Some? && |chain| > v.maxProofs.value
    then Err(Invalid(TooManyProofs(|chain|, v.maxProofs.value))) else Ok(())
  }

  function ChainCase(v: Config, subject: Did, inv: Invocation, chain: seq<Delegation>): Case {
    Case(v, chain, subject, None, inv)
  }

  function SignaturesAndTime(n: nat): seq<Check> {
    [InvocationSigned, InvocationInTime] + Signeds(0, n)
  }

  function Standing(hop: nat): seq<Check> {
    Times(0, hop) + Unrevokeds(0, hop)
  }

  /** Whether `inv` is a revocation that `subject` should record, given the chain of the delegation it revokes. */
  function CheckRevocation(v: Config, subject: Did, inv: Invocation, chain: seq<Delegation>)
    : Result<AcceptedRevocation, RevocationError>
  {
    var c := ChainCase(v, subject, inv, chain);
    var revocation :- Read(inv);
    var _ :- MaxProofs(v, chain);
    var _ :- Passing(c, Structure(|chain|));
    var target :- NamesChain(revocation, chain);
    var _ :- NoRepeats(chain);
    var _ :- Passing(c, SignaturesAndTime(|chain|));
    match IssuedAt(chain, inv.subject, 0)
    case None => Err(SubjectNotInChain(inv.subject))
    case Some(source) =>
      var (hop, authority, delegated) :- Authority(v, inv, chain, source);
      var _ :- Passing(c, Standing(hop));
      Ok(AcceptedRevocation(target, inv.issuer, authority, chain[|chain| - 1].expiration, delegated))
  }
}
