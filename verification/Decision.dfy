/**
  Authorization decisions (src/authz/decision.ts:66-71, 91-128, 164-219): what an evaluator
  records, and what a verifier concludes from the record.
 */
module Decision {
  import opened Basics
  import Policy
  import Principal
  import Delegation

  datatype Status = Pass | Fail | Undecided | NotApplicable | NotChecked

  datatype Outcome = Permit | Deny | Indeterminate | Error

  /** `rest` stands for the fields only the digest looks at. */
  datatype Request = Request(
    id: string, principal: string, action: string, resource: string, audience: string,
    nonce: string, issuedAt: int, expiresAt: int, delegation: Option<string>, rest: string)

  datatype Record = Record(
    outcome: Outcome, requestId: string, requestDigest: string, principal: string, nonce: string,
    policyDigest: string, evaluator: Evaluator, inputDigest: string, decidedAt: int, validUntil: int)

  /** Digests, regular expressions and the structural validation of policies. */
  datatype Env = Env(
    requestDigest: Request -> string, policyDigest: Policy.Document -> string,
    invalidPolicyDigest: Policy.Document -> string, factsDigest: Policy.Facts -> string,
    regex: Policy.Regex, validPolicy: Policy.Document -> bool)

  datatype Evaluator = Evaluator(id: string, version: string)

  const EVALUATOR: Evaluator := Evaluator("cool-nwc/policy-engine", "cool.policy.v1/1")

  const SKEW: nat := 60000

  // ---------------------------------------------------------------- deciding

  /** The caller's facts, overridden by the request's own fields. */
  function DecisionFacts(r: Request, facts: Policy.Facts): Policy.Facts {
    facts["request.principal" := Policy.Str(r.principal)]["request.action" := Policy.Str(r.action)]
         ["request.resource" := Policy.Str(r.resource)]["request.audience" := Policy.Str(r.audience)]
  }

  function ToOutcome(d: Policy.Decision): Outcome {
    match d
    case Allow => Permit
    case AuditOnly => Permit
    case Deny => Deny
    case Quarantine => Deny
    case _ => Indeterminate
  }

  /** An expired request is denied without evaluation. */
  function Evaluate(env: Env, r: Request, p: Policy.Document, facts: Policy.Facts, at: int): Outcome {
    if at > r.expiresAt then Deny else ToOutcome(Policy.Decide(p, DecisionFacts(r, facts), env.regex))
  }

  function DecisionBody(env: Env, r: Request, p: Policy.Document, facts: Policy.Facts, now: int): Record {
    var throws := now <= r.expiresAt && !env.validPolicy(p);
    Record(if throws then Error else Evaluate(env, r, p, facts, now),
           r.id, env.requestDigest(r), r.principal, r.nonce,
           if throws then env.invalidPolicyDigest(p) else env.policyDigest(p),
           EVALUATOR, env.factsDigest(DecisionFacts(r, facts)), now, r.expiresAt)
  }

  // ---------------------------------------------------------------- verifying

  /** A signed record with what its signature check and the trust store said. */
  datatype Signed = Signed(body: Record, integrity: Status, signature: Status, trusted: Status)

  datatype Chain = Chain(links: seq<Delegation.Signed>, roots: seq<string>, revoked: set<string>, amount: Option<int>)

  datatype Options = Options(
    request: Request, enforcement: bool, now: int,
    policy: Option<Policy.Document>, facts: Option<Policy.Facts>,
    directory: Option<Principal.Directory>, chain: Option<Chain>, sig: Delegation.SigOk)

  datatype Checks = Checks(
    integrity: Status, signature: Status, trusted: Status, requestBinding: Status, policyBinding: Status,
    reproduced: Status, freshness: Status, principalState: Status, delegation: Status)

  datatype Report = Report(outcome: Outcome, checks: Checks)

  const MAX_DEPTH: nat := 4

  function Of(b: bool): Status {
    if b then Pass else Fail
  }

  predicate Binds(env: Env, d: Record, r: Request) {
    env.requestDigest(r) == d.requestDigest && r.id == d.requestId && r.principal == d.principal && r.nonce == d.nonce
  }

  function PolicyBinding(env: Env, d: Record, o: Options): Status {
    if o.policy.None? then NotChecked else Of(env.policyDigest(o.policy.value) == d.policyDigest)
  }

  /** Replay of the decision; None where re-evaluating an invalid policy throws. */
  function Reproduced(env: Env, d: Record, o: Options): Option<Status> {
    if d.evaluator != EVALUATOR then Some(Undecided)
    else if o.policy.None? || o.facts.None? then Some(NotChecked)
    else if PolicyBinding(env, d, o) != Pass then Some(NotChecked)
    else if env.factsDigest(DecisionFacts(o.request, o.facts.value)) != d.inputDigest then Some(Fail)
    else if d.decidedAt <= o.request.expiresAt && !env.validPolicy(o.policy.value) then None
    else Some(Of(Evaluate(env, o.request, o.policy.value, o.facts.value, d.decidedAt) == d.outcome))
  }

  function Freshness(d: Record, o: Options): Status {
    Of(&& d.decidedAt >= o.request.issuedAt - SKEW
       && d.validUntil <= o.request.expiresAt
       && (o.enforcement ==> o.now <= d.validUntil))
  }

  predicate NamesDelegation(r: Request) {
    r.delegation.Some? && r.delegation.value != ""
  }

  function ChainRequest(r: Request, amount: Option<int>): Delegation.Request {
    Delegation.Request(r.principal, r.audience, Delegation.Use(r.action, r.resource, amount))
  }

  function ChainOptions(dir: Principal.Directory, c: Chain, at: int): Delegation.Options {
    Delegation.Options(dir, c.roots, at, c.revoked, MAX_DEPTH)
  }

  function DelegationCheck(d: Record, o: Options): Status {
    var r := o.request;
    if !NamesDelegation(r) then NotApplicable
    else if o.chain.None? || o.directory.None? then NotChecked
    else
      var c := o.chain.value;
      Of(|c.links| > 0 && c.links[|c.links| - 1].body.id == r.delegation.value
         && Delegation.Authorises(c.links, ChainRequest(r, c.amount), ChainOptions(o.directory.value, c, d.decidedAt),
           o.sig))
  }

  function PrincipalCheck(d: Record, o: Options): Status {
    if o.directory.None? then NotChecked
    else Of(Principal.Usable(o.directory.value, o.request.principal, d.decidedAt, ""))
  }

  function VerifyDecision(env: Env, s: Signed, o: Options): Option<Report> {
    var d := s.body;
    match Reproduced(env, d, o)
    case None => None
    case Some(reproduced) =>
      Some(Report(d.outcome, Checks(
        s.integrity, s.signature, s.trusted, Of(Binds(env, d, o.request)), PolicyBinding(env, d, o),
        reproduced, Freshness(d, o), PrincipalCheck(d, o), DelegationCheck(d, o))))
  }

  // ---------------------------------------------------------------- what is decided

  /** The engine sees the request's own fields under these names, whatever the caller says of them, and every
      other fact as the caller gave it. */
  lemma FactsMean(r: Request, facts: Policy.Facts)
    ensures var all := DecisionFacts(r, facts);
      && all.Keys == facts.Keys + {"request.principal", "request.action", "request.resource", "request.audience"}
      && all["request.principal"] == Policy.Str(r.principal) && all["request.action"] == Policy.Str(r.action)
      && all["request.resource"] == Policy.Str(r.resource) && all["request.audience"] == Policy.Str(r.audience)
      && forall f :: f in facts ==>
           f in {"request.principal", "request.action", "request.resource", "request.audience"} || all[f] == facts[f]
  {
    assert "request.principal" != "request.action" && "request.principal" != "request.resource";
    assert "request.principal" != "request.audience" && "request.action" != "request.resource";
    assert "request.action"[8] != "request.audience"[9] && "request.resource"[8] != "request.audience"[8];
    assert "request.action" != "request.audience" && "request.resource" != "request.audience";
  }

  /** The outcome that belongs to a request under a policy and facts at a time: allow and audit_only permit,
      expiry, deny and quarantine deny, the other two leave it open. */
  ghost predicate Follows(env: Env, r: Request, p: Policy.Document, facts: Policy.Facts, at: int, outcome: Outcome) {
    var d := Policy.Decide(p, DecisionFacts(r, facts), env.regex);
    match outcome
    case Permit => at <= r.expiresAt && (d == Policy.Allow || d == Policy.AuditOnly)
    case Deny => at > r.expiresAt || d == Policy.Deny || d == Policy.Quarantine
    case Indeterminate => at <= r.expiresAt && (d == Policy.Defer || d == Policy.RequireApproval)
    case Error => false
  }

  /** What an evaluator records, for all inputs: an error exactly for an unexpired request under an invalid
      policy, and otherwise the outcome that follows; bound to the request, valid until its expiry. */
  lemma DecisionBodyMeans(env: Env, r: Request, p: Policy.Document, facts: Policy.Facts, now: int)
    ensures var d := DecisionBody(env, r, p, facts, now); var refused := now <= r.expiresAt && !env.validPolicy(p);
      && (d.outcome == Error <==> refused)
      && (forall outcome :: outcome != Error ==>
        (d.outcome == outcome <==> !refused && Follows(env, r, p, facts, now, outcome)))
      && d.requestId == r.id && d.requestDigest == env.requestDigest(r) && d.principal == r.principal
      && d.nonce == r.nonce
      && d.policyDigest == (if refused then env.invalidPolicyDigest(p) else env.policyDigest(p))
      && d.inputDigest == env.factsDigest(DecisionFacts(r, facts)) && d.evaluator == EVALUATOR
      && d.decidedAt == now && d.validUntil == r.expiresAt
  {
    hide Policy.Decide, DecisionFacts;
  }

  // ---------------------------------------------------------------- what is verified

  predicate OurEvaluator(d: Record) {
    d.evaluator.id == "cool-nwc/policy-engine" && d.evaluator.version == "cool.policy.v1/1"
  }

  predicate SameFacts(env: Env, d: Record, o: Options) {
    o.facts.Some? && env.factsDigest(DecisionFacts(o.request, o.facts.value)) == d.inputDigest
  }

  /** Policy and facts were sent along and the policy is the one the record names. */
  ghost predicate Replays(env: Env, d: Record, o: Options) {
    && OurEvaluator(d)
    && o.policy.Some? && o.facts.Some? && env.policyDigest(o.policy.value) == d.policyDigest
  }

  /** Every check of `verifyDecision` on the record itself, spelled out; it throws exactly where it would replay
      an invalid policy. */
  lemma ChecksMean(env: Env, s: Signed, o: Options)
    ensures var d, r := s.body, o.request;
      (VerifyDecision(env, s, o).None? <==>
        && Replays(env, d, o) && SameFacts(env, d, o) && d.decidedAt <= r.expiresAt && !env.validPolicy(o.policy.value))
    ensures VerifyDecision(env, s, o).Some? ==>
      var d, r, report := s.body, o.request, VerifyDecision(env, s, o).value;
      var c := report.checks;
      && report.outcome == d.outcome
      && c.integrity == s.integrity && c.signature == s.signature && c.trusted == s.trusted
      && (c.requestBinding == Pass <==>
            && env.requestDigest(r) == d.requestDigest && r.id == d.requestId
            && r.principal == d.principal && r.nonce == d.nonce)
      && c.requestBinding in {Pass, Fail}
      && (c.policyBinding == NotChecked <==> o.policy.None?)
      && (c.policyBinding == Pass <==> o.policy.Some? && env.policyDigest(o.policy.value) == d.policyDigest)
      && c.policyBinding in {Pass, Fail, NotChecked}
      && (c.reproduced == Pass <==>
            && Replays(env, d, o) && SameFacts(env, d, o)
            && Follows(env, r, o.policy.value, o.facts.value, d.decidedAt, d.outcome))
      && (c.reproduced == NotChecked <==>
            OurEvaluator(d) && (o.policy.None? || o.facts.None? || env.policyDigest(o.policy.value) != d.policyDigest))
      && (c.reproduced == Undecided <==> !OurEvaluator(d))
      && c.reproduced in {Pass, Fail, Undecided, NotChecked}
      && (c.freshness == Pass <==>
            && d.decidedAt >= r.issuedAt - 60000 && d.validUntil <= r.expiresAt
            && (o.enforcement ==> o.now <= d.validUntil))
      && c.freshness in {Pass, Fail}
  {
    hide Policy.Decide, DecisionFacts, DelegationCheck, PrincipalCheck;
  }

  /** The two checks about the principal and its delegation. */
  lemma StandingMeans(env: Env, s: Signed, o: Options)
    requires VerifyDecision(env, s, o).Some?
    ensures var d, r, c := s.body, o.request, VerifyDecision(env, s, o).value.checks;
      && (c.principalState == NotChecked <==> o.directory.None?)
      && (c.principalState == Pass <==>
        o.directory.Some? && Principal.InForce(o.directory.value, r.principal, d.decidedAt))
      && c.principalState in {Pass, Fail, NotChecked}
      && (c.delegation == NotApplicable <==> r.delegation == None || r.delegation == Some(""))
      && (c.delegation == NotChecked <==>
            !(r.delegation == None || r.delegation == Some("")) && (o.chain.None? || o.directory.None?))
      && (c.delegation == Pass <==>
            && !(r.delegation == None || r.delegation == Some("")) && o.chain.Some? && o.directory.Some?
            && Authorised(o.chain.value, o.directory.value, r, d.decidedAt, o.sig))
      && c.delegation in {Pass, Fail, NotChecked, NotApplicable}
  {
    hide Policy.Decide, DecisionFacts, Reproduced, Principal.Usable, Principal.InForce, Delegation.Authorises,
      Delegation.Genuine;
    if o.directory.Some? {
      Principal.UsableExactly(o.directory.value, o.request.principal, s.body.decidedAt, "");
      if o.chain.Some? {
        var c := o.chain.value;
        Delegation.AuthorisesExactly(c.links, ChainRequest(o.request, c.amount),
          ChainOptions(o.directory.value, c, s.body.decidedAt), o.sig);
      }
    }
  }

  /** The chain ends in the delegation the request names, and is genuine for this principal, audience, action,
      resource and amount, from these roots, at the time of the decision, four links deep at most. */
  ghost predicate Authorised(c: Chain, dir: Principal.Directory, r: Request, at: int, sig: Delegation.SigOk)
    requires r.delegation.Some?
  {
    && c.links != [] && c.links[|c.links| - 1].body.id == r.delegation.value
    && Delegation.Genuine(c.links,
         Delegation.Request(r.principal, r.audience, Delegation.Use(r.action, r.resource, c.amount)),
         Delegation.Options(dir, c.roots, at, c.revoked, 4), sig)
  }

  // ---------------------------------------------------------------- properties

  /** Deciding and then verifying with the same request, policy and facts reproduces the decision;
      it is fresh exactly from a minute before issue until expiry. */
  lemma DecideThenVerify(env: Env, o: Options, decidedAt: int, integrity: Status, signature: Status, trusted: Status)
    requires o.policy.Some? && o.facts.Some? && env.validPolicy(o.policy.value)
    ensures var d := DecisionBody(env, o.request, o.policy.value, o.facts.value, decidedAt);
      var report := VerifyDecision(env, Signed(d, integrity, signature, trusted), o);
      && report.Some?
      && report.value.checks.requestBinding == Pass
      && report.value.checks.policyBinding == Pass
      && report.value.checks.reproduced == Pass
      && (report.value.checks.freshness == Pass
          <==> decidedAt >= o.request.issuedAt - SKEW && (o.enforcement ==> o.now <= o.request.expiresAt))
  {
  }

  /** A reproduced permit was decided before expiry, and the policy permits on the facts given. */
  lemma ReproducedPermit(env: Env, s: Signed, o: Options)
    requires VerifyDecision(env, s, o).Some? && VerifyDecision(env, s, o).value.checks.reproduced == Pass
    requires s.body.outcome == Permit
    ensures o.policy.Some? && o.facts.Some? && s.body.decidedAt <= o.request.expiresAt
    ensures Policy.Permits(Policy.Decide(o.policy.value, DecisionFacts(o.request, o.facts.value), env.regex))
  {
    hide Policy.Decide;
  }
}
