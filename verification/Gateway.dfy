/**
  The enforcement boundary (src/authz/gateway.ts:103-180) over an atomic nonce store
  (src/authz/replay.ts:25-62, src/authz/replay-shared.ts:35-94). Invocations run concurrently
  and yield at every await; a run is any interleaving of their steps, of the store's, and of time.
 */
module Gateway {
  import opened Basics
  import Policy
  import Principal
  import Delegation
  import opened Decision

  // ---------------------------------------------------------------- admission

  datatype Tool = Tool(action: string, resource: string)

  /** What the gateway is configured with; `paramsMatch` is the recomputed commitment. */
  datatype Config = Config(
    env: Env, audience: string, tools: map<string, Tool>, directory: Option<Principal.Directory>,
    roots: seq<string>, sig: Delegation.SigOk)

  datatype Execution = Execution(workload: string)

  datatype Invocation = Invocation(
    tool: string, request: Request, paramsMatch: bool, amount: Option<int>, decision: Signed,
    links: Option<seq<Delegation.Signed>>, policy: Option<Policy.Document>, facts: Option<Policy.Facts>,
    planned: Option<Execution>)

  /** What the gateway observes when the call starts. */
  datatype Moment = Moment(now: int, revoked: set<string>, observed: Option<Execution>)

  function DecisionOptions(g: Config, inv: Invocation, m: Moment): Options {
    Options(inv.request, true, m.now, inv.policy, inv.facts, g.directory,
            if inv.links.Some? then Some(Chain(inv.links.value, g.roots, m.revoked, inv.amount)) else None, g.sig)
  }

  /** A check that stops the call; replay inputs that were not sent may stay unchecked. */
  predicate Blocks(s: Status, optional: bool) {
    s == Fail || (s != Pass && s != NotApplicable && !(optional && s == NotChecked))
  }

  predicate Blocked(c: Checks) {
    || Blocks(c.integrity, false) || Blocks(c.signature, false) || Blocks(c.trusted, false)
    || Blocks(c.requestBinding, false) || Blocks(c.policyBinding, true) || Blocks(c.reproduced, true)
    || Blocks(c.freshness, false) || Blocks(c.principalState, false) || Blocks(c.delegation, false)
  }

  datatype Reason =
    | UnknownTool | ToolActionMismatch | WrongAudience | ParameterMismatch | DecisionNotAcceptable
    | DelegationNotVerified | NotPermitted | ExecutionMismatch | ExecutionUnobserved | Replayed | StoreUnavailable

  datatype Admission = Admitted | Refused(reason: Reason) | Threw

  /** Everything `invoke` checks before it first waits, in order. */
  function Admit(g: Config, inv: Invocation, m: Moment): Admission {
    var r := inv.request;
    if inv.tool !in g.tools then Refused(UnknownTool)
    else
      var tool := g.tools[inv.tool];
      if tool.action != r.action || !Delegation.Covers(tool.resource, r.resource) then Refused(ToolActionMismatch)
      else if r.audience != g.audience then Refused(WrongAudience)
      else if !inv.paramsMatch then Refused(ParameterMismatch)
      else
        match VerifyDecision(g.env, inv.decision, DecisionOptions(g, inv, m))
        case None => Threw
        case Some(report) =>
          if Blocked(report.checks) then Refused(DecisionNotAcceptable)
          else if NamesDelegation(r) && report.checks.delegation != Pass then Refused(DelegationNotVerified)
          else if report.outcome != Permit then Refused(NotPermitted)
          else if inv.planned.Some? && m.observed.None? then Refused(ExecutionUnobserved)
          else if inv.planned.Some? && inv.planned != m.observed then Refused(ExecutionMismatch)
          else Admitted
  }

  /** The registry of tools; a name is registered once. */
  class ToolGateway {
    var tools: map<string, Tool>

    constructor ()
      ensures tools == map[]
    {
      tools := map[];
    }

    method Register(name: string, tool: Tool) returns (ok: bool)
      modifies this
      ensures ok <==> name !in old(tools)
      ensures tools == if ok then old(tools)[name := tool] else old(tools)
    {
      if name in tools {
        return false;
      }
      tools := tools[name := tool];
      return true;
    }
  }

  /** An admitted call carries a trusted permit for this very request, fresh now, for a usable
      principal; and where it names a delegation, a verified chain. */
  lemma AdmittedMeans(g: Config, inv: Invocation, m: Moment)
    requires Admit(g, inv, m) == Admitted
    ensures inv.decision.body.outcome == Permit
    ensures {inv.decision.integrity, inv.decision.signature, inv.decision.trusted} <= {Pass, NotApplicable}
    ensures Binds(g.env, inv.decision.body, inv.request)
    ensures m.now <= inv.decision.body.validUntil <= inv.request.expiresAt
    ensures inv.request.issuedAt - SKEW <= inv.decision.body.decidedAt
    ensures inv.request.audience == g.audience && inv.paramsMatch
    ensures g.directory.Some? &&
      Principal.Usable(g.directory.value, inv.request.principal, inv.decision.body.decidedAt, "")
    ensures NamesDelegation(inv.request) ==>
      inv.links.Some? && |inv.links.value| > 0
      && Delegation.Authorises(inv.links.value, ChainRequest(inv.request, inv.amount),
           ChainOptions(g.directory.value, Chain(inv.links.value, g.roots, m.revoked, inv.amount),
             inv.decision.body.decidedAt), g.sig)
  {
    hide Delegation.Authorises, Principal.Usable, Reproduced;
  }

  /** The named tool is registered for the request's action, and its pattern matches the request's resource. */
  ghost predicate ToolFits(g: Config, inv: Invocation) {
    && inv.tool in g.tools && g.tools[inv.tool].action == inv.request.action
    && Delegation.Matches(g.tools[inv.tool].resource, inv.request.resource)
  }

  /** The record is vouched for, is a permit, binds this very request, was made by our evaluator no earlier than a
      minute before the request, and has not run out. */
  ghost predicate PermitHolds(g: Config, inv: Invocation, now: int) {
    var s, d, r := inv.decision, inv.decision.body, inv.request;
    && s.integrity in {Pass, NotApplicable} && s.signature in {Pass, NotApplicable}
    && s.trusted in {Pass, NotApplicable}
    && d.outcome == Permit
    && d.requestDigest == g.env.requestDigest(r) && d.requestId == r.id && d.principal == r.principal
    && d.nonce == r.nonce
    && d.evaluator.id == "cool-nwc/policy-engine" && d.evaluator.version == "cool.policy.v1/1"
    && d.decidedAt >= r.issuedAt - 60000 && d.validUntil <= r.expiresAt && now <= d.validUntil
  }

  /** What was sent along to replay the decision does so. */
  ghost predicate ReplayHolds(g: Config, inv: Invocation) {
    var d, r := inv.decision.body, inv.request;
    && (inv.policy.Some? ==> g.env.policyDigest(inv.policy.value) == d.policyDigest)
    && (inv.policy.Some? && inv.facts.Some? ==>
          && g.env.factsDigest(DecisionFacts(r, inv.facts.value)) == d.inputDigest
          && d.decidedAt <= r.expiresAt && g.env.validPolicy(inv.policy.value)
          && var decision := Policy.Decide(inv.policy.value, DecisionFacts(r, inv.facts.value), g.env.regex);
             decision == Policy.Allow || decision == Policy.AuditOnly)
  }

  /** The principal was in force at the decision, and a delegation the request names is backed by a chain. */
  ghost predicate StandingHolds(g: Config, inv: Invocation, revoked: set<string>) {
    var d, r := inv.decision.body, inv.request;
    && g.directory.Some? && Principal.InForce(g.directory.value, r.principal, d.decidedAt)
    && (r.delegation == None || r.delegation == Some("")
        || (&& inv.links.Some?
            && Authorised(Chain(inv.links.value, g.roots, revoked, inv.amount),
                          g.directory.value, r, d.decidedAt, g.sig)))
  }

  /** Everything a call must satisfy to reach its tool, spelled out. */
  ghost predicate MayRun(g: Config, inv: Invocation, m: Moment) {
    && ToolFits(g, inv) && inv.request.audience == g.audience && inv.paramsMatch
    && PermitHolds(g, inv, m.now) && ReplayHolds(g, inv) && StandingHolds(g, inv, m.revoked)
    && (inv.planned == None || (m.observed.Some? && inv.planned == m.observed))
  }

  /** A call is admitted exactly when it may run. */
  lemma AdmitExactly(g: Config, inv: Invocation, m: Moment)
    ensures Admit(g, inv, m) == Admitted <==> MayRun(g, inv, m)
  {
    hide Policy.Decide, DecisionFacts, VerifyDecision, Delegation.Covers, Delegation.Matches, Authorised,
      Principal.InForce;
    if inv.tool in g.tools {
      Delegation.CoversExactly(g.tools[inv.tool].resource, inv.request.resource);
    }
    var o := DecisionOptions(g, inv, m);
    ChecksMean(g.env, inv.decision, o);
    if VerifyDecision(g.env, inv.decision, o).Some? {
      StandingMeans(g.env, inv.decision, o);
    }
  }

  /** Why a call is refused before its decision is looked at: the first of these that fails, in this order. */
  lemma RefusalsMean(g: Config, inv: Invocation, m: Moment)
    ensures var registered, fits, here := inv.tool in g.tools, ToolFits(g, inv), inv.request.audience == g.audience;
      && (Admit(g, inv, m) == Refused(UnknownTool) <==> !registered)
      && (Admit(g, inv, m) == Refused(ToolActionMismatch) <==> registered && !fits)
      && (Admit(g, inv, m) == Refused(WrongAudience) <==> fits && !here)
      && (Admit(g, inv, m) == Refused(ParameterMismatch) <==> fits && here && !inv.paramsMatch)
  {
    hide VerifyDecision, Delegation.Covers, Delegation.Matches, Blocked;
    if inv.tool in g.tools {
      Delegation.CoversExactly(g.tools[inv.tool].resource, inv.request.resource);
    }
  }

  /** Why a call is refused after that: a permit that stands, but for another execution than the one observed,
      or with none observed; and a verified decision that is no permit. */
  lemma LaterRefusalsMean(g: Config, inv: Invocation, m: Moment)
    requires ToolFits(g, inv) && inv.request.audience == g.audience && inv.paramsMatch
    requires VerifyDecision(g.env, inv.decision, DecisionOptions(g, inv, m)).Some?
    ensures var checks := VerifyDecision(g.env, inv.decision, DecisionOptions(g, inv, m)).value.checks;
      var permit := !Blocked(checks) && inv.decision.body.outcome == Permit;
      && (Admit(g, inv, m) == Refused(DecisionNotAcceptable) <==> Blocked(checks))
      && (Admit(g, inv, m) == Refused(NotPermitted) <==> !Blocked(checks) && inv.decision.body.outcome != Permit)
      && (Admit(g, inv, m) == Refused(ExecutionUnobserved) <==> permit && inv.planned.Some? && m.observed.None?)
      && (Admit(g, inv, m) == Refused(ExecutionMismatch) <==>
            permit && inv.planned.Some? && m.observed.Some? && inv.planned.value != m.observed.value)
  {
    hide VerifyDecision, Delegation.Covers, Delegation.Matches;
    Delegation.CoversExactly(g.tools[inv.tool].resource, inv.request.resource);
    var o := DecisionOptions(g, inv, m);
    ChecksMean(g.env, inv.decision, o);
    StandingMeans(g.env, inv.decision, o);
  }

  /** The other way round: a call with the evaluator's own decision on a permitting policy, for a
      usable principal and within the request's time, is admitted and not refused. */
  lemma HonestCallAdmitted(g: Config, inv: Invocation, m: Moment, decidedAt: int)
    requires inv.tool in g.tools && g.tools[inv.tool].action == inv.request.action
    requires Delegation.Covers(g.tools[inv.tool].resource, inv.request.resource)
    requires inv.request.audience == g.audience && inv.paramsMatch && !NamesDelegation(inv.request) && inv.planned.None?
    requires inv.policy.Some? && inv.facts.Some? && g.env.validPolicy(inv.policy.value)
    requires inv.decision ==
      Signed(DecisionBody(g.env, inv.request, inv.policy.value, inv.facts.value, decidedAt), Pass, Pass, Pass)
    requires Policy.Permits(Policy.Decide(inv.policy.value, DecisionFacts(inv.request, inv.facts.value), g.env.regex))
    requires inv.request.issuedAt - SKEW <= decidedAt <= inv.request.expiresAt && m.now <= inv.request.expiresAt
    requires g.directory.Some? && Principal.Usable(g.directory.value, inv.request.principal, decidedAt, "")
    ensures Admit(g, inv, m) == Admitted
  {
    hide Policy.Decide, DecisionFacts, Principal.Usable, Delegation.Covers;
    DecideThenVerify(g.env, DecisionOptions(g, inv, m), decidedAt, Pass, Pass, Pass);
  }

  // ---------------------------------------------------------------- the interleaved system

  datatype Phase =
    | Consuming   // waiting for the store
    | Running     // the tool was started
    | Completed | Failed | Rejected(reason: Reason) | Errored

  /** An insert that won its key: when it happened, and from when the key's time to live counts
      (the server's time of the insert, or the client's time of the call). */
  datatype Win = Win(time: int, base: int)

  /** One `invoke`: the gateway it was made at, what it saw at the start, whether the store has
      performed its insert, whether that insert won, and whether its tool was started. */
  datatype Call = Call(gate: Config, inv: Invocation, at: Moment, phase: Phase, inserted: bool, won: Option<Win>,
      ran: bool)

  /** The store keeps, per key, from when its time to live counts. Gateways may share it. */
  datatype System = System(clock: int, store: map<string, int>, calls: seq<Call>)

  /** A store that forgets keeps a key for `ttl`; a call waits for it at most `timeout`. Audience
      and nonce name a key, and nothing is assumed about how: two names may well coincide. */
  datatype Store = Store(ttl: Option<nat>, timeout: nat, keyOf: (string, string) -> string)

  datatype Event =
    | Tick(ms: nat)
    | Invoke(gate: Config, inv: Invocation, revoked: set<string>, observed: Option<Execution>)
    | Insert(call: nat, base: int, wins: bool)  // the backend's atomic insert-if-absent
    | Answer(call: nat)                         // its answer reaches the call in time
    | GiveUp(call: nat)                         // timeout or store failure
    | ToolEnds(call: nat, ok: bool)
    | Forget(key: string)

  /** What a call must not share with another that ran. */
  function NonceOf(c: Call): (string, string) {
    (c.inv.request.audience, c.inv.request.nonce)
  }

  function KeyOf(p: Store, c: Call): string {
    p.keyOf(c.inv.request.audience, c.inv.request.nonce)
  }

  /** The key is free: never used, or its time to live is over. */
  predicate Free(p: Store, s: System, key: string) {
    key in s.store ==> p.ttl.Some? && s.clock > s.store[key] + p.ttl.value
  }

  predicate Enabled(p: Store, s: System, e: Event) {
    match e
    case Tick(_) => true
    case Invoke(_, _, _, _) => true
    case Insert(i, base, wins) =>
      && i < |s.calls| && !s.calls[i].inserted && s.calls[i].at.now <= base <= s.clock
      && (s.calls[i].phase == Consuming || s.calls[i].phase == Rejected(StoreUnavailable))
      && (if wins then Free(p, s, KeyOf(p, s.calls[i])) else KeyOf(p, s.calls[i]) in s.store)
    case Answer(i) => i < |s.calls| && s.calls[i].phase == Consuming && s.calls[i].inserted &&
      s.clock <= s.calls[i].at.now + p.timeout
    case GiveUp(i) => i < |s.calls| && s.calls[i].phase == Consuming
    case ToolEnds(i, _) => i < |s.calls| && s.calls[i].phase == Running
    case Forget(key) => key in s.store && Free(p, s, key)
  }

  function Step(p: Store, s: System, e: Event): System
    requires Enabled(p, s, e)
  {
    match e
    case Tick(ms) => s.(clock := s.clock + ms)
    case Invoke(gate, inv, revoked, observed) =>
      var m := Moment(s.clock, revoked, observed);
      var phase := match Admit(gate, inv, m)
                   case Admitted => Consuming
                   case Refused(reason) => Rejected(reason)
                   case Threw => Errored;
      s.(calls := s.calls + [Call(gate, inv, m, phase, false, None, false)])
    case Insert(i, base, wins) =>
      var c := s.calls[i];
      if wins
      then s.(store := s.store[KeyOf(p, c) := base],
        calls := s.calls[i := c.(inserted := true, won := Some(Win(s.clock, base)))])
      else s.(calls := s.calls[i := c.(inserted := true)])
    case Answer(i) =>
      var c := s.calls[i];
      var c' := if c.won.Some? then c.(phase := Running, ran := true) else c.(phase := Rejected(Replayed));
      s.(calls := s.calls[i := c'])
    case GiveUp(i) => s.(calls := s.calls[i := s.calls[i].(phase := Rejected(StoreUnavailable))])
    case ToolEnds(i, ok) => s.(calls := s.calls[i := s.calls[i].(phase := if ok then Completed else Failed)])
    case Forget(key) => s.(store := s.store - {key})
  }

  // ---------------------------------------------------------------- invariant

  /** What holds of each call by itself. */
  ghost predicate CallInv(p: Store, s: System, c: Call) {
    && (c.won.Some? ==> c.inserted && c.at.now <= c.won.value.base <= c.won.value.time <= s.clock)
    && (c.ran ==> c.won.Some? && c.won.value.time <= c.at.now + p.timeout && Admit(c.gate, c.inv, c.at) == Admitted)
    && (c.ran <==> c.phase == Running || c.phase == Completed || c.phase == Failed)
    && (c.phase == Consuming ==> Admit(c.gate, c.inv, c.at) == Admitted)
  }

  /** At this moment a key whose time to live counts from `base` is over; never, if keys are kept for good. */
  ghost predicate Over(p: Store, base: int, moment: int) {
    p.ttl.Some? && moment > base + p.ttl.value
  }

  /** A winner holds its key, or the time to live of its win is over. */
  ghost predicate StoreInv(p: Store, s: System, c: Call) {
    c.won.Some? ==>
      (KeyOf(p, c) in s.store && s.store[KeyOf(p, c)] == c.won.value.base) || Over(p, c.won.value.base, s.clock)
  }

  /** Of two winners of one key, one won after the time to live of the other. */
  ghost predicate PairInv(p: Store, a: Call, b: Call) {
    a.won.Some? && b.won.Some? && KeyOf(p, a) == KeyOf(p, b) ==>
      Over(p, a.won.value.base, b.won.value.time) || Over(p, b.won.value.base, a.won.value.time)
  }

  ghost predicate Inv(p: Store, s: System) {
    && (forall i :: 0 <= i < |s.calls| ==> CallInv(p, s, s.calls[i]) && StoreInv(p, s, s.calls[i]))
    && (forall i, j :: 0 <= i < j < |s.calls| ==> PairInv(p, s.calls[i], s.calls[j]))
  }

  /** A step that changes one call without changing its key or its win keeps the invariant if the call is fine. */
  lemma ReplaceCall(p: Store, s: System, i: nat, c: Call)
    requires Inv(p, s) && i < |s.calls|
    requires c.inv == s.calls[i].inv && c.won == s.calls[i].won && CallInv(p, s, c)
    ensures Inv(p, s.(calls := s.calls[i := c]))
  {
    hide Admit;
    var s' := s.(calls := s.calls[i := c]);
    assert KeyOf(p, c) == KeyOf(p, s.calls[i]);
    assert forall k :: 0 <= k < |s.calls| ==>
      KeyOf(p, s'.calls[k]) == KeyOf(p, s.calls[k]) && s'.calls[k].won == s.calls[k].won;
    assert forall k :: 0 <= k < |s.calls| ==> StoreInv(p, s', s'.calls[k]) == StoreInv(p, s, s.calls[k]);
    assert forall j, k :: 0 <= j < k < |s.calls| ==>
      PairInv(p, s'.calls[j], s'.calls[k]) == PairInv(p, s.calls[j], s.calls[k]);
    assert forall k :: 0 <= k < |s.calls| && k != i ==>
      s'.calls[k] == s.calls[k] && CallInv(p, s', s'.calls[k]) == CallInv(p, s, s.calls[k]);
  }

  lemma WinKeepsInv(p: Store, s: System, i: nat, base: int)
    requires Inv(p, s) && Enabled(p, s, Insert(i, base, true))
    ensures Inv(p, Step(p, s, Insert(i, base, true)))
  {
    hide Admit;
    var s' := Step(p, s, Insert(i, base, true));
    var key := KeyOf(p, s.calls[i]);
    assert CallInv(p, s, s.calls[i]);
    assert s.calls[i].won.None?;
    forall k | 0 <= k < |s.calls| && k != i
      ensures s'.calls[k] == s.calls[k] && CallInv(p, s', s'.calls[k]) && StoreInv(p, s', s'.calls[k])
      ensures PairInv(p, s'.calls[k], s'.calls[i]) && PairInv(p, s'.calls[i], s'.calls[k])
    {
      assert CallInv(p, s, s.calls[k]) && StoreInv(p, s, s.calls[k]);
    }
    forall j, k | 0 <= j < k < |s.calls|
      ensures PairInv(p, s'.calls[j], s'.calls[k])
    {
      assert PairInv(p, s.calls[j], s.calls[k]);
    }
  }

  lemma TickKeepsInv(p: Store, s: System, ms: nat)
    requires Inv(p, s)
    ensures Inv(p, s.(clock := s.clock + ms))
  {
    hide Admit;
    var s' := s.(clock := s.clock + ms);
    forall i | 0 <= i < |s.calls|
      ensures CallInv(p, s', s'.calls[i]) && StoreInv(p, s', s'.calls[i])
    {
      assert CallInv(p, s, s.calls[i]) && StoreInv(p, s, s.calls[i]);
    }
  }

  lemma InvokeKeepsInv(p: Store, s: System, e: Event)
    requires Inv(p, s) && e.Invoke?
    ensures Inv(p, Step(p, s, e))
  {
    hide Admit;
    var s' := Step(p, s, e);
    var n := |s.calls|;
    forall i | 0 <= i < n
      ensures s'.calls[i] == s.calls[i] && CallInv(p, s', s'.calls[i]) && StoreInv(p, s', s'.calls[i]) &&
        PairInv(p, s'.calls[i], s'.calls[n])
    {
      assert CallInv(p, s, s.calls[i]) && StoreInv(p, s, s.calls[i]);
    }
    assert CallInv(p, s', s'.calls[n]) && StoreInv(p, s', s'.calls[n]);
  }

  lemma ForgetKeepsInv(p: Store, s: System, key: string)
    requires Inv(p, s) && Enabled(p, s, Forget(key))
    ensures Inv(p, Step(p, s, Forget(key)))
  {
    hide Admit;
    var s' := Step(p, s, Forget(key));
    forall i | 0 <= i < |s.calls|
      ensures CallInv(p, s', s'.calls[i]) && StoreInv(p, s', s'.calls[i])
    {
      assert CallInv(p, s, s.calls[i]) && StoreInv(p, s, s.calls[i]);
    }
  }

  lemma StepKeepsInv(p: Store, s: System, e: Event)
    requires Inv(p, s) && Enabled(p, s, e)
    ensures Inv(p, Step(p, s, e))
  {
    hide Inv, Admit;
    match e
    case Tick(ms) => TickKeepsInv(p, s, ms);
    case Invoke(_, _, _, _) => InvokeKeepsInv(p, s, e);
    case Forget(key) => ForgetKeepsInv(p, s, key);
    case Insert(i, base, wins) =>
      CallOf(p, s, i);
      if wins {
        WinKeepsInv(p, s, i, base);
      } else {
        ReplaceCall(p, s, i, s.calls[i].(inserted := true));
      }
    case Answer(i) =>
      CallOf(p, s, i);
      ReplaceCall(p, s, i, Step(p, s, e).calls[i]);
    case GiveUp(i) =>
      CallOf(p, s, i);
      ReplaceCall(p, s, i, Step(p, s, e).calls[i]);
    case ToolEnds(i, _) =>
      CallOf(p, s, i);
      ReplaceCall(p, s, i, Step(p, s, e).calls[i]);
  }

  lemma CallOf(p: Store, s: System, i: nat)
    requires Inv(p, s) && i < |s.calls|
    ensures CallInv(p, s, s.calls[i])
  {
  }

  // ---------------------------------------------------------------- runs

  const EMPTY: System := System(0, map[], [])

  predicate IsRun(p: Store, s: System, events: seq<Event>)
    decreases |events|
  {
    events == [] || (Enabled(p, s, events[0]) && IsRun(p, Step(p, s, events[0]), events[1..]))
  }

  function RunFrom(p: Store, s: System, events: seq<Event>): System
    requires IsRun(p, s, events)
    decreases |events|
  {
    if events == [] then s else RunFrom(p, Step(p, s, events[0]), events[1..])
  }

  lemma {:induction false} RunKeepsInv(p: Store, s: System, events: seq<Event>)
    requires Inv(p, s) && IsRun(p, s, events)
    ensures Inv(p, RunFrom(p, s, events))
    decreases |events|
  {
    hide Inv;
    if events != [] {
      StepKeepsInv(p, s, events[0]);
      RunKeepsInv(p, Step(p, s, events[0]), events[1..]);
    }
  }

  /** In every run: a tool that ran satisfied every condition when its call started; and a call confirmed
      `rejected` never ran its tool. */
  lemma RanWasPermitted(p: Store, events: seq<Event>, i: nat)
    requires IsRun(p, EMPTY, events) && i < |RunFrom(p, EMPTY, events).calls|
    ensures var c := RunFrom(p, EMPTY, events).calls[i];
      && (c.ran ==> Admit(c.gate, c.inv, c.at) == Admitted && MayRun(c.gate, c.inv, c.at))
      && (c.phase.Rejected? || c.phase.Errored? ==> !c.ran)
      && (c.phase.Completed? || c.phase.Failed? ==> c.ran)
  {
    hide Admit, MayRun;
    RunKeepsInv(p, EMPTY, events);
    CallOf(p, RunFrom(p, EMPTY, events), i);
    var c := RunFrom(p, EMPTY, events).calls[i];
    AdmitExactly(c.gate, c.inv, c.at);
  }

  /** What each phase of a call stands for: exactly the events that have happened to it. */
  ghost predicate Deserved(c: Call, i: nat, past: seq<Event>) {
    var answered, gaveUp := Answer(i) in past, GiveUp(i) in past;
    var done, broke := ToolEnds(i, true) in past, ToolEnds(i, false) in past;
    && (c.ran <==> answered && c.won.Some?)
    && match c.phase
       case Completed => c.ran && !gaveUp && done && !broke
       case Failed => c.ran && !gaveUp && broke && !done
       case Running => c.ran && !gaveUp && !done && !broke
       case Rejected(StoreUnavailable) => gaveUp && !answered && !done && !broke
       case Rejected(Replayed) => answered && c.inserted && c.won.None? && !gaveUp && !done && !broke
       case Rejected(reason) =>
         Admit(c.gate, c.inv, c.at) == Refused(reason) && !answered && !gaveUp && !done && !broke
       case Errored => Admit(c.gate, c.inv, c.at) == Threw && !answered && !gaveUp && !done && !broke
       case Consuming => Admit(c.gate, c.inv, c.at) == Admitted && !answered && !gaveUp && !done && !broke
  }

  /** Every call is where its events have brought it, and no event is about a call that was not made. */
  ghost predicate AllDeserved(s: System, past: seq<Event>) {
    && (forall i: nat :: i < |s.calls| ==> Deserved(s.calls[i], i, past))
    && (forall e :: e in past && (e.Answer? || e.GiveUp? || e.ToolEnds?) ==> e.call < |s.calls|)
  }

  lemma StepDeserved(p: Store, s: System, past: seq<Event>, e: Event)
    requires Enabled(p, s, e) && AllDeserved(s, past)
    ensures AllDeserved(Step(p, s, e), past + [e])
  {
    hide Admit, Deserved;
    var s', all := Step(p, s, e), past + [e];
    assert forall x :: x in all <==> x in past || x == e;
    forall i: nat | i < |s'.calls|
      ensures Deserved(s'.calls[i], i, all)
    {
      if i < |s.calls| {
        CallDeserved(p, s, past, e, i);
      } else {
        NewDeserved(s'.calls[i], i, all);
      }
    }
  }

  lemma CallDeserved(p: Store, s: System, past: seq<Event>, e: Event, i: nat)
    requires Enabled(p, s, e) && i < |s.calls| && Deserved(s.calls[i], i, past)
    ensures Deserved(Step(p, s, e).calls[i], i, past + [e])
  {
    hide Admit;
    assert forall x :: x in past + [e] <==> x in past || x == e;
    NotOfTheStore(s.calls[i].gate, s.calls[i].inv, s.calls[i].at);
  }

  /** A call that has just been made. */
  lemma NewDeserved(c: Call, i: nat, past: seq<Event>)
    requires !c.ran && c.won.None?
    requires c.phase == match Admit(c.gate, c.inv, c.at)
                        case Admitted => Consuming
                        case Refused(reason) => Rejected(reason)
                        case Threw => Errored
    requires forall e :: e in past && (e.Answer? || e.GiveUp? || e.ToolEnds?) ==> e.call < i
    ensures Deserved(c, i, past)
  {
    hide Admit;
    NotOfTheStore(c.gate, c.inv, c.at);
    assert Answer(i) !in past && GiveUp(i) !in past && ToolEnds(i, true) !in past && ToolEnds(i, false) !in past;
  }

  lemma NotOfTheStore(g: Config, inv: Invocation, m: Moment)
    ensures Admit(g, inv, m) != Refused(Replayed) && Admit(g, inv, m) != Refused(StoreUnavailable)
  {
    hide VerifyDecision;
  }

  lemma {:induction false} RunDeserved(p: Store, s: System, past: seq<Event>, events: seq<Event>)
    requires IsRun(p, s, events) && AllDeserved(s, past)
    ensures AllDeserved(RunFrom(p, s, events), past + events)
    decreases |events|
  {
    hide AllDeserved, Step;
    if events == [] {
      assert past + events == past;
    } else {
      StepDeserved(p, s, past, events[0]);
      RunDeserved(p, Step(p, s, events[0]), past + [events[0]], events[1..]);
      assert past + [events[0]] + events[1..] == past + events;
    }
  }

  /** In every run a call is where its events have brought it: it ran exactly on an answer that its insert won,
      completed or failed exactly as its tool ended, was replayed exactly on an answer that the key was taken,
      unavailable exactly for want of one, and rejected otherwise for its reason, with nothing following. */
  lemma ConfirmationsMean(p: Store, events: seq<Event>, i: nat)
    requires IsRun(p, EMPTY, events) && i < |RunFrom(p, EMPTY, events).calls|
    ensures Deserved(RunFrom(p, EMPTY, events).calls[i], i, events)
  {
    hide Deserved, IsRun, RunFrom;
    RunDeserved(p, EMPTY, [], events);
    assert [] + events == events;
  }

  /** If two calls with one key both ran, the store forgot the key in between: the later request was
      still unexpired, up to the store timeout, after the earlier key's time to live. */
  lemma TwoRunsNeedForgetting(p: Store, events: seq<Event>, i: nat, j: nat)
    requires IsRun(p, EMPTY, events) && i < j < |RunFrom(p, EMPTY, events).calls|
    ensures var calls := RunFrom(p, EMPTY, events).calls; var a, b := calls[i], calls[j];
      a.ran && b.ran && NonceOf(a) == NonceOf(b) ==>
        && p.ttl.Some? && a.won.Some? && b.won.Some?
        && (|| a.won.value.base + p.ttl.value < b.inv.request.expiresAt + p.timeout
            || b.won.value.base + p.ttl.value < a.inv.request.expiresAt + p.timeout)
  {
    hide Admit;
    var s := RunFrom(p, EMPTY, events);
    RunKeepsInv(p, EMPTY, events);
    CallOf(p, s, i);
    CallOf(p, s, j);
    var a, b := s.calls[i], s.calls[j];
    if a.ran && b.ran && NonceOf(a) == NonceOf(b) {
      AdmittedMeans(a.gate, a.inv, a.at);
      AdmittedMeans(b.gate, b.inv, b.at);
      assert PairInv(p, a, b);
    }
  }

  /** At most one execution: over a store that keeps its keys, no two calls with the same audience
      and nonce ever both run, however they interleave. */
  lemma AtMostOnce(p: Store, events: seq<Event>, i: nat, j: nat)
    requires p.ttl.None? && IsRun(p, EMPTY, events)
    requires i < j < |RunFrom(p, EMPTY, events).calls|
    ensures var calls := RunFrom(p, EMPTY, events).calls;
      !(calls[i].ran && calls[j].ran && NonceOf(calls[i]) == NonceOf(calls[j]))
  {
    hide IsRun, RunFrom;
    TwoRunsNeedForgetting(p, events, i, j);
  }

  /** Forgetting is safe: if the time to live covers the time from the first consumption to the
      request's expiry plus the store timeout, the same request never runs twice. */
  lemma ForgettingIsSafe(p: Store, events: seq<Event>, i: nat, j: nat)
    requires p.ttl.Some? && IsRun(p, EMPTY, events)
    requires i < j < |RunFrom(p, EMPTY, events).calls|
    requires var calls := RunFrom(p, EMPTY, events).calls;
      && calls[i].inv.request == calls[j].inv.request
      && forall k :: k in {i, j} && calls[k].won.Some? ==>
           calls[k].won.value.base + p.ttl.value >= calls[k].inv.request.expiresAt + p.timeout
    ensures var calls := RunFrom(p, EMPTY, events).calls; !(calls[i].ran && calls[j].ran)
  {
    hide IsRun, RunFrom;
    TwoRunsNeedForgetting(p, events, i, j);
  }

  /** The same from the earliest time the request is presented: it never runs twice if the time to live is
      at least the time from then to its expiry plus the store timeout. */
  lemma SpanPlusTimeoutIsEnough(p: Store, events: seq<Event>, i: nat, j: nat, from: int)
    requires p.ttl.Some? && IsRun(p, EMPTY, events)
    requires i < j < |RunFrom(p, EMPTY, events).calls|
    requires var calls := RunFrom(p, EMPTY, events).calls; var r := calls[i].inv.request;
      && r == calls[j].inv.request && from <= calls[i].at.now && from <= calls[j].at.now
      && p.ttl.value >= r.expiresAt - from + p.timeout
    ensures var calls := RunFrom(p, EMPTY, events).calls; !(calls[i].ran && calls[j].ran)
  {
    hide IsRun, RunFrom, Admit;
    RunKeepsInv(p, EMPTY, events);
    CallOf(p, RunFrom(p, EMPTY, events), i);
    CallOf(p, RunFrom(p, EMPTY, events), j);
    TwoRunsNeedForgetting(p, events, i, j);
  }

  /** The decision was not made after the call that presents it. */
  predicate Timely(c: Call) {
    c.inv.decision.body.decidedAt <= c.at.now
  }

  /** In configured terms, for decisions that are not dated ahead: a request never runs twice if the time to
      live is at least its validity window plus the minute a decision may predate it plus the store timeout. */
  lemma WindowPlusTimeoutIsEnough(p: Store, events: seq<Event>, i: nat, j: nat)
    requires p.ttl.Some? && IsRun(p, EMPTY, events)
    requires i < j < |RunFrom(p, EMPTY, events).calls|
    requires var calls := RunFrom(p, EMPTY, events).calls; var r := calls[i].inv.request;
      && r == calls[j].inv.request && Timely(calls[i]) && Timely(calls[j])
      && p.ttl.value >= r.expiresAt - r.issuedAt + SKEW + p.timeout
    ensures var calls := RunFrom(p, EMPTY, events).calls; !(calls[i].ran && calls[j].ran)
  {
    hide IsRun, RunFrom, Admit;
    var calls := RunFrom(p, EMPTY, events).calls;
    if calls[i].ran && calls[j].ran {
      RanWasPermitted(p, events, i);
      RanWasPermitted(p, events, j);
      AdmittedMeans(calls[i].gate, calls[i].inv, calls[i].at);
      AdmittedMeans(calls[j].gate, calls[j].inv, calls[j].at);
      SpanPlusTimeoutIsEnough(p, events, i, j, calls[i].inv.request.issuedAt - SKEW);
    }
  }

  /** A request admitted at two moments runs twice in some run whenever the time to live is below the
      time between them plus the timeout, however far below. */
  lemma WindowAloneRunsTwice(g: Config, p: Store, inv: Invocation, first: Moment, last: Moment)
    requires 0 <= first.now <= last.now
    requires p.ttl.Some? && p.ttl.value < last.now - first.now + p.timeout
    requires Admit(g, inv, first) == Admitted && Admit(g, inv, last) == Admitted
    ensures exists events ::
      && IsRun(p, EMPTY, events)
      && var calls := RunFrom(p, EMPTY, events).calls;
         |calls| == 2 && RanAt(calls[0], g, inv, first) && RanAt(calls[1], g, inv, last)
  {
    hide Admit, IsRun, RunFrom;
    var ttl, window := p.ttl.value, last.now - first.now;
    var wait := if ttl < window then 0 else ttl - window + 1;
    var s0 := Step(p, EMPTY, Tick(first.now));
    var s1 := Step(p, s0, Invoke(g, inv, first.revoked, first.observed));
    var s2 := Step(p, s1, Insert(0, first.now, true));
    var s3 := Step(p, s2, Answer(0));
    var s4 := Step(p, s3, Tick(window));
    var s5 := Step(p, s4, Invoke(g, inv, last.revoked, last.observed));
    var s6 := Step(p, s5, Tick(wait));
    var s7 := Step(p, s6, Insert(1, last.now + wait, true));
    var s8 := Step(p, s7, Answer(1));
    RunNil(p, s8);
    var e7 := RunCons(p, s7, Answer(1), []);
    var e6 := RunCons(p, s6, Insert(1, last.now + wait, true), e7);
    var e5 := RunCons(p, s5, Tick(wait), e6);
    var e4 := RunCons(p, s4, Invoke(g, inv, last.revoked, last.observed), e5);
    var e3 := RunCons(p, s3, Tick(window), e4);
    var e2 := RunCons(p, s2, Answer(0), e3);
    var e1 := RunCons(p, s1, Insert(0, first.now, true), e2);
    var e0 := RunCons(p, s0, Invoke(g, inv, first.revoked, first.observed), e1);
    var e := RunCons(p, EMPTY, Tick(first.now), e0);
    assert RunFrom(p, EMPTY, e) == s8;
  }

  ghost predicate RanAt(c: Call, g: Config, inv: Invocation, m: Moment) {
    c.gate == g && c.inv == inv && c.at == m && c.ran
  }

  /** No run of the system has two calls for this request that both ran, with decisions not dated ahead. */
  ghost predicate RunsOnce(p: Store, r: Request) {
    forall events, i, j ::
      IsRun(p, EMPTY, events) && 0 <= i < j < |RunFrom(p, EMPTY, events).calls| ==>
        var calls := RunFrom(p, EMPTY, events).calls;
        calls[i].inv.request == r && calls[j].inv.request == r && Timely(calls[i]) && Timely(calls[j]) ==>
          !(calls[i].ran && calls[j].ran)
  }

  /** The exact time to live: a request that some gateway admits from a minute before its issue to its
      expiry never runs twice if and only if the time to live is at least that span plus the store timeout. */
  lemma TimeToLiveExact(g: Config, p: Store, inv: Invocation, first: Moment, last: Moment)
    requires 0 <= inv.request.issuedAt - SKEW == first.now <= last.now == inv.request.expiresAt
    requires inv.decision.body.decidedAt <= first.now && p.ttl.Some?
    requires Admit(g, inv, first) == Admitted && Admit(g, inv, last) == Admitted
    ensures RunsOnce(p, inv.request) <==> p.ttl.value >= last.now - first.now + p.timeout
  {
    hide Admit, IsRun, RunFrom;
    if p.ttl.value < last.now - first.now + p.timeout {
      WindowAloneRunsTwice(g, p, inv, first, last);
      assert !RunsOnce(p, inv.request);
    } else {
      LongEnough(p, inv.request);
    }
  }

  lemma LongEnough(p: Store, r: Request)
    requires p.ttl.Some? && p.ttl.value >= r.expiresAt - r.issuedAt + SKEW + p.timeout
    ensures RunsOnce(p, r)
  {
    hide IsRun, RunFrom;
    forall events, i, j | IsRun(p, EMPTY, events) && 0 <= i < j < |RunFrom(p, EMPTY, events).calls|
      ensures var calls := RunFrom(p, EMPTY, events).calls;
        calls[i].inv.request == r && calls[j].inv.request == r && Timely(calls[i]) && Timely(calls[j]) ==>
          !(calls[i].ran && calls[j].ran)
    {
      var calls := RunFrom(p, EMPTY, events).calls;
      if calls[i].inv.request == r == calls[j].inv.request && Timely(calls[i]) && Timely(calls[j]) {
        WindowPlusTimeoutIsEnough(p, events, i, j);
      }
    }
  }

  // ---------------------------------------------------------------- a call that is admitted

  const OPEN: Policy.Document := Policy.Document(Policy.Allow, None, [])

  function SampleConfig(env: Env, sig: Delegation.SigOk): Config {
    var robot := Principal.Entry(Principal.Record("robot", "issuer", 0, None, map[]), []);
    Config(env, "bank", map["pay" := Tool("pay", "invoice")], Some(map["robot" := robot]), [], sig)
  }

  function SampleCall(env: Env, issuedAt: nat, expiresAt: nat, decidedAt: nat): Invocation {
    var r := Request("id", "robot", "pay", "invoice", "bank", "nonce", issuedAt, expiresAt, None, "");
    var decision := Signed(DecisionBody(env, r, OPEN, map[], decidedAt), Pass, Pass, Pass);
    Invocation("pay", r, true, None, decision, None, Some(OPEN), Some(map[]), None)
  }

  /** At this gateway this call is admitted at any time up to its expiry, before its issue as well. */
  lemma SampleAdmitted(env: Env, sig: Delegation.SigOk, issuedAt: nat, expiresAt: nat, decidedAt: nat, m: Moment)
    requires env.validPolicy(OPEN) && issuedAt - SKEW <= decidedAt <= expiresAt && m.now <= expiresAt
    ensures Admit(SampleConfig(env, sig), SampleCall(env, issuedAt, expiresAt, decidedAt), m) == Admitted
  {
    hide Admit;
    var g, inv := SampleConfig(env, sig), SampleCall(env, issuedAt, expiresAt, decidedAt);
    assert g.directory.value["robot"].events == [];
    assert Principal.AsOf(g.directory.value, "robot", decidedAt).Known?;
    assert Policy.Contributions(OPEN, OPEN.rules, DecisionFacts(inv.request, map[]), env.regex) == [];
    HonestCallAdmitted(g, inv, m, decidedAt);
  }

  lemma SampleTimes(env: Env, issuedAt: nat, expiresAt: nat, decidedAt: nat)
    ensures var inv := SampleCall(env, issuedAt, expiresAt, decidedAt);
      inv.request.issuedAt == issuedAt && inv.request.expiresAt == expiresAt && inv.decision.body.decidedAt == decidedAt
  {
  }

  /** Hence, of decisions that are not dated ahead: a store is safe for every request valid for at most `window`
      if and only if its time to live is at least `window`, the minute a decision may predate its request,
      and the store timeout together. */
  lemma StoreIsSafeExactly(p: Store, window: nat, env: Env, sig: Delegation.SigOk)
    requires p.ttl.Some? && env.validPolicy(OPEN)
    ensures (forall r: Request :: r.expiresAt - r.issuedAt <= window ==> RunsOnce(p, r))
       <==> p.ttl.value >= window + SKEW + p.timeout
  {
    hide Admit, RunsOnce, SampleCall, SampleConfig;
    var end := SKEW + window;
    var first, last := Moment(0, {}, None), Moment(end, {}, None);
    SampleTimes(env, SKEW, end, 0);
    SampleAdmitted(env, sig, SKEW, end, 0, first);
    SampleAdmitted(env, sig, SKEW, end, 0, last);
    TimeToLiveExact(SampleConfig(env, sig), p, SampleCall(env, SKEW, end, 0), first, last);
    if p.ttl.value >= window + SKEW + p.timeout {
      forall r: Request | r.expiresAt - r.issuedAt <= window
        ensures RunsOnce(p, r)
      {
        LongEnough(p, r);
      }
    }
  }

  /** That decisions are not dated ahead is needed, and no check of the gateway sees to it: whatever the time
      to live, a request valid for a single moment runs twice with a decision dated after the first call. */
  lemma DatedAheadRunsTwice(p: Store, env: Env, sig: Delegation.SigOk)
    requires p.ttl.Some? && env.validPolicy(OPEN)
    ensures exists events ::
      && IsRun(p, EMPTY, events)
      && var calls := RunFrom(p, EMPTY, events).calls;
         && |calls| == 2 && calls[0].inv.request == calls[1].inv.request && calls[0].ran && calls[1].ran
         && calls[0].inv.request.issuedAt == calls[0].inv.request.expiresAt && !Timely(calls[0])
  {
    hide Admit, SampleCall, SampleConfig, IsRun, RunFrom;
    var at := p.ttl.value + 1;
    var first, last := Moment(0, {}, None), Moment(at, {}, None);
    SampleTimes(env, at, at, at);
    SampleAdmitted(env, sig, at, at, at, first);
    SampleAdmitted(env, sig, at, at, at, last);
    WindowAloneRunsTwice(SampleConfig(env, sig), p, SampleCall(env, at, at, at), first, last);
  }

  lemma RunNil(p: Store, s: System)
    ensures IsRun(p, s, []) && RunFrom(p, s, []) == s
  {
  }

  lemma RunCons(p: Store, s: System, e: Event, rest: seq<Event>) returns (events: seq<Event>)
    requires Enabled(p, s, e) && IsRun(p, Step(p, s, e), rest)
    ensures events == [e] + rest && IsRun(p, s, events)
    ensures RunFrom(p, s, events) == RunFrom(p, Step(p, s, e), rest)
  {
    hide Step;
    events := [e] + rest;
    assert events[1..] == rest;
  }

  /** No amplification end to end: if a tool ran for a request naming a delegation, the chain it presented ends in
      that delegation and is a simple path from an allowed root to the requester; every link was genuine at the
      time of the decision and grants the action, the resource and the amount; the last is for this audience. */
  lemma RanWithinDelegation(p: Store, events: seq<Event>, i: nat)
    requires IsRun(p, EMPTY, events) && i < |RunFrom(p, EMPTY, events).calls|
    requires var c := RunFrom(p, EMPTY, events).calls[i];
      c.ran && NamesDelegation(c.inv.request) && (c.inv.links.Some? ==> Delegation.NoHiddenNames(c.inv.links.value))
    ensures var c := RunFrom(p, EMPTY, events).calls[i];
      && c.inv.links.Some? && |c.inv.links.value| > 0 && c.gate.directory.Some?
      && Backed(c.gate, c.inv, c.at.revoked)
  {
    hide Admit, IsRun, RunFrom, Backed, Authorised, ToolFits, PermitHolds, ReplayHolds, Principal.InForce,
      Delegation.NoHiddenNames;
    RanWasPermitted(p, events, i);
    var c := RunFrom(p, EMPTY, events).calls[i];
    AuthorisedBacks(c.gate, c.inv, c.at.revoked);
  }

  ghost predicate Backed(g: Config, inv: Invocation, revoked: set<string>)
    requires inv.links.Some? && |inv.links.value| > 0 && g.directory.Some? && inv.request.delegation.Some?
  {
    var links, r := inv.links.value, inv.request;
    var path, leaf := Delegation.Path(links), links[|links| - 1].body;
    var o := Delegation.Options(g.directory.value, g.roots, inv.decision.body.decidedAt, revoked, 4);
    && leaf.id == r.delegation.value && (leaf.audience == "*" || leaf.audience == r.audience)
    && path[0] in g.roots && path[|links|] == r.principal && Delegation.Distinct(path)
    && forall k :: 0 <= k < |links| ==>
         && links[k].body.delegator == path[k] && links[k].body.delegate == path[k + 1]
         && Delegation.GenuineLink(links[k], o, g.sig)
         && Delegation.Grants(links[k].body.scope, Delegation.Use(r.action, r.resource, inv.amount))
         && (k > 0 ==> links[k].body.expiresAt <= links[k - 1].body.expiresAt)
  }

  lemma AuthorisedBacks(g: Config, inv: Invocation, revoked: set<string>)
    requires inv.links.Some? && g.directory.Some? && inv.request.delegation.Some? &&
      Delegation.NoHiddenNames(inv.links.value)
    requires Authorised(Chain(inv.links.value, g.roots, revoked, inv.amount), g.directory.value, inv.request,
                        inv.decision.body.decidedAt, g.sig)
    ensures |inv.links.value| > 0 && Backed(g, inv, revoked)
  {
    hide Delegation.Genuine, Delegation.Authorises, Delegation.NoHiddenNames, Delegation.GenuineLink, Delegation.Grants,
      Delegation.Path, Delegation.Distinct;
    var links, r := inv.links.value, inv.request;
    var request := Delegation.Request(r.principal, r.audience, Delegation.Use(r.action, r.resource, inv.amount));
    var o := Delegation.Options(g.directory.value, g.roots, inv.decision.body.decidedAt, revoked, 4);
    Delegation.AuthorisesExactly(links, request, o, g.sig);
    Delegation.NoAmplification(links, request, o, g.sig);
  }

  /** If the policy and facts were sent along, a tool that ran was permitted by that very policy on
      those facts; and where the policy leaves unknowns at `defer` or stricter, on any completion of them. */
  lemma RanIsReplayable(p: Store, events: seq<Event>, i: nat, full: Policy.Facts)
    requires IsRun(p, EMPTY, events) && i < |RunFrom(p, EMPTY, events).calls|
    requires var c := RunFrom(p, EMPTY, events).calls[i];
      && c.ran && c.inv.policy.Some? && c.inv.facts.Some?
      && var policy := c.inv.policy.value;
         && Policy.PolicyExistsKnown(policy, DecisionFacts(c.inv.request, c.inv.facts.value))
         && (forall r :: r in policy.rules ==> Policy.Severity(Policy.OnUnknown(policy, r)) >= 2)
         && Policy.Completes(DecisionFacts(c.inv.request, c.inv.facts.value), full)
    ensures var c := RunFrom(p, EMPTY, events).calls[i]; var inv := c.inv;
      var d := Policy.Decide(inv.policy.value, DecisionFacts(inv.request, inv.facts.value), c.gate.env.regex);
      Policy.Permits(d) && Policy.Decide(inv.policy.value, full, c.gate.env.regex) == d
  {
    hide IsRun, RunFrom, Admit, Policy.Decide, DecisionFacts, Policy.Completes, Policy.PolicyExistsKnown,
      Policy.OnUnknown;
    RanWasPermitted(p, events, i);
    var c := RunFrom(p, EMPTY, events).calls[i];
    AdmittedReplays(c.gate, c.inv, c.at);
    Policy.PermitSurvives(c.inv.policy.value, DecisionFacts(c.inv.request, c.inv.facts.value), full, c.gate.env.regex);
  }

  lemma AdmittedReplays(g: Config, inv: Invocation, m: Moment)
    requires Admit(g, inv, m) == Admitted && inv.policy.Some? && inv.facts.Some?
    ensures Policy.Permits(Policy.Decide(inv.policy.value, DecisionFacts(inv.request, inv.facts.value), g.env.regex))
  {
    hide Policy.Decide, DecisionFacts, DelegationCheck, PrincipalCheck, Freshness;
    ReproducedPermit(g.env, inv.decision, DecisionOptions(g, inv, m));
  }
}
