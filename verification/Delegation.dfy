/**
  Delegation chains (src/authz/delegation.ts:29-144): scope patterns, the narrowing test between
  links, and the loop that walks a chain from its root to the requester.
 */
module Delegation {
  import opened Basics
  import opened Principal

  datatype Scope = Scope(actions: seq<string>, resources: seq<string>, maxAmount: Option<int>)

  datatype Grant = Grant(
    id: string, delegator: string, delegate: string, scope: Scope, audience: string,
    notBefore: int, expiresAt: int, parent: Option<string>, issuedAt: int)

  datatype Signed = Signed(body: Grant, keyId: string)

  /** Integrity and signature of a grant under a given key. */
  type SigOk = (Signed, Key) -> bool

  // ---------------------------------------------------------------- patterns

  predicate Wildcard(p: string) {
    |p| > 0 && p[|p| - 1] == '*'
  }

  function Prefix(p: string): string
    requires Wildcard(p)
  {
    p[..|p| - 1]
  }

  /** Does a pattern cover one concrete resource id? */
  predicate Covers(pattern: string, value: string) {
    if Wildcard(pattern) then Prefix(pattern) <= value else pattern == value
  }

  /** Is pattern r within pattern p? */
  predicate Within(r: string, p: string) {
    if !Wildcard(p) then !Wildcard(r) && r == p
    else Prefix(p) <= (if Wildcard(r) then Prefix(r) else r)
  }

  /** A pattern stands for itself, or for everything that starts with what precedes its final star. */
  ghost predicate Matches(pattern: string, value: string) {
    || (pattern == value && (pattern == "" || pattern[|pattern| - 1] != '*'))
    || exists prefix :: pattern == prefix + "*" && prefix <= value
  }

  lemma CoversExactly(pattern: string, value: string)
    ensures Covers(pattern, value) <==> Matches(pattern, value)
  {
    if Wildcard(pattern) {
      assert pattern == Prefix(pattern) + "*";
    }
    if prefix :| pattern == prefix + "*" {
      assert Prefix(pattern) == prefix;
    }
  }

  /** The syntactic test is exactly containment of what the patterns cover. */
  lemma WithinIsContainment(r: string, p: string)
    ensures Within(r, p) <==> forall v :: Covers(r, v) ==> Covers(p, v)
  {
    if forall v :: Covers(r, v) ==> Covers(p, v) {
      if Wildcard(r) {
        assert Covers(r, Prefix(r)) && Covers(r, Prefix(r) + "x");
        assert Covers(p, Prefix(r)) && Covers(p, Prefix(r) + "x");
      } else {
        assert Covers(r, r);
      }
    }
  }

  // ---------------------------------------------------------------- narrowing

  /** The first element that fails the test. */
  function FirstNot(xs: seq<string>, test: string -> bool): (r: Option<string>)
    ensures r.None? <==> forall x :: x in xs ==> test(x)
    ensures r.Some? ==> r.value in xs && !test(r.value)
  {
    if xs == [] then None
    else
      assert xs == [xs[0]] + xs[1..];
      if !test(xs[0]) then Some(xs[0]) else FirstNot(xs[1..], test)
  }

  function ExtraAction(child: Scope, parent: Scope): Option<string> {
    FirstNot(child.actions, a => a in parent.actions)
  }

  function ExtraResource(child: Scope, parent: Scope): Option<string> {
    FirstNot(child.resources, r => exists i :: 0 <= i < |parent.resources| && Within(r, parent.resources[i]))
  }

  /** A found name only counts when it is not the empty string, which the source takes for "none". */
  predicate Found(x: Option<string>) {
    x.Some? && x.value != ""
  }

  predicate AmountExceeds(child: Option<int>, parent: Option<int>) {
    parent.Some? && (child.None? || child.value > parent.value)
  }

  /** scopeExcess: is there a reason why child is not within parent? */
  predicate Excess(child: Scope, parent: Scope) {
    || Found(ExtraAction(child, parent))
    || Found(ExtraResource(child, parent))
    || AmountExceeds(child.maxAmount, parent.maxAmount)
  }

  /** A concrete use of authority. */
  datatype Use = Use(action: string, resource: string, amount: Option<int>)

  predicate Allows(s: Scope, u: Use) {
    && u.action in s.actions
    && (exists i :: 0 <= i < |s.resources| && Covers(s.resources[i], u.resource))
    && (s.maxAmount.Some? ==> u.amount.Some? && u.amount.value <= s.maxAmount.value)
  }

  /** The use spelled out: a listed action, a matching resource, and where there is a ceiling an amount
      that keeps to it. */
  ghost predicate Grants(s: Scope, u: Use) {
    && (exists i :: 0 <= i < |s.actions| && s.actions[i] == u.action)
    && (exists i :: 0 <= i < |s.resources| && Matches(s.resources[i], u.resource))
    && (s.maxAmount.None? || (u.amount.Some? && u.amount.value <= s.maxAmount.value))
  }

  lemma AllowsExactly(s: Scope, u: Use)
    ensures Allows(s, u) <==> Grants(s, u)
  {
    hide Covers, Matches;
    forall i | 0 <= i < |s.resources|
      ensures Covers(s.resources[i], u.resource) <==> Matches(s.resources[i], u.resource)
    {
      CoversExactly(s.resources[i], u.resource);
    }
  }

  /** Every name not in the parent comes at or after an empty one that is not, and the parent's ceiling, if
      there is one, is kept. */
  ghost predicate NoVisibleExcess(child: Scope, parent: Scope) {
    && (forall i :: 0 <= i < |child.actions| && child.actions[i] !in parent.actions ==>
          exists j :: 0 <= j <= i && child.actions[j] == "" && "" !in parent.actions)
    && (forall i :: 0 <= i < |child.resources| && !WithinSome(child.resources[i], parent) ==>
          exists j :: 0 <= j <= i && child.resources[j] == "" && !WithinSome("", parent))
    && (parent.maxAmount.None? || (child.maxAmount.Some? && child.maxAmount.value <= parent.maxAmount.value))
  }

  ghost predicate WithinSome(r: string, parent: Scope) {
    exists i :: 0 <= i < |parent.resources| && Within(r, parent.resources[i])
  }

  /** The first element that fails the test is a given one exactly if nothing before it fails. */
  lemma {:induction false} FirstNotIs(xs: seq<string>, test: string -> bool, x: string)
    ensures FirstNot(xs, test) == Some(x)
       <==> exists j :: 0 <= j < |xs| && xs[j] == x && !test(x) && forall i :: 0 <= i < j ==> test(xs[i])
    decreases |xs|
  {
    if xs != [] {
      var tail := xs[1..];
      FirstNotIs(tail, test, x);
      if j :| 0 <= j < |tail| && tail[j] == x && !test(x) && forall i :: 0 <= i < j ==> test(tail[i]) {
        if test(xs[0]) {
          assert xs[j + 1] == x && forall i :: 0 <= i < j + 1 ==> test(xs[i]) by {
            assert forall i :: 0 < i < j + 1 ==> xs[i] == tail[i - 1];
          }
        }
      }
      if j :| 0 <= j < |xs| && xs[j] == x && !test(x) && forall i :: 0 <= i < j ==> test(xs[i]) {
        if j > 0 {
          assert tail[j - 1] == x && forall i :: 0 <= i < j - 1 ==> tail[i] == xs[i + 1];
        }
      }
    }
  }

  /** Nothing is found, or the empty name, exactly if every failing one comes at or after a failing empty one. */
  lemma NotFound(xs: seq<string>, test: string -> bool)
    ensures !Found(FirstNot(xs, test))
       <==> forall i :: 0 <= i < |xs| && !test(xs[i]) ==> exists j :: 0 <= j <= i && xs[j] == "" && !test("")
  {
    var r := FirstNot(xs, test);
    if r.Some? {
      FirstNotIs(xs, test, r.value);
      var k :| 0 <= k < |xs| && xs[k] == r.value && !test(r.value) && forall i :: 0 <= i < k ==> test(xs[i]);
      if r.value == "" {
        forall i | 0 <= i < |xs| && !test(xs[i])
          ensures exists j :: 0 <= j <= i && xs[j] == "" && !test("")
        {
          assert k <= i;
        }
      }
    }
  }

  lemma ActionsFound(child: Scope, parent: Scope)
    ensures !Found(ExtraAction(child, parent))
       <==> forall i :: 0 <= i < |child.actions| && child.actions[i] !in parent.actions ==>
              exists j :: 0 <= j <= i && child.actions[j] == "" && "" !in parent.actions
  {
    var test := a => a in parent.actions;
    hide FirstNot, Found;
    NotFound(child.actions, test);
    assert ExtraAction(child, parent) == FirstNot(child.actions, test);
  }

  lemma ResourcesFound(child: Scope, parent: Scope)
    ensures !Found(ExtraResource(child, parent))
       <==> forall i :: 0 <= i < |child.resources| && !WithinSome(child.resources[i], parent) ==>
              exists j :: 0 <= j <= i && child.resources[j] == "" && !WithinSome("", parent)
  {
    var test := r => exists i :: 0 <= i < |parent.resources| && Within(r, parent.resources[i]);
    hide FirstNot, Found, Within;
    NotFound(child.resources, test);
    assert ExtraResource(child, parent) == FirstNot(child.resources, test);
    assert forall r :: test(r) <==> WithinSome(r, parent);
  }

  /** What scopeExcess reports, without its search. */
  lemma ExcessExactly(child: Scope, parent: Scope)
    ensures !Excess(child, parent) <==> NoVisibleExcess(child, parent)
  {
    hide ExtraAction, ExtraResource, Found, WithinSome;
    ActionsFound(child, parent);
    ResourcesFound(child, parent);
  }

  ghost predicate Narrows(child: Scope, parent: Scope) {
    forall u :: Allows(child, u) ==> Allows(parent, u)
  }

  /** An empty name of the child is no extra: the parent has it too, or the child allows nothing at all. */
  predicate EmptyNameShared(child: Scope, parent: Scope) {
    || child.actions == []
    || child.resources == []
    || (&& ("" in child.actions ==> "" in parent.actions)
        && ("" in child.resources ==> exists i :: 0 <= i < |parent.resources| && Within("", parent.resources[i])))
  }

  /** If no excess is found and an empty name is no extra, nothing is one. */
  lemma NothingHidden(child: Scope, parent: Scope)
    requires !Excess(child, parent) && EmptyNameShared(child, parent) && child.actions != [] && child.resources != []
    ensures forall a :: a in child.actions ==> a in parent.actions
    ensures forall r :: r in child.resources ==>
      exists i :: 0 <= i < |parent.resources| && Within(r, parent.resources[i])
  {
    assert ExtraAction(child, parent) != Some("");
    assert ExtraResource(child, parent) != Some("");
  }

  /** Every scope with an action and a resource allows some use of each of them. */
  lemma SomeUse(s: Scope, action: string, i: nat) returns (u: Use)
    requires action in s.actions && i < |s.resources|
    ensures u.action == action && Allows(s, u) && Covers(s.resources[i], u.resource)
    ensures !Wildcard(s.resources[i]) ==> u.resource == s.resources[i]
  {
    var p := s.resources[i];
    u := Use(action, if Wildcard(p) then Prefix(p) else p, s.maxAmount);
    assert Covers(p, u.resource);
  }

  /** No excess found means that the parent allows whatever the child allows, exactly when an empty
      name of the child is no extra. */
  lemma NoExcessNarrows(child: Scope, parent: Scope)
    requires !Excess(child, parent)
    ensures Narrows(child, parent) <==> EmptyNameShared(child, parent)
  {
    if EmptyNameShared(child, parent) {
      forall u | Allows(child, u) ensures Allows(parent, u) {
        SharedNarrows(child, parent, u);
      }
    }
    if Narrows(child, parent) {
      NarrowShares(child, parent);
    }
  }

  lemma NarrowShares(child: Scope, parent: Scope)
    requires Narrows(child, parent)
    ensures EmptyNameShared(child, parent)
  {
    if child.actions != [] && child.resources != [] {
      if "" in child.actions {
        var u := SomeUse(child, "", 0);
        assert Allows(parent, u);
      }
      if "" in child.resources {
        var i: nat :| i < |child.resources| && child.resources[i] == "";
        var u := SomeUse(child, child.actions[0], i);
        assert Allows(parent, u);
        var j :| 0 <= j < |parent.resources| && Covers(parent.resources[j], "");
        assert Within("", parent.resources[j]);
      }
    }
  }

  lemma SharedNarrows(child: Scope, parent: Scope, u: Use)
    requires !Excess(child, parent) && EmptyNameShared(child, parent) && Allows(child, u)
    ensures Allows(parent, u)
  {
    NothingHidden(child, parent);
    var i :| 0 <= i < |child.resources| && Covers(child.resources[i], u.resource);
    assert child.resources[i] in child.resources;
    var j :| 0 <= j < |parent.resources| && Within(child.resources[i], parent.resources[j]);
    WithinIsContainment(child.resources[i], parent.resources[j]);
  }

  /** An empty name hides whatever extra follows it: the first child below gains the action b, the
      second the resource b. */
  lemma EmptyNameHidesExcess(a: string, b: string)
    requires a != b && a != "" && !Wildcard(a) && !Wildcard(b)
    ensures var parent, child, u := Scope([a], ["*"], None), Scope(["", b], ["*"], None), Use(b, "r", None);
      !Excess(child, parent) && Allows(child, u) && !Allows(parent, u)
    ensures var parent, child, u := Scope(["do"], [a], None), Scope(["do"], ["", b], None), Use("do", b, None);
      !Excess(child, parent) && Allows(child, u) && !Allows(parent, u)
  {
    GainsAction(a, b);
    GainsResource(a, b);
  }

  lemma GainsAction(a: string, b: string)
    requires a != b && a != ""
    ensures var parent, child, u := Scope([a], ["*"], None), Scope(["", b], ["*"], None), Use(b, "r", None);
      !Excess(child, parent) && Allows(child, u) && !Allows(parent, u)
  {
    var parent, child := Scope([a], ["*"], None), Scope(["", b], ["*"], None);
    assert child.actions[0] == "" && child.actions[1] == b && "" !in parent.actions;
    assert ExtraAction(child, parent) == Some("");
    assert Wildcard("*") && Prefix("*") == "" && Within("*", "*");
    assert parent.resources[0] == "*" && child.resources[0] == "*";
    assert Covers(child.resources[0], "r");
  }

  lemma GainsResource(a: string, b: string)
    requires a != b && a != "" && !Wildcard(a) && !Wildcard(b)
    ensures var parent, child, u := Scope(["do"], [a], None), Scope(["do"], ["", b], None), Use("do", b, None);
      !Excess(child, parent) && Allows(child, u) && !Allows(parent, u)
  {
    var parent, child := Scope(["do"], [a], None), Scope(["do"], ["", b], None);
    assert parent.resources[0] == a && child.resources[0] == "" && child.resources[1] == b;
    assert ExtraAction(child, parent).None?;
    assert !exists i :: 0 <= i < |parent.resources| && Within(child.resources[0], parent.resources[i]);
    assert ExtraResource(child, parent) == Some("");
    assert Covers(child.resources[1], b);
  }

  // ---------------------------------------------------------------- chains

  datatype Request = Request(requester: string, audience: string, use: Use)

  datatype Options = Options(directory: Directory, roots: seq<string>, at: int, revoked: set<string>, maxDepth: nat)

  datatype Reason =
    | NoDelegation | TooDeep | Cycle | KeyNotBound | BadSignature | BadPrincipal | RevokedLink | NotYetValid | Expired
    | BrokenChain | UntrustedRoot | Amplification | WrongDelegate | WrongAudience | ScopeExceeded

  datatype Verdict = Pass | Fail(reason: Reason)

  /** What is checked of one link by itself. */
  predicate LinkSound(s: Signed, o: Options, sig: SigOk) {
    var d := s.body;
    var key := KeyAt(o.directory, d.delegator, s.keyId, d.issuedAt);
    && key.Some? && sig(s, key.value)
    && Usable(o.directory, d.delegator, d.issuedAt, "")
    && Usable(o.directory, d.delegator, o.at, "")
    && Usable(o.directory, d.delegate, o.at, "")
    && d.id !in o.revoked
    && d.notBefore <= o.at <= d.expiresAt
  }

  predicate RootSound(d: Grant, o: Options) {
    (d.parent.Some? ==> d.parent.value == "") && d.delegator in o.roots
  }

  /** A link continues the one before it and does not exceed it. */
  predicate Continues(d: Grant, p: Grant) {
    d.parent == Some(p.id) && d.delegator == p.delegate && !Excess(d.scope, p.scope) && d.expiresAt <= p.expiresAt
  }

  predicate LeafSound(d: Grant, r: Request) {
    && d.delegate == r.requester
    && (d.audience == "*" || d.audience == r.audience)
    && Allows(d.scope, r.use)
  }

  /** Principals along the chain: the root's delegator, then every delegate. */
  function Path(chain: seq<Signed>): seq<string>
    requires |chain| > 0
  {
    [chain[0].body.delegator] + seq(|chain|, i requires 0 <= i < |chain| => chain[i].body.delegate)
  }

  predicate Distinct(xs: seq<string>) {
    forall i, j :: 0 <= i < j < |xs| ==> xs[i] != xs[j]
  }

  predicate LinksSound(chain: seq<Signed>, n: nat, o: Options, sig: SigOk) {
    && n <= |chain|
    && (forall i :: 0 <= i < n ==> LinkSound(chain[i], o, sig))
    && (n > 0 ==> RootSound(chain[0].body, o))
    && (forall i :: 0 < i < n ==> Continues(chain[i].body, chain[i - 1].body))
  }

  /** No id and no principal occurs twice among the first n links. */
  predicate Acyclic(chain: seq<Signed>, n: nat) {
    && n <= |chain|
    && (forall i, j :: 0 <= i < j < n ==> chain[i].body.id != chain[j].body.id)
    && (forall i, j :: 0 <= i < j < n ==> chain[i].body.delegate != chain[j].body.delegate)
    && (forall i :: 0 <= i < n ==> chain[i].body.delegate != chain[0].body.delegator)
  }

  /** What a passing verdict means. */
  predicate Authorises(chain: seq<Signed>, r: Request, o: Options, sig: SigOk) {
    && 0 < |chain| <= o.maxDepth
    && Acyclic(chain, |chain|)
    && LinksSound(chain, |chain|, o, sig)
    && LeafSound(chain[|chain| - 1].body, r)
  }

  /** One link, spelled out: signed with a key that its delegator held when it was issued; the delegator in force
      then and now, the delegate now; neither revoked nor outside its time. */
  ghost predicate GenuineLink(s: Signed, o: Options, sig: SigOk) {
    && (exists key :: HoldsKey(o.directory, s.body.delegator, s.keyId, s.body.issuedAt, key) && sig(s, key))
    && InForce(o.directory, s.body.delegator, s.body.issuedAt)
    && InForce(o.directory, s.body.delegator, o.at)
    && InForce(o.directory, s.body.delegate, o.at)
    && s.body.id !in o.revoked && s.body.notBefore <= o.at && o.at <= s.body.expiresAt
  }

  /** A link takes up where the one before it ends, shows no excess over it and does not outlive it. */
  ghost predicate TakesUp(d: Grant, p: Grant) {
    && d.parent == Some(p.id) && d.delegator == p.delegate && d.expiresAt <= p.expiresAt
    && NoVisibleExcess(d.scope, p.scope)
  }

  /** A chain, spelled out: not empty nor too deep, every link genuine, from an allowed root without a parent, each
      link taking up the one before, no id and no principal twice, to the requester, for this audience and use. */
  ghost predicate Genuine(chain: seq<Signed>, r: Request, o: Options, sig: SigOk) {
    && 1 <= |chain| <= o.maxDepth
    && (forall i :: 0 <= i < |chain| ==> GenuineLink(chain[i], o, sig))
    && chain[0].body.delegator in o.roots && (chain[0].body.parent == None || chain[0].body.parent == Some(""))
    && (forall i :: 1 <= i < |chain| ==> TakesUp(chain[i].body, chain[i - 1].body))
    && (forall i, j :: 0 <= i < j < |chain| ==> chain[i].body.id != chain[j].body.id)
    && Distinct(Path(chain))
    && var leaf := chain[|chain| - 1].body;
       && leaf.delegate == r.requester && (leaf.audience == "*" || leaf.audience == r.audience)
       && Grants(leaf.scope, r.use)
  }

  lemma LinkExactly(s: Signed, o: Options, sig: SigOk)
    ensures LinkSound(s, o, sig) <==> GenuineLink(s, o, sig)
  {
    hide Usable, KeyAt, InForce, HoldsKey;
    var d := s.body;
    UsableExactly(o.directory, d.delegator, d.issuedAt, "");
    UsableExactly(o.directory, d.delegator, o.at, "");
    UsableExactly(o.directory, d.delegate, o.at, "");
    forall key
      ensures KeyAt(o.directory, d.delegator, s.keyId, d.issuedAt) == Some(key)
         <==> HoldsKey(o.directory, d.delegator, s.keyId, d.issuedAt, key)
    {
      KeyAtExactly(o.directory, d.delegator, s.keyId, d.issuedAt, key);
    }
  }

  lemma ContinuesExactly(d: Grant, p: Grant)
    ensures Continues(d, p) <==> TakesUp(d, p)
  {
    hide Excess, NoVisibleExcess;
    ExcessExactly(d.scope, p.scope);
  }

  /** The checks accept exactly the genuine chains. */
  lemma AuthorisesExactly(chain: seq<Signed>, r: Request, o: Options, sig: SigOk)
    ensures Authorises(chain, r, o, sig) <==> Genuine(chain, r, o, sig)
  {
    hide LinkSound, GenuineLink, Continues, TakesUp, Allows, Grants, Path, Distinct;
    if 1 <= |chain| {
      AllowsExactly(chain[|chain| - 1].body.scope, r.use);
      DistinctPath(chain);
      forall i | 0 <= i < |chain|
        ensures LinkSound(chain[i], o, sig) <==> GenuineLink(chain[i], o, sig)
        ensures i > 0 ==> (Continues(chain[i].body, chain[i - 1].body) <==> TakesUp(chain[i].body, chain[i - 1].body))
      {
        LinkExactly(chain[i], o, sig);
        if i > 0 {
          ContinuesExactly(chain[i].body, chain[i - 1].body);
        }
      }
    }
  }

  /** What a reason given for a link says about it. */
  ghost predicate LinkFails(chain: seq<Signed>, i: nat, o: Options, sig: SigOk, reason: Reason)
    requires i < |chain|
  {
    var s, d := chain[i], chain[i].body;
    match reason
    case Cycle =>
      || d.delegate == chain[0].body.delegator
      || exists j :: 0 <= j < i && (chain[j].body.id == d.id || chain[j].body.delegate == d.delegate)
    case KeyNotBound => forall key :: !HoldsKey(o.directory, d.delegator, s.keyId, d.issuedAt, key)
    case BadSignature => exists key :: HoldsKey(o.directory, d.delegator, s.keyId, d.issuedAt, key) && !sig(s, key)
    case BadPrincipal => !(&& InForce(o.directory, d.delegator, d.issuedAt) && InForce(o.directory, d.delegator, o.at)
                           && InForce(o.directory, d.delegate, o.at))
    case RevokedLink => d.id in o.revoked
    case NotYetValid => o.at < d.notBefore
    case Expired => d.expiresAt < o.at
    case BrokenChain =>
      if i == 0 then d.parent != None && d.parent != Some("")
      else d.parent != Some(chain[i - 1].body.id) || d.delegator != chain[i - 1].body.delegate
    case UntrustedRoot => i == 0 && d.delegator !in o.roots
    case Amplification =>
      i > 0 && (!NoVisibleExcess(d.scope, chain[i - 1].body.scope) || d.expiresAt > chain[i - 1].body.expiresAt)
    case _ => false
  }

  /** What a reason given for the last link says about the request. */
  ghost predicate LeafFails(leaf: Grant, r: Request, reason: Reason) {
    match reason
    case WrongDelegate => leaf.delegate != r.requester
    case WrongAudience => leaf.audience != "*" && leaf.audience != r.audience
    case ScopeExceeded => !Grants(leaf.scope, r.use)
    case _ => false
  }

  /** A reason is that of the first link that fails, or of the request once every link is genuine. */
  ghost predicate Blamed(chain: seq<Signed>, r: Request, o: Options, sig: SigOk, reason: Reason) {
    || (exists i: nat :: i < |chain| && LinkFails(chain, i, o, sig, reason) && GenuineUpTo(chain, i, o, sig))
    || (chain != [] && GenuineUpTo(chain, |chain|, o, sig) && LeafFails(chain[|chain| - 1].body, r, reason))
  }

  ghost predicate GenuineUpTo(chain: seq<Signed>, n: nat, o: Options, sig: SigOk) {
    n <= |chain| && forall i :: 0 <= i < n ==> GenuineLink(chain[i], o, sig)
  }

  lemma SoundIsGenuine(chain: seq<Signed>, n: nat, o: Options, sig: SigOk)
    requires n <= |chain| && LinksSound(chain, n, o, sig)
    ensures GenuineUpTo(chain, n, o, sig)
  {
    hide LinkSound, GenuineLink, Continues, RootSound;
    forall i | 0 <= i < n
      ensures GenuineLink(chain[i], o, sig)
    {
      LinkExactly(chain[i], o, sig);
    }
  }

  lemma DistinctPath(chain: seq<Signed>)
    requires |chain| > 0
    ensures Distinct(Path(chain))
       <==> (forall i, j :: 0 <= i < j < |chain| ==> chain[i].body.delegate != chain[j].body.delegate)
            && forall i :: 0 <= i < |chain| ==> chain[i].body.delegate != chain[0].body.delegator
  {
    var path := Path(chain);
    assert forall i :: 0 <= i < |chain| ==> path[i + 1] == chain[i].body.delegate;
    if Distinct(path) {
      forall i, j | 0 <= i < j < |chain|
        ensures chain[i].body.delegate != chain[j].body.delegate
      {
        assert path[i + 1] != path[j + 1];
      }
      forall i | 0 <= i < |chain|
        ensures chain[i].body.delegate != chain[0].body.delegator
      {
        assert path[0] != path[i + 1];
      }
    } else {
      var i, j :| 0 <= i < j < |path| && path[i] == path[j];
      assert path[j] == chain[j - 1].body.delegate;
      if i > 0 {
        assert path[i] == chain[i - 1].body.delegate;
      }
    }
  }

  function IdsOf(chain: seq<Signed>, n: nat): set<string>
    requires n <= |chain|
  {
    set j | 0 <= j < n :: chain[j].body.id
  }

  function PeopleOf(chain: seq<Signed>, n: nat): set<string>
    requires n <= |chain| && |chain| > 0
  {
    {chain[0].body.delegator} + set j | 0 <= j < n :: chain[j].body.delegate
  }

  lemma SeenStep(chain: seq<Signed>, i: nat)
    requires i < |chain|
    ensures IdsOf(chain, i + 1) == IdsOf(chain, i) + {chain[i].body.id}
    ensures PeopleOf(chain, i + 1) == PeopleOf(chain, i) + {chain[i].body.delegate}
  {
  }

  lemma AcyclicStep(chain: seq<Signed>, i: nat)
    requires i < |chain|
    ensures Acyclic(chain, i + 1)
       <==> Acyclic(chain, i) && chain[i].body.id !in IdsOf(chain, i) && chain[i].body.delegate !in PeopleOf(chain, i)
  {
  }

  /** Failing at one link is failing for good. */
  lemma Monotone(chain: seq<Signed>, r: Request, o: Options, sig: SigOk, i: nat)
    requires i < |chain| && Authorises(chain, r, o, sig)
    ensures Acyclic(chain, i + 1) && LinksSound(chain, i + 1, o, sig)
  {
    hide LinkSound, Continues, RootSound;
  }

  lemma LinksStep(chain: seq<Signed>, o: Options, sig: SigOk, i: nat)
    requires i < |chain|
    ensures LinksSound(chain, i + 1, o, sig)
       <==> LinksSound(chain, i, o, sig) && LinkSound(chain[i], o, sig)
            && (if i == 0 then RootSound(chain[0].body, o) else Continues(chain[i].body, chain[i - 1].body))
  {
    hide LinkSound, Continues, RootSound;
  }

  /** The walk from the root, with the two sets that catch cycles. */
  method VerifyDelegationChain(chain: seq<Signed>, r: Request, o: Options, sig: SigOk) returns (v: Verdict)
    ensures v == Pass <==> Authorises(chain, r, o, sig)
    ensures v == Pass <==> Genuine(chain, r, o, sig)
    ensures v == Fail(NoDelegation) <==> |chain| == 0
    ensures v == Fail(TooDeep) <==> 0 < |chain| && |chain| > o.maxDepth
    ensures v.Fail? && 0 < |chain| <= o.maxDepth ==> Blamed(chain, r, o, sig, v.reason)
  {
    hide GenuineUpTo, LeafFails, Genuine, Acyclic, LinksSound, LinkSound, Continues, RootSound, LeafSound, IdsOf,
      PeopleOf;
    AuthorisesExactly(chain, r, o, sig);
    if |chain| == 0 {
      return Fail(NoDelegation);
    }
    if |chain| > o.maxDepth {
      return Fail(TooDeep);
    }
    var seenIds: set<string> := {};
    var seenPrincipals := {chain[0].body.delegator};
    SeenNone(chain, o, sig);
    for i := 0 to |chain|
      invariant seenIds == IdsOf(chain, i) && seenPrincipals == PeopleOf(chain, i)
      invariant Acyclic(chain, i) && LinksSound(chain, i, o, sig)
    {
      var s := chain[i];
      var d := s.body;
      SeenStep(chain, i);
      AcyclicStep(chain, i);
      LinksStep(chain, o, sig, i);
      if Authorises(chain, r, o, sig) {
        Monotone(chain, r, o, sig, i);
      }
      SoundIsGenuine(chain, i, o, sig);
      if d.id in seenIds || d.delegate in seenPrincipals {
        SeenBefore(chain, i, o, sig);
        return Fail(Cycle);
      }
      seenIds := seenIds + {d.id};
      seenPrincipals := seenPrincipals + {d.delegate};
      var link := VerifyLink(chain, i, o, sig);
      if link.Fail? {
        return link;
      }
    }
    SoundIsGenuine(chain, |chain|, o, sig);
    v := VerifyLeaf(chain[|chain| - 1].body, r);
  }

  lemma SeenBefore(chain: seq<Signed>, i: nat, o: Options, sig: SigOk)
    requires i < |chain| && (chain[i].body.id in IdsOf(chain, i) || chain[i].body.delegate in PeopleOf(chain, i))
    ensures LinkFails(chain, i, o, sig, Cycle)
  {
  }

  lemma SeenNone(chain: seq<Signed>, o: Options, sig: SigOk)
    requires |chain| > 0
    ensures IdsOf(chain, 0) == {} && PeopleOf(chain, 0) == {chain[0].body.delegator}
    ensures Acyclic(chain, 0) && LinksSound(chain, 0, o, sig)
  {
  }

  /** The checks of one turn of the loop, in order. */
  method VerifyLink(chain: seq<Signed>, i: nat, o: Options, sig: SigOk) returns (v: Verdict)
    requires i < |chain|
    ensures v == Pass <==>
      && LinkSound(chain[i], o, sig)
      && (if i == 0 then RootSound(chain[0].body, o) else Continues(chain[i].body, chain[i - 1].body))
    ensures v != Fail(NoDelegation) && v != Fail(TooDeep)
    ensures v.Fail? ==> LinkFails(chain, i, o, sig, v.reason)
  {
    hide KeyAt, Usable, Excess, InForce, HoldsKey, NoVisibleExcess;
    var s, d := chain[i], chain[i].body;
    UsableExactly(o.directory, d.delegator, d.issuedAt, "");
    UsableExactly(o.directory, d.delegator, o.at, "");
    UsableExactly(o.directory, d.delegate, o.at, "");
    forall key
      ensures KeyAt(o.directory, d.delegator, s.keyId, d.issuedAt) == Some(key)
         <==> HoldsKey(o.directory, d.delegator, s.keyId, d.issuedAt, key)
    {
      KeyAtExactly(o.directory, d.delegator, s.keyId, d.issuedAt, key);
    }
    if i > 0 {
      ExcessExactly(d.scope, chain[i - 1].body.scope);
    }
    var key := KeyAt(o.directory, d.delegator, s.keyId, d.issuedAt);
    if key.None? {
      return Fail(KeyNotBound);
    }
    if !sig(s, key.value) {
      return Fail(BadSignature);
    }
    if !Usable(o.directory, d.delegator, d.issuedAt, "") || !Usable(o.directory, d.delegator, o.at, "")
       || !Usable(o.directory, d.delegate, o.at, "") {
      return Fail(BadPrincipal);
    }
    if d.id in o.revoked {
      return Fail(RevokedLink);
    }
    if o.at < d.notBefore {
      return Fail(NotYetValid);
    }
    if o.at > d.expiresAt {
      return Fail(Expired);
    }
    if i == 0 {
      if d.parent.Some? && d.parent.value != "" {
        return Fail(BrokenChain);
      }
      if d.delegator !in o.roots {
        return Fail(UntrustedRoot);
      }
    } else {
      var p := chain[i - 1].body;
      if d.parent != Some(p.id) || d.delegator != p.delegate {
        return Fail(BrokenChain);
      }
      if Excess(d.scope, p.scope) || d.expiresAt > p.expiresAt {
        return Fail(Amplification);
      }
    }
    return Pass;
  }

  method VerifyLeaf(leaf: Grant, r: Request) returns (v: Verdict)
    ensures v == Pass <==> LeafSound(leaf, r)
    ensures v != Fail(NoDelegation) && v != Fail(TooDeep)
    ensures v.Fail? ==> LeafFails(leaf, r, v.reason)
  {
    hide Allows, Grants;
    AllowsExactly(leaf.scope, r.use);
    if leaf.delegate != r.requester {
      return Fail(WrongDelegate);
    }
    if leaf.audience != "*" && leaf.audience != r.audience {
      return Fail(WrongAudience);
    }
    if !Allows(leaf.scope, r.use) {
      return Fail(ScopeExceeded);
    }
    return Pass;
  }

  // ---------------------------------------------------------------- no amplification

  /** No link has an empty name that the one before it lacks. */
  predicate NoHiddenNames(chain: seq<Signed>) {
    forall i :: 0 < i < |chain| ==> EmptyNameShared(chain[i].body.scope, chain[i - 1].body.scope)
  }

  /** Along a chain whose links were checked, every link allows what the next one allows exactly
      when no link has an empty name of its own. */
  lemma ChainNarrows(chain: seq<Signed>, o: Options, sig: SigOk)
    requires LinksSound(chain, |chain|, o, sig)
    ensures (forall i :: 0 < i < |chain| ==> Narrows(chain[i].body.scope, chain[i - 1].body.scope)) <==>
      NoHiddenNames(chain)
  {
    hide Narrows, EmptyNameShared, Excess, LinkSound;
    forall i | 0 < i < |chain|
      ensures Narrows(chain[i].body.scope, chain[i - 1].body.scope) <==>
        EmptyNameShared(chain[i].body.scope, chain[i - 1].body.scope)
    {
      assert Continues(chain[i].body, chain[i - 1].body);
      NoExcessNarrows(chain[i].body.scope, chain[i - 1].body.scope);
    }
  }

  /** Every link's scope allows the use, not only the leaf's. */
  lemma {:induction false} EveryLinkAllows(chain: seq<Signed>, r: Request, o: Options, sig: SigOk, i: nat)
    requires Authorises(chain, r, o, sig) && NoHiddenNames(chain) && i < |chain|
    ensures Allows(chain[i].body.scope, r.use)
    decreases |chain| - i
  {
    hide Allows, Excess, LinkSound, EmptyNameShared;
    if i < |chain| - 1 {
      EveryLinkAllows(chain, r, o, sig, i + 1);
      assert Continues(chain[i + 1].body, chain[i].body);
      SharedNarrows(chain[i + 1].body.scope, chain[i].body.scope, r.use);
    }
  }

  /** No amplification: an accepted chain is a simple path from an allowed root to the requester; every link
      was signed with its delegator's key of the time, by a delegator in force then and now, is unexpired and
      unrevoked, does not outlive the one before it, and grants the use; the last is for this audience. */
  lemma NoAmplification(chain: seq<Signed>, r: Request, o: Options, sig: SigOk)
    requires Authorises(chain, r, o, sig) && NoHiddenNames(chain)
    ensures var path := Path(chain);
      && path[0] in o.roots && path[|chain|] == r.requester && Distinct(path)
      && forall i :: 0 <= i < |chain| ==>
           && chain[i].body.delegator == path[i] && chain[i].body.delegate == path[i + 1]
           && GenuineLink(chain[i], o, sig)
           && Grants(chain[i].body.scope, r.use)
           && (i > 0 ==> chain[i].body.expiresAt <= chain[i - 1].body.expiresAt)
    ensures var leaf := chain[|chain| - 1].body; leaf.audience == "*" || leaf.audience == r.audience
  {
    hide GenuineLink, Grants, Allows, Excess, Usable, KeyAt, EmptyNameShared;
    var path := Path(chain);
    forall i | 0 <= i < |chain|
      ensures chain[i].body.delegator == path[i] && chain[i].body.delegate == path[i + 1]
      ensures GenuineLink(chain[i], o, sig) && Grants(chain[i].body.scope, r.use)
    {
      EveryLinkAllows(chain, r, o, sig, i);
      AllowsExactly(chain[i].body.scope, r.use);
      LinkExactly(chain[i], o, sig);
      if i > 0 {
        assert Continues(chain[i].body, chain[i - 1].body);
      }
    }
  }
}
